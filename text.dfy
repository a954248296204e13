/** String helpers from Go's standard library, as the core uses them:
    the `\d+` regular expression, strconv.Atoi, fmt's "%d" and "%02d",
    strings.Cut / Contains / HasPrefix / TrimPrefix, and string order. */
module Text {
  import opened Common

  predicate IsDigit(c: char) { '0' <= c <= '9' }

  predicate AllDigits(s: string) { forall k :: 0 <= k < |s| ==> IsDigit(s[k]) }

  /** Length of the longest prefix of `s` made of ASCII digits. */
  function DigitPrefixLength(s: string): (n: nat)
    ensures n <= |s|
    ensures forall k :: 0 <= k < n ==> IsDigit(s[k])
    ensures n < |s| ==> !IsDigit(s[n])
  {
    FirstNot(s, IsDigit)
  }

  /** The maximal digit prefix is unique: any all-digit prefix that is
      followed by a non-digit (or by nothing) is it. */
  lemma DigitPrefixLengthIs(s: string, m: nat)
    requires m <= |s| && AllDigits(s[..m])
    requires m < |s| ==> !IsDigit(s[m])
    ensures DigitPrefixLength(s) == m
  {
    assert forall k :: 0 <= k < m ==> IsDigit(s[..m][k]);
    if m < |s| {
      FirstNotIs(s, IsDigit, m);
    }
  }

  /** The digits of `s`, in order. */
  function Digits(s: string): string
  {
    if s == [] then [] else (if IsDigit(s[0]) then [s[0]] else []) + Digits(s[1..])
  }

  function Concat(ss: seq<string>): string
  {
    if ss == [] then [] else ss[0] + Concat(ss[1..])
  }

  lemma {:induction false} DigitsOfDigitPrefix(s: string, n: nat)
    requires n <= |s| && AllDigits(s[..n])
    ensures Digits(s) == s[..n] + Digits(s[n..])
  {
    if n > 0 {
      assert s[..n][0] == s[0];
      assert s[1..][..n - 1] == s[1..n];
      DigitsOfDigitPrefix(s[1..], n - 1);
      assert s[1..][n - 1..] == s[n..];
      assert s[..n] == [s[0]] + s[1..n];
    }
  }

  /** The matches of the regular expression `\d+` in `s`, left to right
      (regexp.FindAllString(s, -1)): the maximal non-empty runs of digits. */
  function DigitRuns(s: string): (runs: seq<string>)
    ensures forall r :: r in runs ==> r != [] && AllDigits(r)
    decreases |s|
  {
    if s == [] then []
    else if !IsDigit(s[0]) then DigitRuns(s[1..])
    else
      var n := DigitPrefixLength(s);
      [s[..n]] + DigitRuns(s[n..])
  }

  /** The runs hold every digit of `s`, in order. */
  lemma {:induction false} DigitRunsCoverDigits(s: string)
    ensures Concat(DigitRuns(s)) == Digits(s)
    decreases |s|
  {
    if s == [] {
    } else if !IsDigit(s[0]) {
      DigitRunsCoverDigits(s[1..]);
    } else {
      var n := DigitPrefixLength(s);
      var rest := DigitRuns(s[n..]);
      DigitRunsCoverDigits(s[n..]);
      DigitsOfDigitPrefix(s, n);
      assert ([s[..n]] + rest)[1..] == rest;
    }
  }

  /** A non-empty string of digits is a single run. */
  lemma DigitRunsOfDigits(d: string)
    requires d != [] && AllDigits(d)
    ensures DigitRuns(d) == [d]
  {
    DigitPrefixLengthIs(d, |d|);
    assert d[..|d|] == d && d[|d|..] == [];
    assert DigitRuns(d) == [d[..|d|]] + DigitRuns(d[|d|..]);
  }

  /** Runs never span a non-digit: the runs of a + [c] + b are those of a
      followed by those of b. */
  lemma {:induction false} DigitRunsSplit(a: string, c: char, b: string)
    requires !IsDigit(c)
    ensures DigitRuns(a + [c] + b) == DigitRuns(a) + DigitRuns(b)
    decreases |a|
  {
    var s := a + [c] + b;
    if a == [] {
      assert s[1..] == b;
    } else if !IsDigit(a[0]) {
      assert s[1..] == a[1..] + [c] + b;
      DigitRunsSplit(a[1..], c, b);
      assert DigitRuns(s) == DigitRuns(s[1..]);
    } else {
      var n := DigitPrefixLength(a);
      assert a[..n] == s[..n];
      DigitPrefixLengthIs(s, n);
      assert DigitRuns(s) == [a[..n]] + DigitRuns(s[n..]);
      if n < |a| {
        assert s[n..] == a[n..] + [c] + b;
        DigitRunsSplit(a[n..], c, b);
        assert DigitRuns(a) == [a[..n]] + DigitRuns(a[n..]);
        assert DigitRuns(s) == [a[..n]] + (DigitRuns(a[n..]) + DigitRuns(b));
      } else {
        assert s[n..] == [c] + b;
        assert ([c] + b)[1..] == b;
        assert DigitRuns(s[n..]) == DigitRuns(b);
        assert a[..n] == a && a[n..] == [];
        assert DigitRuns(a) == [a] + DigitRuns([]);
      }
    }
  }

  function DigitValue(c: char): nat
    requires IsDigit(c)
  {
    c as int - '0' as int
  }

  function DigitChar(d: nat): (c: char)
    requires d < 10
    ensures IsDigit(c) && DigitValue(c) == d
  {
    ('0' as int + d) as char
  }

  /** The number written by a string of decimal digits. */
  function DigitsValue(s: string): nat
    requires AllDigits(s)
  {
    if s == [] then 0 else 10 * DigitsValue(s[..|s| - 1]) + DigitValue(s[|s| - 1])
  }

  /** fmt's "%d" of a natural number: digits without leading zeros that
      read back as `n`. */
  function NatToString(n: nat): (s: string)
    ensures s != [] && AllDigits(s)
    ensures DigitsValue(s) == n
    ensures |s| == 1 <==> n < 10
    ensures s[0] == '0' ==> n == 0
  {
    if n < 10 then [DigitChar(n)]
    else
      var h := NatToString(n / 10);
      assert (h + [DigitChar(n % 10)])[..|h|] == h;
      h + [DigitChar(n % 10)]
  }

  /** fmt's "%d" of an integer. */
  function Itoa(n: int): string
  {
    if n < 0 then "-" + NatToString(-n) else NatToString(n)
  }

  /** strconv.Atoi in base 10: an optional '+' or '-' followed by one or more
      ASCII digits; anything else is an error (None). */
  function Atoi(s: string): (r: Option<int>)
    ensures r.Some? ==> s != [] && forall k :: 0 < k < |s| ==> IsDigit(s[k])
    ensures r.Some? && r.value < 0 ==> s[0] == '-'
    ensures AllDigits(s) && s != [] ==> r == Some(DigitsValue(s) as int)
  {
    if s != [] && (s[0] == '+' || s[0] == '-') then
      var digits := s[1..];
      if digits != [] && AllDigits(digits) then
        Some(if s[0] == '-' then -(DigitsValue(digits) as int) else DigitsValue(digits))
      else None
    else if s != [] && AllDigits(s) then Some(DigitsValue(s))
    else None
  }

  /** Rendering an integer with "%d" and parsing it back with Atoi is the
      identity. */
  lemma AtoiItoa(n: int)
    ensures Atoi(Itoa(n)) == Some(n)
  {
    if n < 0 {
      assert Itoa(n)[1..] == NatToString(-n);
    }
  }

  lemma {:induction false} LeadingZero(s: string)
    requires AllDigits(s)
    ensures AllDigits(['0'] + s) && DigitsValue(['0'] + s) == DigitsValue(s)
  {
    if s != [] {
      var t := ['0'] + s;
      assert t[..|t| - 1] == ['0'] + s[..|s| - 1];
      LeadingZero(s[..|s| - 1]);
    }
  }

  /** fmt's "%02d": the decimal form of `n` zero-padded to two characters.
      A negative number already has two characters ("-1"), so only 0..9 are
      padded. The result reads back as `n` with Atoi. */
  function Pad2(n: int): (s: string)
    ensures |s| >= 2
    ensures 0 <= n < 100 ==> |s| == 2
    ensures 0 <= n < 10 ==> s[0] == '0'
    ensures n < 0 || 10 <= n ==> s == Itoa(n)
  {
    if 0 <= n < 10 then ['0'] + NatToString(n) else Itoa(n)
  }

  /** "%02d" reads back with Atoi as the number it was given. */
  lemma Pad2Atoi(n: int)
    ensures Atoi(Pad2(n)) == Some(n)
  {
    if 0 <= n < 10 {
      LeadingZero(NatToString(n));
    } else {
      AtoiItoa(n);
    }
  }

  /** "%02d" writes only digits and, for a negative number, a '-'. */
  lemma Pad2Chars(n: int)
    ensures forall k :: 0 <= k < |Pad2(n)| ==> IsDigit(Pad2(n)[k]) || Pad2(n)[k] == '-'
  {
    if 0 <= n < 10 {
      LeadingZero(NatToString(n));
    } else if n < 0 {
      assert forall k :: 1 <= k < |Pad2(n)| ==> Pad2(n)[k] == NatToString(-n)[k - 1];
    }
  }

  /** "%02d" of a natural number is all digits and reads back as the number. */
  lemma Pad2Value(n: nat)
    ensures AllDigits(Pad2(n)) && DigitsValue(Pad2(n)) == n
  {
    if n < 10 {
      LeadingZero(NatToString(n));
    }
  }

  /** For 0 <= n < 100, "%02d" is exactly the tens digit then the units digit. */
  lemma Pad2TwoDigits(n: int)
    requires 0 <= n < 100
    ensures Pad2(n) == [DigitChar(n / 10), DigitChar(n % 10)]
  {
    if n >= 10 {
      assert NatToString(n) == NatToString(n / 10) + [DigitChar(n % 10)];
    }
  }

  /** "%02d" of a natural number followed by text that does not start with
      a digit: the maximal digit prefix is exactly the padded number. */
  lemma Pad2DigitPrefix(k: nat, e: string)
    requires e == [] || !IsDigit(e[0])
    ensures DigitPrefixLength(Pad2(k) + e) == |Pad2(k)|
    ensures (Pad2(k) + e)[..|Pad2(k)|] == Pad2(k)
  {
    var t := Pad2(k) + e;
    Pad2Value(k);
    assert t[..|Pad2(k)|] == Pad2(k);
    DigitPrefixLengthIs(t, |Pad2(k)|);
  }

  /** For two-digit numbers, the string order of "%02d" agrees with the
      numeric order, whatever follows the digits. */
  lemma Pad2Order(k: int, m: int, x: string, y: string)
    requires 0 <= k < 100 && 0 <= m < 100
    ensures LessEq(Pad2(k) + x, Pad2(m) + y) ==> k <= m
    ensures k < m ==> LessEq(Pad2(k) + x, Pad2(m) + y)
  {
    Pad2TwoDigits(k);
    Pad2TwoDigits(m);
    var a := Pad2(k) + x;
    var b := Pad2(m) + y;
    assert a[0] == DigitChar(k / 10) && b[0] == DigitChar(m / 10);
    assert a[1..][0] == DigitChar(k % 10) && b[1..][0] == DigitChar(m % 10);
    if k > m {
      if k / 10 == m / 10 {
        assert a[0] == b[0] && a[1..][0] > b[1..][0];
        assert !LessEq(a[1..], b[1..]);
      } else {
        assert a[0] > b[0];
      }
    } else if k < m {
      if k / 10 == m / 10 {
        assert a[0] == b[0] && a[1..][0] < b[1..][0];
        assert LessEq(a[1..], b[1..]);
      } else {
        assert a[0] < b[0];
      }
    }
  }

  /** Past two digits the orders part: "%02d" of 100 sorts before that
      of 99. */
  lemma Pad2WidthLimit(x: string, y: string)
    ensures LessEq(Pad2(100) + x, Pad2(99) + y)
  {
    assert NatToString(10) == [DigitChar(1), DigitChar(0)];
    assert NatToString(100) == NatToString(10) + [DigitChar(0)];
    assert NatToString(99) == [DigitChar(9), DigitChar(9)];
    assert (Pad2(100) + x)[0] == '1' && (Pad2(99) + y)[0] == '9';
  }

  /** `sep` occurs in `s` starting at index k. */
  predicate OccursAt(s: string, sep: string, k: nat)
  {
    k + |sep| <= |s| && s[k..k + |sep|] == sep
  }

  /** The leftmost index at or after `from` where `sep` occurs in `s`. */
  function IndexFrom(s: string, sep: string, from: nat): (r: Option<nat>)
    requires from <= |s|
    ensures r.Some? ==> from <= r.value <= |s| && OccursAt(s, sep, r.value)
    ensures r.Some? ==> forall k :: from <= k < r.value ==> !OccursAt(s, sep, k)
    ensures r.None? ==> forall k :: from <= k <= |s| ==> !OccursAt(s, sep, k)
    decreases |s| - from
  {
    if OccursAt(s, sep, from) then Some(from)
    else if from == |s| then None
    else IndexFrom(s, sep, from + 1)
  }

  /** strings.Index: the leftmost occurrence of `sep` in `s`. */
  function Index(s: string, sep: string): Option<nat>
  {
    IndexFrom(s, sep, 0)
  }

  /** strings.Contains. */
  predicate Contains(s: string, sub: string)
  {
    Index(s, sub).Some?
  }

  /** strings.Cut: the text before and after the first `sep`, and whether
      `sep` was found; (s, "", false) when it is not. */
  function Cut(s: string, sep: string): (string, string, bool)
  {
    match Index(s, sep)
    case Some(k) => (s[..k], s[k + |sep|..], true)
    case None => (s, "", false)
  }

  predicate HasPrefix(s: string, prefix: string)
  {
    |prefix| <= |s| && s[..|prefix|] == prefix
  }

  /** strings.TrimPrefix. */
  function TrimPrefix(s: string, prefix: string): string
  {
    if HasPrefix(s, prefix) then s[|prefix|..] else s
  }

  /** Go's ordering of strings (byte-wise; on UTF-8 text this is the order
      of code points, which is how `char`s compare). */
  predicate LessEq(a: string, b: string)
    decreases |a|
  {
    a == [] || (b != [] && (a[0] < b[0] || (a[0] == b[0] && LessEq(a[1..], b[1..]))))
  }

  /** A common prefix does not change the order of two strings. */
  lemma {:induction false} LessEqCommonPrefix(p: string, x: string, y: string)
    ensures LessEq(p + x, p + y) <==> LessEq(x, y)
  {
    if p == [] {
      assert p + x == x && p + y == y;
    } else {
      assert (p + x)[0] == p[0] == (p + y)[0];
      assert (p + x)[1..] == p[1..] + x;
      assert (p + y)[1..] == p[1..] + y;
      assert LessEq(p + x, p + y) == LessEq((p + x)[1..], (p + y)[1..]);
      LessEqCommonPrefix(p[1..], x, y);
    }
  }
}

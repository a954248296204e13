/** sortEpisodes, shared verbatim by the epify and media packages: every
    episode's base name must hold a `MatchIndex`-th maximal digit run, and
    the episodes are then reordered in place by the value of that run. */
module Sorting {
  import opened Common
  import opened Text
  import opened Paths

  /** The matches of `\d+` in the episode's base name, left to right. */
  function Runs(e: string): seq<string>
  {
    DigitRuns(Base(e))
  }

  /** The episode has an i-th digit run to be ordered by. */
  predicate HasKey(e: string, i: int)
  {
    0 <= i < |Runs(e)|
  }

  /** The value of the i-th digit run (Atoi of a run of digits). */
  function Key(e: string, i: int): (r: nat)
    requires HasKey(e, i)
    ensures Atoi(Runs(e)[i]) == Some(r as int)
  {
    DigitsValue(Runs(e)[i])
  }

  predicate AllHaveKey(eps: seq<string>, i: int)
  {
    forall k :: 0 <= k < |eps| ==> HasKey(eps[k], i)
  }

  /** The episodes are in non-decreasing order of their i-th run's value. */
  predicate SortedByKey(eps: seq<string>, i: int)
  {
    AllHaveKey(eps, i) &&
    forall p, q :: 0 <= p < q < |eps| ==> Key(eps[p], i) <= Key(eps[q], i)
  }

  /** `sorted` is `eps` reordered by the i-th run's value. */
  predicate SortedPermutation(sorted: seq<string>, eps: seq<string>, i: int)
  {
    multiset(sorted) == multiset(eps) && SortedByKey(sorted, i)
  }

  /** The error for an episode without an i-th run: a name without digits
      is reported as such, whatever the index. */
  function KeyError(e: string, i: int): Error
  {
    if Runs(e) == [] then MissingNumber(e) else InvalidMatchIndex(i)
  }

  /** The position of the first episode without an i-th run, or |eps| when
      every episode has one. */
  function FirstWithoutKey(eps: seq<string>, i: int): (k: nat)
    ensures k <= |eps|
    ensures forall j :: 0 <= j < k ==> HasKey(eps[j], i)
    ensures k < |eps| ==> !HasKey(eps[k], i)
  {
    FirstNot(eps, e => HasKey(e, i))
  }

  /** The check sortEpisodes makes before reordering: the error for the
      first episode without an i-th run, or None when every episode has one. */
  function CheckMatchIndex(eps: seq<string>, i: int): (r: Option<Error>)
    ensures r.None? <==> AllHaveKey(eps, i)
  {
    var k := FirstWithoutKey(eps, i);
    if k == |eps| then None else Some(KeyError(eps[k], i))
  }

  /** The validation loop of sortEpisodes (epify.go:227-236). */
  method CheckEpisodes(eps: array<string>, i: int) returns (err: Option<Error>)
    ensures err == CheckMatchIndex(eps[..], i)
  {
    for k := 0 to eps.Length
      invariant forall j :: 0 <= j < k ==> HasKey(eps[j], i)
    {
      if !HasKey(eps[k], i) {
        FirstNotIs(eps[..], e => HasKey(e, i), k);
        return Some(KeyError(eps[k], i));
      }
    }
    return None;
  }

  /** While a[n] moves down to position j, the elements a[..n + 1] other
      than the one at j are in order, and the one at j is no larger than
      any after it. */
  ghost predicate Inserting<T>(s: seq<T>, j: int, n: int, key: T -> int)
  {
    0 <= j <= n < |s| &&
    (forall p, q :: 0 <= p < q <= n && p != j && q != j ==> key(s[p]) <= key(s[q])) &&
    (forall q :: j < q <= n ==> key(s[j]) <= key(s[q]))
  }

  /** Swapping the moving element with a larger predecessor keeps Inserting. */
  lemma SwapDown<T>(s: seq<T>, j: int, n: int, key: T -> int)
    requires Inserting(s, j, n, key) && j > 0 && key(s[j - 1]) > key(s[j])
    ensures Inserting(s[j - 1 := s[j]][j := s[j - 1]], j - 1, n, key)
  {
  }

  /** Swapping two neighbours keeps the multiset of elements. */
  lemma SwapKeepsElements<T>(s: seq<T>, j: int)
    requires 0 < j < |s|
    ensures multiset(s[j - 1 := s[j]][j := s[j - 1]]) == multiset(s)
  {
  }

  /** Once the moving element meets a predecessor that is no larger (or the
      front), a[..n + 1] is in order. */
  lemma InsertDone<T>(s: seq<T>, j: int, n: int, key: T -> int)
    requires Inserting(s, j, n, key) && (j == 0 || key(s[j - 1]) <= key(s[j]))
    ensures forall p, q :: 0 <= p < q <= n ==> key(s[p]) <= key(s[q])
  {
    forall p, q | 0 <= p < q <= n ensures key(s[p]) <= key(s[q]) {
      if q == j && p < j - 1 {
        assert key(s[p]) <= key(s[j - 1]);
      }
    }
  }

  /** One insertion step: moves a[n] down into the prefix a[..n], which is
      in non-decreasing order of `key`, so that a[..n + 1] is too. */
  method InsertAt<T>(a: array<T>, n: int, key: T -> int)
    requires 0 <= n < a.Length
    requires forall p, q :: 0 <= p < q < n ==> key(a[p]) <= key(a[q])
    modifies a
    ensures forall p, q :: 0 <= p < q <= n ==> key(a[p]) <= key(a[q])
    ensures multiset(a[..]) == multiset(old(a[..]))
  {
    var j := n;
    while j > 0 && key(a[j - 1]) > key(a[j])
      invariant Inserting(a[..], j, n, key)
      invariant multiset(a[..]) == multiset(old(a[..]))
    {
      ghost var s := a[..];
      SwapDown(s, j, n, key);
      SwapKeepsElements(s, j);
      a[j - 1], a[j] := a[j], a[j - 1];
      assert a[..] == s[j - 1 := s[j]][j := s[j - 1]];
      j := j - 1;
    }
    InsertDone(a[..], j, n, key);
    assert forall p :: 0 <= p <= n ==> a[p] == a[..][p];
  }

  /** Reorders `a` into non-decreasing order of `key`, as slices.SortFunc
      does with a comparator that compares keys with cmp.Compare. No claim
      is made about the relative order of elements with equal keys. */
  method SortBy<T>(a: array<T>, key: T -> int)
    modifies a
    ensures forall p, q :: 0 <= p < q < a.Length ==> key(a[p]) <= key(a[q])
    ensures multiset(a[..]) == multiset(old(a[..]))
  {
    for n := 0 to a.Length
      invariant forall p, q :: 0 <= p < q < n ==> key(a[p]) <= key(a[q])
      invariant multiset(a[..]) == multiset(old(a[..]))
    {
      InsertAt(a, n, key);
    }
  }

  /** Reordering keeps every element's i-th run. */
  lemma PermutationKeepsKeys(s: seq<string>, t: seq<string>, i: int)
    requires multiset(s) == multiset(t) && AllHaveKey(s, i)
    ensures AllHaveKey(t, i)
  {
    forall k | 0 <= k < |t| ensures HasKey(t[k], i) {
      assert t[k] in multiset(t);
      assert t[k] in s;
    }
  }

  /** The reordering of sortEpisodes, once every episode has an i-th run. */
  method SortByKey(a: array<string>, i: int)
    requires AllHaveKey(a[..], i)
    modifies a
    ensures SortedPermutation(a[..], old(a[..]), i)
  {
    // the fallback 0 is never consulted: every element has an i-th run
    SortBy(a, e => if HasKey(e, i) then Key(e, i) else 0);
    PermutationKeepsKeys(old(a[..]), a[..], i);
  }

  /** sortEpisodes: on an error, the episodes are left as they were; on
      success, they are a permutation of the input sorted by the i-th run. */
  method SortEpisodes(eps: array<string>, i: int) returns (err: Option<Error>)
    modifies eps
    ensures err == CheckMatchIndex(old(eps[..]), i)
    ensures err.Some? ==> eps[..] == old(eps[..])
    ensures err.None? ==> SortedPermutation(eps[..], old(eps[..]), i)
  {
    err := CheckEpisodes(eps, i);
    if err.None? {
      SortByKey(eps, i);
    }
  }

  /** Digits in the extension count: "ep1.mp4" has the runs 1 and 4. */
  lemma ExtensionDigitsCount(name: string)
    requires name == "ep1.mp4"
    ensures Runs(name) == ["1", "4"]
  {
    assert name == "ep1." + "mp4" && IsName(name) by {
      assert forall k :: 0 <= k < |name| ==> name[k] != '/';
    }
    RunsAfterEp1("mp4");
    DigitRunsOfDigits("4");
    assert "mp4"[1..] == "p4" && "p4"[1..] == "4";
    BaseOfName(name);
  }

  /** "ep1.mkv" has one run, so match index 1 is rejected before any
      reordering. */
  lemma MatchIndexPastLastRun(name: string)
    requires name == "ep1.mkv"
    ensures CheckMatchIndex([name], 1) == Some(InvalidMatchIndex(1))
  {
    assert name == "ep1." + "mkv" && IsName(name) by {
      assert forall k :: 0 <= k < |name| ==> name[k] != '/';
    }
    RunsAfterEp1("mkv");
    assert "mkv"[1..] == "kv" && "kv"[1..] == "v" && "v"[1..] == [];
    BaseOfName(name);
    assert Runs(name) == ["1"];
  }

  lemma RunsAfterEp1(x: string)
    ensures DigitRuns("ep1." + x) == ["1"] + DigitRuns(x)
  {
    assert "ep1." + x == "ep1" + ['.'] + x;
    DigitRunsSplit("ep1", '.', x);
    DigitRunsOfDigits("1");
    assert "ep1"[1..] == "p1" && "p1"[1..] == "1";
    assert DigitRuns("ep1") == DigitRuns("1");
  }
}

/** The Jellyfin naming scheme as the core writes it (show directories,
    movie files, season directories, episode files) and as it reads it back
    (show name, season number, previous episode number). */
module Naming {
  import opened Common
  import opened Text
  import opened Paths

  /** "%s (%d) [tvdbid-%d]": the show name, then " (", and a closing ']'. */
  function ShowDirName(name: string, year: int, tvdbid: int): (r: string)
    ensures HasPrefix(r, name + " (" + Itoa(year) + ") [tvdbid-") && r[|r| - 1] == ']'
  {
    name + " (" + Itoa(year) + ") [tvdbid-" + Itoa(tvdbid) + "]"
  }

  /** "%s (%d) [tmdbid-%d]%s": the movie name, then " (", and the
      extension last. */
  function MovieFileName(name: string, year: int, tmdbid: int, ext: string): (r: string)
    ensures HasPrefix(r, name + " (" + Itoa(year) + ") [tmdbid-")
    ensures |ext| < |r| && r[|r| - |ext|..] == ext && r[|r| - |ext| - 1] == ']'
  {
    name + " (" + Itoa(year) + ") [tmdbid-" + Itoa(tmdbid) + "]" + ext
  }

  /** "Season %02d": the prefix "Season ", then a text Atoi reads as n. */
  function SeasonDirName(n: int): (r: string)
    ensures HasPrefix(r, "Season ") && Atoi(r[|"Season "|..]) == Some(n)
  {
    var r := "Season " + Pad2(n);
    assert r[|"Season "|..] == Pad2(n);
    Pad2Atoi(n);
    r
  }

  /** "%s S%02dE%02d%s": the show name, " S", the padded season, 'E', the
      padded episode number, and the extension last. */
  function EpisodeFileName(show: string, n: int, k: int, ext: string): (r: string)
    ensures |r| == |show| + |Pad2(n)| + |Pad2(k)| + |ext| + 3 && r[|r| - |ext|..] == ext
  {
    show + " S" + Pad2(n) + "E" + Pad2(k) + ext
  }

  /** No occurrence of `sep` lies inside the text before its first occurrence. */
  lemma NoSeparatorBeforeIndex(s: string, sep: string, k: nat)
    requires sep != [] && Index(s, sep) == Some(k)
    ensures !Contains(s[..k], sep)
  {
    var t := s[..k];
    forall j | 0 <= j <= |t| ensures OccursAt(t, sep, j) ==> OccursAt(s, sep, j) && j < k {
      if j + |sep| <= |t| {
        assert t[j..j + |sep|] == s[j..j + |sep|];
      }
    }
  }

  /** The show name in a show directory's base name: the text before the
      first " (" (strings.Cut), or None when there is none.
      It is the one prefix that is followed by " (" and holds no " (". */
  function ShowName(base: string): (r: Option<string>)
    ensures r.Some? <==> Contains(base, " (")
    ensures r.Some? ==> HasPrefix(base, r.value + " (") && !Contains(r.value, " (")
  {
    var (show, _, ok) := Cut(base, " (");
    if ok then
      NoSeparatorBeforeIndex(base, " (", |show|);
      assert base[..|show| + 2] == show + " (";
      Some(show)
    else None
  }

  /** Cutting `name + " (" + rest` at the first " (" gives `name` back when
      `name` holds no " (" of its own. */
  lemma CutAtYearSep(base: string, name: string, rest: string)
    requires !Contains(name, " (") && base == name + " (" + rest
    ensures ShowName(base) == Some(name)
  {
    assert base[|name|..|name| + 2] == " (";
    assert OccursAt(base, " (", |name|);
    forall k | 0 <= k < |name| ensures !OccursAt(base, " (", k) {
      if k + 2 <= |name| {
        assert Index(name, " (").None?;
        assert base[k..k + 2] == name[k..k + 2];
        assert !OccursAt(name, " (", k);
      } else {
        assert base[k..k + 2][1] == base[k + 1] == ' ';
      }
    }
    assert Index(base, " (") == Some(|name|);
    assert base[..|name|] == name;
  }

  /** A show directory name is the show name, " (" and the rest. */
  lemma ShowDirNameSplit(name: string, year: int, tvdbid: int)
    ensures ShowDirName(name, year, tvdbid) == name + " (" + (Itoa(year) + ") [tvdbid-" + Itoa(tvdbid) + "]")
  {
  }

  /** A movie file name is the movie name, " (" and the rest. */
  lemma MovieFileNameSplit(name: string, year: int, tmdbid: int, ext: string)
    ensures MovieFileName(name, year, tmdbid, ext) == name + " (" + (Itoa(year) + ") [tmdbid-" + Itoa(tmdbid) + "]" + ext)
  {
  }

  /** Cutting a show directory name at " (" returns the show name, provided
      the name itself holds no " (". */
  lemma ShowNameRoundTrip(name: string, year: int, tvdbid: int)
    requires !Contains(name, " (")
    ensures ShowName(ShowDirName(name, year, tvdbid)) == Some(name)
  {
    ShowDirNameSplit(name, year, tvdbid);
    CutAtYearSep(ShowDirName(name, year, tvdbid), name, Itoa(year) + ") [tvdbid-" + Itoa(tvdbid) + "]");
  }

  /** The text after the "Season " prefix of a season directory's base name,
      or None when strings.TrimPrefix leaves the name unchanged. */
  function SeasonText(base: string): (r: Option<string>)
    ensures r.Some? <==> HasPrefix(base, "Season ")
    ensures r.Some? ==> base == "Season " + r.value
  {
    var t := TrimPrefix(base, "Season ");
    if t == base then None
    else
      assert base == base[..|"Season "|] + t;
      Some(t)
  }

  /** The season directory MkSeason creates passes AddEpisodes' prefix and
      Atoi checks and yields the same season number. */
  lemma SeasonRoundTrip(n: int)
    ensures SeasonText(SeasonDirName(n)) == Some(Pad2(n))
    ensures Atoi(Pad2(n)) == Some(n)
  {
    var base := SeasonDirName(n);
    assert base[..|"Season "|] == "Season ";
    var r := SeasonText(base);
    assert r.Some?;
    assert base[|"Season "|..] == r.value == Pad2(n);
    Pad2Atoi(n);
  }

  /** The episode file name splits after its "E" marker. */
  lemma EpisodeFileNameSplit(show: string, n: int, k: int, ext: string)
    ensures EpisodeFileName(show, n, k, ext) == (show + " S" + Pad2(n) + "E") + (Pad2(k) + ext)
  {
  }

  /** The episode file name as the show name, the season tag and the
      episode part. */
  lemma EpisodeFileNameParts(show: string, n: int, k: int, ext: string)
    ensures EpisodeFileName(show, n, k, ext) == (show + (" S" + Pad2(n))) + ("E" + Pad2(k) + ext)
  {
    var a, b, c, d, e, f := show, " S", Pad2(n), "E", Pad2(k), ext;
    assert a + b + c + d + e + f == (a + (b + c)) + (d + e + f);
  }

  /** Distinct episode numbers give distinct episode file names, whatever
      the extensions (filepath.Ext is empty or starts with '.'). */
  lemma EpisodeFileNameInjective(show: string, n: int, k1: nat, e1: string, k2: nat, e2: string)
    requires e1 == [] || e1[0] == '.'
    requires e2 == [] || e2[0] == '.'
    requires EpisodeFileName(show, n, k1, e1) == EpisodeFileName(show, n, k2, e2)
    ensures k1 == k2
  {
    var p := show + " S" + Pad2(n) + "E";
    var t1 := Pad2(k1) + e1;
    var t2 := Pad2(k2) + e2;
    EpisodeFileNameSplit(show, n, k1, e1);
    EpisodeFileNameSplit(show, n, k2, e2);
    assert t1 == (p + t1)[|p|..] == (p + t2)[|p|..] == t2;
    Pad2DigitPrefix(k1, e1);
    Pad2DigitPrefix(k2, e2);
    assert Pad2(k1) == Pad2(k2);
    Pad2Value(k1);
    Pad2Value(k2);
  }

  /** An episode file name is a single path element when neither the show
      name nor the extension holds a '/'. */
  lemma EpisodeFileNameIsName(show: string, n: int, k: int, ext: string)
    requires '/' !in show && '/' !in ext
    ensures IsName(EpisodeFileName(show, n, k, ext))
  {
    Pad2Chars(n);
    Pad2Chars(k);
    assert '/' !in Pad2(n) && '/' !in Pad2(k);
  }

  /** `E(\d+)\.` matches `s` at index p: an 'E', a maximal non-empty run of
      digits, then '.'. (Backtracking cannot shorten the run, because the
      character after a shorter run is a digit, not '.'.) */
  predicate EpisodeMatchAt(s: string, p: nat)
  {
    p < |s| && s[p] == 'E' &&
    var n := DigitPrefixLength(s[p + 1..]);
    n > 0 && p + 1 + n < |s| && s[p + 1 + n] == '.'
  }

  predicate NoEpisodeMatch(s: string)
  {
    forall q :: 0 <= q < |s| ==> !EpisodeMatchAt(s, q)
  }

  /** The leftmost index at or after `from` where `E(\d+)\.` matches. */
  function EpisodeMatchFrom(s: string, from: nat): (r: Option<nat>)
    requires from <= |s|
    ensures r.Some? ==> from <= r.value && EpisodeMatchAt(s, r.value)
    ensures r.Some? ==> forall q :: from <= q < r.value ==> !EpisodeMatchAt(s, q)
    ensures r.None? ==> forall q :: from <= q < |s| ==> !EpisodeMatchAt(s, q)
    decreases |s| - from
  {
    if from == |s| then None
    else if EpisodeMatchAt(s, from) then Some(from)
    else EpisodeMatchFrom(s, from + 1)
  }

  /** A match at j with none before it is the leftmost match. */
  lemma LeftmostEpisodeMatch(s: string, j: nat)
    requires EpisodeMatchAt(s, j)
    requires forall q :: 0 <= q < j ==> !EpisodeMatchAt(s, q)
    ensures EpisodeMatchFrom(s, 0) == Some(j)
  {
  }

  /** The episode number of the previous episode as AddEpisodes reads it:
      the digits captured by the leftmost `E(\d+)\.` match
      (FindStringSubmatch), converted by Atoi; None when nothing matches. */
  function EpisodeNumber(name: string): (r: Option<nat>)
    ensures r.None? <==> NoEpisodeMatch(name)
  {
    match EpisodeMatchFrom(name, 0)
    case None => None
    case Some(p) =>
      var run := name[p + 1..];
      Some(DigitsValue(run[..DigitPrefixLength(run)]))
  }

  /** Text appended after a show name cannot complete a match that starts
      inside it, when the text starts with a character that is neither a
      digit nor '.'. */
  lemma NoMatchAcrossBoundary(a: string, b: string, q: nat)
    requires q < |a| && !EpisodeMatchAt(a, q)
    requires b != [] && !IsDigit(b[0]) && b[0] != '.'
    ensures !EpisodeMatchAt(a + b, q)
  {
    var s := a + b;
    var x := a[q + 1..];
    var y := s[q + 1..];
    assert y == x + b;
    var d := DigitPrefixLength(x);
    assert y[..d] == x[..d];
    if d < |x| {
      assert y[d] == x[d];
      DigitPrefixLengthIs(y, d);
      assert s[q + 1 + d] == a[q + 1 + d];
    } else {
      assert y[d] == b[0];
      DigitPrefixLengthIs(y, d);
      assert s[q + 1 + d] == b[0];
    }
  }

  /** `E(\d+)\.` matches right after `pre` in pre + "E" + "%02d"(k) + ext,
      capturing exactly the digits of k. */
  lemma MatchAtEpisodeMarker(pre: string, k: nat, ext: string)
    requires ext != [] && ext[0] == '.'
    ensures EpisodeMatchAt(pre + ("E" + Pad2(k) + ext), |pre|)
    ensures var run := (pre + ("E" + Pad2(k) + ext))[|pre| + 1..];
            DigitPrefixLength(run) == |Pad2(k)| && run[..|Pad2(k)|] == Pad2(k)
  {
    var s := pre + ("E" + Pad2(k) + ext);
    var tail := Pad2(k) + ext;
    assert s[|pre|] == 'E';
    assert s[|pre| + 1..] == tail;
    assert tail[..|Pad2(k)|] == Pad2(k);
    DigitPrefixLengthIs(tail, |Pad2(k)|);
  }

  /** The season tag " S" + "%02d"(n) holds no 'E': "%02d" writes only
      digits and '-'. */
  lemma SeasonTagHasNoE(n: int)
    ensures var tag := " S" + Pad2(n); tag[0] == ' ' && forall j :: 0 <= j < |tag| ==> tag[j] != 'E'
  {
    var tag := " S" + Pad2(n);
    Pad2Chars(n);
    forall j | 2 <= j < |tag| ensures tag[j] != 'E' {
      assert tag[j] == Pad2(n)[j - 2];
    }
  }

  /** No match of `E(\d+)\.` starts before the episode marker of a generated
      episode file name: not inside the show name, which holds none, and
      not in the season tag, which holds no 'E' and starts with a space. */
  lemma NoMatchBeforeEpisodeMarker(show: string, tag: string, post: string)
    requires NoEpisodeMatch(show)
    requires tag != [] && tag[0] == ' ' && forall j :: 0 <= j < |tag| ==> tag[j] != 'E'
    ensures forall q :: 0 <= q < |show + tag| ==> !EpisodeMatchAt(show + tag + post, q)
  {
    var s := show + tag + post;
    forall q | 0 <= q < |show + tag| ensures !EpisodeMatchAt(s, q) {
      if q < |show| {
        assert s == show + (tag + post);
        NoMatchAcrossBoundary(show, tag + post, q);
      } else {
        assert s[q] == tag[q - |show|];
      }
    }
  }

  /** The episode number read from a name whose leftmost match is at p is
      the value of the digits captured there. */
  lemma EpisodeNumberOfMatch(s: string, p: nat, digits: string)
    requires EpisodeMatchFrom(s, 0) == Some(p)
    requires AllDigits(digits)
    requires DigitPrefixLength(s[p + 1..]) == |digits| && s[p + 1..][..|digits|] == digits
    ensures EpisodeNumber(s) == Some(DigitsValue(digits))
  {
  }

  /** Round trip of the episode number: the leftmost `E(\d+)\.` match in a
      generated episode file name yields the episode number, provided the
      extension is non-empty and the show name holds no match of its own. */
  lemma EpisodeNumberRoundTrip(show: string, n: int, k: nat, ext: string)
    requires NoEpisodeMatch(show)
    requires ext != [] && ext[0] == '.'
    ensures EpisodeNumber(EpisodeFileName(show, n, k, ext)) == Some(k)
  {
    var tag := " S" + Pad2(n);
    var pre := show + tag;
    var post := "E" + Pad2(k) + ext;
    var s := pre + post;
    EpisodeFileNameParts(show, n, k, ext);
    MatchAtEpisodeMarker(pre, k, ext);
    SeasonTagHasNoE(n);
    NoMatchBeforeEpisodeMarker(show, tag, post);
    LeftmostEpisodeMatch(s, |pre|);
    Pad2Value(k);
    EpisodeNumberOfMatch(s, |pre|, Pad2(k));
  }

  /** `s` holds no 'E'. */
  predicate NoE(s: string)
  {
    forall q :: 0 <= q < |s| ==> s[q] != 'E'
  }

  lemma NoEAppend(a: string, b: string)
    requires NoE(a) && NoE(b)
    ensures NoE(a + b)
  {
    assert forall q :: |a| <= q < |a + b| ==> (a + b)[q] == b[q - |a|];
  }

  /** `E(\d+)\.` matches nowhere in a + b when the 'E' starting b is the
      only one and the d digits after it are followed by neither a digit
      nor '.'. */
  lemma NoMatchAtOnlyE(a: string, b: string, d: nat)
    requires NoE(a)
    requires 1 + d < |b| && b[0] == 'E' && NoE(b[1..])
    requires AllDigits(b[1..1 + d]) && !IsDigit(b[1 + d]) && b[1 + d] != '.'
    ensures NoEpisodeMatch(a + b)
  {
    var s := a + b;
    var t := s[|a| + 1..];
    assert t == b[1..];
    assert t[..d] == b[1..1 + d];
    DigitPrefixLengthIs(t, d);
    forall q | 0 <= q < |s| && q != |a| ensures s[q] != 'E' {
      if q < |a| {
        assert s[q] == a[q];
      } else {
        assert s[q] == b[1..][q - |a| - 1];
      }
    }
  }

  /** The same for a show name followed by a tag without 'E' and then the
      part that holds the only 'E'. */
  lemma NoMatchAfterTag(show: string, tag: string, b: string, d: nat)
    requires NoE(show) && NoE(tag)
    requires 1 + d < |b| && b[0] == 'E' && NoE(b[1..])
    requires AllDigits(b[1..1 + d]) && !IsDigit(b[1 + d]) && b[1 + d] != '.'
    ensures NoEpisodeMatch(show + (tag + b))
  {
    NoEAppend(show, tag);
    NoMatchAtOnlyE(show + tag, b, d);
    assert show + tag + b == show + (tag + b);
  }
}

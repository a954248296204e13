/** internal/torrent/torrent.go: Rename files a finished torrent as the next
    episode of the latest season of the show it belongs to. It picks the
    show directory in the torrent directory, then the season directory with
    the largest number in it, and hands the torrent to media.AddEpisodes. */
module Torrent {
  import opened Common
  import opened Text
  import opened Paths
  import opened Naming
  import opened Sorting
  import opened Library
  import opened Execution
  import Media

  /** A torrent: the directory it was downloaded to, its name, and the
      destination directory (which Rename does not read). */
  datatype File = File(dir: string, name: string, dstDir: string)

  /** A listing entry is the torrent's show directory when it is a directory
      whose name has a " (" and whose text before it occurs in the torrent
      name. */
  predicate ShowMatches(e: Entry, torrent: string)
  {
    e.isDir && ShowName(e.name).Some? && Contains(torrent, ShowName(e.name).value)
  }

  /** The position of the first show directory that matches, if any. */
  function ShowEntry(ents: seq<Entry>, torrent: string): (r: Option<nat>)
    ensures r.None? <==> forall j :: 0 <= j < |ents| ==> !ShowMatches(ents[j], torrent)
    ensures r.Some? ==> r.value < |ents| && ShowMatches(ents[r.value], torrent) &&
                        forall j :: 0 <= j < r.value ==> !ShowMatches(ents[j], torrent)
  {
    var k := FirstNot(ents, e => !ShowMatches(e, torrent));
    if k == |ents| then None else Some(k)
  }

  /** The show loop (torrent.go:40-54): skip files and names without " (",
      and stop at the first show name that occurs in the torrent name. The
      empty path stands for "no show directory", as in the source. */
  method FindShowDir(dir: string, ents: seq<Entry>, torrent: string) returns (showDir: string)
    ensures showDir == (match ShowEntry(ents, torrent)
                        case None => ""
                        case Some(k) => Join(dir, ents[k].name))
  {
    showDir := "";
    var i := 0;
    while i < |ents|
      invariant 0 <= i <= |ents|
      invariant forall j :: 0 <= j < i ==> !ShowMatches(ents[j], torrent)
      invariant showDir == ""
    {
      var e := ents[i];
      if !e.isDir {
        i := i + 1;
        continue;
      }
      var show := ShowName(e.name);
      if show.None? {
        i := i + 1;
        continue;
      }
      if Contains(torrent, show.value) {
        FirstNotIs(ents, e => !ShowMatches(e, torrent), i);
        showDir := Join(dir, e.name);
        break;
      }
      i := i + 1;
    }
  }

  /** The season number of a listing entry: None for files and for names
      without the "Season " prefix, which the season loop skips; otherwise
      what Atoi makes of the rest of the name. */
  function SeasonEntry(e: Entry): Option<Option<int>>
  {
    if !e.isDir || SeasonText(e.name).None? then None
    else Some(Atoi(SeasonText(e.name).value))
  }

  /** The season loop (torrent.go:65-84) as a fold over the listing: the
      largest season number seen so far (starting at 0) and its directory
      (starting empty); a "Season " directory whose number does not parse
      ends the loop with that error. */
  function SeasonScan(ents: seq<Entry>, showDir: string): (r: Result<(int, string)>)
    ensures r.Success? ==> r.value.0 >= 0 && (r.value.0 == 0 <==> r.value.1 == "")
    ensures r.Failure? ==> r.error.InvalidSeason?
    decreases |ents|
  {
    if ents == [] then Success((0, ""))
    else
      match SeasonScan(ents[..|ents| - 1], showDir)
      case Failure(err) => Failure(err)
      case Success(acc) =>
        var e := ents[|ents| - 1];
        match SeasonEntry(e)
        case None => Success(acc)
        case Some(None) => Failure(InvalidSeason(SeasonText(e.name).value))
        case Some(Some(n)) => if n > acc.0 then Success((n, Join(showDir, e.name))) else Success(acc)
  }

  /** The season loop: skip files and names without "Season ", fail on a
      number that does not parse, keep the first directory with the largest
      number above 0. */
  method ChooseSeasonDir(showDir: string, ents: seq<Entry>) returns (r: Result<string>)
    ensures SeasonScan(ents, showDir).Failure? ==> r == Failure(SeasonScan(ents, showDir).error)
    ensures SeasonScan(ents, showDir).Success? ==> r == Success(SeasonScan(ents, showDir).value.1)
  {
    var seasonDir := "";
    var largest := 0;
    for i := 0 to |ents|
      invariant SeasonScan(ents[..i], showDir) == Success((largest, seasonDir))
    {
      assert ents[..i + 1][..i] == ents[..i];
      var e := ents[i];
      if !e.isDir {
        continue;
      }
      var season := TrimPrefix(e.name, "Season ");
      if e.name == season {
        continue;
      }
      var n := Atoi(season);
      if n.None? {
        SeasonScanFailurePersists(ents, showDir, i + 1);
        assert ents[..|ents|] == ents;
        return Failure(InvalidSeason(season));
      }
      if n.value > largest {
        largest := n.value;
        seasonDir := Join(showDir, e.name);
      }
    }
    assert ents[..|ents|] == ents;
    return Success(seasonDir);
  }

  /** Once the scan fails on a prefix, it fails with the same error on
      every longer prefix: the first unparsable season is the one reported. */
  lemma {:induction false} SeasonScanFailurePersists(ents: seq<Entry>, showDir: string, i: nat)
    requires i <= |ents| && SeasonScan(ents[..i], showDir).Failure?
    ensures SeasonScan(ents, showDir) == SeasonScan(ents[..i], showDir)
    decreases |ents| - i
  {
    if i < |ents| {
      assert ents[..i + 1][..i] == ents[..i];
      SeasonScanFailurePersists(ents, showDir, i + 1);
    } else {
      assert ents[..i] == ents;
    }
  }

  /** The number a season entry contributes, for entries the loop does not
      skip and whose number parses. */
  predicate SeasonIs(e: Entry, n: int)
  {
    SeasonEntry(e) == Some(Some(n))
  }

  /** The scan fails exactly when some "Season " directory has a number
      that does not parse. */
  lemma {:induction false} SeasonScanFailure(ents: seq<Entry>, showDir: string)
    ensures SeasonScan(ents, showDir).Failure? <==>
              exists j :: 0 <= j < |ents| && SeasonEntry(ents[j]) == Some(None)
    decreases |ents|
  {
    if ents != [] {
      var init := ents[..|ents| - 1];
      var last := |ents| - 1;
      SeasonScanFailure(init, showDir);
      if SeasonScan(init, showDir).Failure? {
        var j :| 0 <= j < |init| && SeasonEntry(init[j]) == Some(None);
        assert ents[j] == init[j];
      } else if SeasonEntry(ents[last]) != Some(None) {
        forall j | 0 <= j < |ents| ensures SeasonEntry(ents[j]) != Some(None) {
          if j < last {
            assert ents[j] == init[j];
          }
        }
      }
    }
  }

  /** A failing scan reports the first "Season " directory whose number
      does not parse. */
  lemma {:induction false} SeasonScanFirstBad(ents: seq<Entry>, showDir: string)
    requires SeasonScan(ents, showDir).Failure?
    ensures exists j :: 0 <= j < |ents| && SeasonEntry(ents[j]) == Some(None) &&
                        SeasonScan(ents, showDir).error == InvalidSeason(SeasonText(ents[j].name).value) &&
                        forall q :: 0 <= q < j ==> SeasonEntry(ents[q]) != Some(None)
    decreases |ents|
  {
    var init := ents[..|ents| - 1];
    var last := |ents| - 1;
    if SeasonScan(init, showDir).Failure? {
      SeasonScanFirstBad(init, showDir);
      assert SeasonScan(ents, showDir) == SeasonScan(init, showDir);
      var j :| 0 <= j < |init| && SeasonEntry(init[j]) == Some(None) &&
               SeasonScan(init, showDir).error == InvalidSeason(SeasonText(init[j].name).value) &&
               forall q :: 0 <= q < j ==> SeasonEntry(init[q]) != Some(None);
      assert ents[j] == init[j];
      assert forall q :: 0 <= q < j ==> ents[q] == init[q];
    } else {
      SeasonScanFailure(init, showDir);
      assert SeasonEntry(ents[last]) == Some(None);
      forall q | 0 <= q < last ensures SeasonEntry(ents[q]) != Some(None) {
        assert ents[q] == init[q];
      }
    }
  }

  /** When the scan succeeds, no season directory has a number above the
      one it keeps, which is at least 0; with nothing above 0 the directory
      stays empty. */
  lemma {:induction false} SeasonScanBound(ents: seq<Entry>, showDir: string)
    requires SeasonScan(ents, showDir).Success?
    ensures var (largest, dir) := SeasonScan(ents, showDir).value;
            largest >= 0 && (largest == 0 ==> dir == "") &&
            forall j, n :: 0 <= j < |ents| && SeasonIs(ents[j], n) ==> n <= largest
    decreases |ents|
  {
    if ents != [] {
      var init := ents[..|ents| - 1];
      SeasonScanBound(init, showDir);
      var l1 := SeasonScan(ents, showDir).value.0;
      forall j, n | 0 <= j < |ents| && SeasonIs(ents[j], n) ensures n <= l1 {
        if j < |init| {
          assert ents[j] == init[j];
        }
      }
    }
  }

  /** When the scan keeps a season above 0, it keeps the directory of the
      first season directory with that number. */
  lemma {:induction false} SeasonScanFirst(ents: seq<Entry>, showDir: string)
    requires SeasonScan(ents, showDir).Success? && SeasonScan(ents, showDir).value.0 > 0
    ensures var (largest, dir) := SeasonScan(ents, showDir).value;
            exists j :: 0 <= j < |ents| && SeasonIs(ents[j], largest) &&
                        dir == Join(showDir, ents[j].name) &&
                        forall q :: 0 <= q < j ==> !SeasonIs(ents[q], largest)
    decreases |ents|
  {
    var init := ents[..|ents| - 1];
    var last := |ents| - 1;
    var (l1, d1) := SeasonScan(ents, showDir).value;
    if SeasonScan(init, showDir).value.0 == l1 {
      SeasonScanFirst(init, showDir);
      var j :| 0 <= j < |init| && SeasonIs(init[j], l1) && d1 == Join(showDir, init[j].name) &&
               forall q :: 0 <= q < j ==> !SeasonIs(init[q], l1);
      assert ents[j] == init[j];
      assert forall q :: 0 <= q < j ==> ents[q] == init[q];
    } else {
      SeasonScanBound(init, showDir);
      assert SeasonIs(ents[last], l1);
      forall q | 0 <= q < last ensures !SeasonIs(ents[q], l1) {
        assert init[q] == ents[q];
      }
    }
  }

  /** The torrent directory exists, is a directory and can be listed. */
  predicate TorrentDirReadable(fs: FileSystem, t: File)
  {
    t.dir in fs.info && fs.info[t.dir] && t.dir in fs.listing
  }

  /** A show directory in the torrent directory matches the torrent. */
  predicate ShowFound(fs: FileSystem, t: File)
  {
    TorrentDirReadable(fs, t) && ShowEntry(fs.listing[t.dir], t.name).Some?
  }

  /** The path of the first show directory that matches the torrent. */
  function ShowDirOf(fs: FileSystem, t: File): string
    requires ShowFound(fs, t)
  {
    Join(t.dir, fs.listing[t.dir][ShowEntry(fs.listing[t.dir], t.name).value].name)
  }

  /** The matched show directory can be listed and is not empty. */
  predicate SeasonsListed(fs: FileSystem, t: File)
  {
    ShowFound(fs, t) && ShowDirOf(fs, t) in fs.listing && fs.listing[ShowDirOf(fs, t)] != []
  }

  /** No "Season " directory of the listing has a number that fails Atoi. */
  predicate SeasonsParse(seasons: seq<Entry>)
  {
    forall j :: 0 <= j < |seasons| ==> SeasonEntry(seasons[j]) != Some(None)
  }

  /** Some season directory of the listing has a number above 0. */
  ghost predicate SomeSeasonAboveZero(seasons: seq<Entry>)
  {
    exists j, n :: 0 <= j < |seasons| && n > 0 && SeasonIs(seasons[j], n)
  }

  /** Where Rename files the torrent (torrent.go:26-87): the checks of the
      torrent directory and its listing, the show directory, its listing and
      the season scan, in the source's order. Each of the source's own
      errors arises exactly in its case. */
  function Destination(fs: FileSystem, t: File): (r: Result<string>)
    ensures r == Failure(NoShows) <==> TorrentDirReadable(fs, t) && fs.listing[t.dir] == []
    ensures r == Failure(NoShowDirectory(t.name)) <==>
              TorrentDirReadable(fs, t) && fs.listing[t.dir] != [] && !ShowFound(fs, t)
    ensures r == Failure(NoSeasons) <==>
              ShowFound(fs, t) && ShowDirOf(fs, t) in fs.listing && fs.listing[ShowDirOf(fs, t)] == []
    ensures (r.Failure? && r.error.NoSeasonDirectory?) <==>
              SeasonsListed(fs, t) && SeasonsParse(fs.listing[ShowDirOf(fs, t)]) &&
              !SomeSeasonAboveZero(fs.listing[ShowDirOf(fs, t)])
    ensures r.Success? ==> r.value != ""
  {
    if t.dir !in fs.info then Failure(InvalidDirectory(t.dir))
    else if !fs.info[t.dir] then Failure(NotADirectory(t.dir))
    else if t.dir !in fs.listing then Failure(ReadDirFailed(t.dir))
    else
      var shows := fs.listing[t.dir];
      if shows == [] then Failure(NoShows)
      else match ShowEntry(shows, t.name)
        case None => Failure(NoShowDirectory(t.name))
        case Some(k) =>
          var showDir := Join(t.dir, shows[k].name);
          if showDir !in fs.listing then Failure(ReadDirFailed(showDir))
          else
            var seasons := fs.listing[showDir];
            if seasons == [] then Failure(NoSeasons)
            else
              SeasonScanFailure(seasons, showDir);
              match SeasonScan(seasons, showDir)
              case Failure(err) => SeasonScanFirstBad(seasons, showDir); Failure(err)
              case Success(acc) =>
                SeasonScanBound(seasons, showDir);
                ScanKeepsDirAboveZero(seasons, showDir);
                if acc.1 == "" then Failure(NoSeasonDirectory(showDir)) else Success(acc.1)
  }

  /** A successful scan keeps a directory exactly when some season number
      is above 0. */
  lemma ScanKeepsDirAboveZero(ents: seq<Entry>, showDir: string)
    requires SeasonScan(ents, showDir).Success?
    ensures SeasonScan(ents, showDir).value.1 == "" <==> !SomeSeasonAboveZero(ents)
  {
    SeasonScanBound(ents, showDir);
    var (largest, dir) := SeasonScan(ents, showDir).value;
    if largest > 0 {
      SeasonScanFirst(ents, showDir);
      var j :| 0 <= j < |ents| && SeasonIs(ents[j], largest) && dir == Join(showDir, ents[j].name);
      assert ents[j].name != [];
    }
  }

  /** Rename finds a destination exactly when the torrent directory and the
      matched show directory can be listed, the latter is not empty, every
      "Season " number in it parses, and one of them is above 0. */
  lemma DestinationSuccess(fs: FileSystem, t: File)
    ensures Destination(fs, t).Success? <==>
              SeasonsListed(fs, t) && SeasonsParse(fs.listing[ShowDirOf(fs, t)]) &&
              SomeSeasonAboveZero(fs.listing[ShowDirOf(fs, t)])
  {
    if SeasonsListed(fs, t) {
      var seasons := fs.listing[ShowDirOf(fs, t)];
      SeasonScanFailure(seasons, ShowDirOf(fs, t));
      if SeasonScan(seasons, ShowDirOf(fs, t)).Success? {
        ScanKeepsDirAboveZero(seasons, ShowDirOf(fs, t));
      }
    }
  }

  /** The destination lies in the first matching show directory: it is
      that directory's season directory with the largest number, and that
      number is above 0. */
  lemma DestinationIsLatestSeason(fs: FileSystem, t: File)
    requires Destination(fs, t).Success?
    ensures t.dir in fs.listing && ShowEntry(fs.listing[t.dir], t.name).Some?
    ensures var shows := fs.listing[t.dir];
            var showDir := Join(t.dir, shows[ShowEntry(shows, t.name).value].name);
            showDir in fs.listing &&
            var seasons := fs.listing[showDir];
            exists j, n :: 0 <= j < |seasons| && n > 0 && SeasonIs(seasons[j], n) &&
              Destination(fs, t).value == Join(showDir, seasons[j].name) &&
              forall q, m :: 0 <= q < |seasons| && SeasonIs(seasons[q], m) ==> m <= n
  {
    var shows := fs.listing[t.dir];
    var k := ShowEntry(shows, t.name).value;
    var showDir := Join(t.dir, shows[k].name);
    var seasons := fs.listing[showDir];
    SeasonScanBound(seasons, showDir);
    var (largest, dir) := SeasonScan(seasons, showDir).value;
    assert largest > 0;
    SeasonScanFirst(seasons, showDir);
    var j :| 0 <= j < |seasons| && SeasonIs(seasons[j], largest) && dir == Join(showDir, seasons[j].name) &&
             forall q :: 0 <= q < j ==> !SeasonIs(seasons[q], largest);
  }

  /** Sorting a single episode leaves it as it is. */
  lemma SortedSingle(s: seq<string>, x: string, i: int)
    requires SortedPermutation(s, [x], i)
    ensures s == [x]
  {
    assert |multiset(s)| == 1;
    assert s[0] in multiset(s);
  }

  /** Rename: choose the destination season directory, then add the torrent
      (its path in the torrent directory) to it as the only episode, with
      the episode number at match index 0. The outcome is AddEpisodes' on
      that one episode. */
  method Rename(fs: FileSystem, fails: set<Action>, t: File) returns (o: Outcome)
    ensures var d := Destination(fs, t);
            (d.Failure? ==> o == Outcome([], Some(d.error))) &&
            (d.Success? ==>
              var ep := Join(t.dir, t.name);
              var c := AdditionCheck(fs, d.value, [ep], 0);
              (c.Failure? ==> o == Outcome([], Some(c.error))) &&
              (c.Success? ==>
                var p := AdditionPlan(fs, d.value, c.value, [ep]);
                (p.Failure? ==> o == Outcome([], Some(p.error))) &&
                (p.Success? ==> FanOut(p.value, fails, o))))
  {
    if t.dir !in fs.info {
      return Outcome([], Some(InvalidDirectory(t.dir)));
    }
    if !fs.info[t.dir] {
      return Outcome([], Some(NotADirectory(t.dir)));
    }
    if t.dir !in fs.listing {
      return Outcome([], Some(ReadDirFailed(t.dir)));
    }
    var shows := fs.listing[t.dir];
    if |shows| == 0 {
      return Outcome([], Some(NoShows));
    }
    var showDir := FindShowDir(t.dir, shows, t.name);
    if showDir == "" {
      ShowDirNotEmpty(t.dir, shows, t.name);
      return Outcome([], Some(NoShowDirectory(t.name)));
    }
    if showDir !in fs.listing {
      return Outcome([], Some(ReadDirFailed(showDir)));
    }
    var seasons := fs.listing[showDir];
    if |seasons| == 0 {
      return Outcome([], Some(NoSeasons));
    }
    var chosen := ChooseSeasonDir(showDir, seasons);
    if chosen.Failure? {
      return Outcome([], Some(chosen.error));
    }
    var seasonDir := chosen.value;
    if seasonDir == "" {
      return Outcome([], Some(NoSeasonDirectory(showDir)));
    }
    var eps := new string[1];
    eps[0] := Join(t.dir, t.name);
    assert eps[..] == [Join(t.dir, t.name)];
    o := Media.AddEpisodes(fs, fails, seasonDir, eps, 0);
    if AdditionCheck(fs, seasonDir, [Join(t.dir, t.name)], 0).Success? {
      SortedSingle(eps[..], Join(t.dir, t.name), 0);
    }
  }

  /** A show directory that matched has a non-empty path, so the source's
      empty-path test means no show matched. */
  lemma ShowDirNotEmpty(dir: string, ents: seq<Entry>, torrent: string)
    ensures ShowEntry(ents, torrent).Some? ==> Join(dir, ents[ShowEntry(ents, torrent).value].name) != ""
  {
    if ShowEntry(ents, torrent).Some? {
      var name := ents[ShowEntry(ents, torrent).value].name;
      assert Contains(name, " (");
      assert name != [];
    }
  }

  /** The one episode added to an empty season directory becomes its
      episode 1. */
  lemma EmptySeasonFirstEpisode(fs: FileSystem, seasonDir: string, t: Target, ep: string)
    requires seasonDir in fs.listing && fs.listing[seasonDir] == []
    ensures AdditionPlan(fs, seasonDir, t, [ep]) == Success([EpisodeRename(seasonDir, t, 1, ep)])
  {
    assert PreviousEpisode(fs.listing[seasonDir]) == Success(0);
    assert Ordinals(0, 1) == [1];
    var r := EpisodeRenames(seasonDir, t, 0, [ep]);
    assert r == NumberedRenames(seasonDir, t, [1], [ep]);
    assert |r| == 1 && r[0] == EpisodeRename(seasonDir, t, 1, ep);
    assert r == [EpisodeRename(seasonDir, t, 1, ep)];
  }

  /** Of "Season 101" and "Season 102", the season scan keeps the
      larger. */
  lemma LatestOfTwoSeasons(showDir: string, s101: string, s102: string)
    requires s101 == "Season 101" && s102 == "Season 102"
    ensures SeasonScan([Entry(s101, true), Entry(s102, true)], showDir) == Success((102, Join(showDir, s102)))
    ensures Atoi(SeasonText(s102).value) == Some(102)
  {
    SeasonNames101And102();
    SeasonNumberOf(s101, 101);
    SeasonNumberOf(s102, 102);
    ScanOfTwo(Entry(s101, true), Entry(s102, true), showDir, 101, 102);
  }

  /** The names MkSeason gives seasons 101 and 102. */
  lemma SeasonNames101And102()
    ensures SeasonDirName(101) == "Season 101" && SeasonDirName(102) == "Season 102"
  {
    assert NatToString(101) == "101";
    assert NatToString(102) == "102";
  }

  /** A directory named by SeasonDirName(n) is a season entry numbered n. */
  lemma SeasonNumberOf(s: string, n: int)
    requires s == SeasonDirName(n)
    ensures SeasonText(s).Some? && Atoi(SeasonText(s).value) == Some(n)
    ensures SeasonEntry(Entry(s, true)) == Some(Some(n))
  {
    SeasonRoundTrip(n);
  }

  /** Of two season directories numbered 0 < m < n, the scan keeps the
      second. */
  lemma ScanOfTwo(a: Entry, b: Entry, showDir: string, m: int, n: int)
    requires SeasonEntry(a) == Some(Some(m)) && SeasonEntry(b) == Some(Some(n)) && 0 < m < n
    ensures SeasonScan([a, b], showDir) == Success((n, Join(showDir, b.name)))
  {
    var ents := [a, b];
    assert ents[..1][..0] == [] && ents[..1] == [a];
    assert SeasonScan(ents[..1], showDir) == Success((m, Join(showDir, a.name)));
  }

  /** A ".avi" torrent filed into an empty season 102 of "Knights of
      Sidonia" is named "Knights of Sidonia S102E01.avi". */
  lemma FirstEpisodeOfSeason102(fs: FileSystem, seasonDir: string, ep: string)
    requires seasonDir in fs.listing && fs.listing[seasonDir] == [] && Ext(ep) == ".avi"
    ensures AdditionPlan(fs, seasonDir, Target("Knights of Sidonia", 102), [ep]) ==
            Success([Action.Rename(ep, Join(seasonDir, "Knights of Sidonia S102E01.avi"))])
  {
    EmptySeasonFirstEpisode(fs, seasonDir, Target("Knights of Sidonia", 102), ep);
    assert NatToString(102) == "102";
    assert Pad2(1) == "01";
    assert EpisodeFileName("Knights of Sidonia", 102, 1, ".avi") == "Knights of Sidonia S102E01.avi";
  }

  /** The torrent test's season listing ["Season 101", "Season 102"]: the
      scan picks "Season 102" as season 102, and into that empty directory
      a ".avi" torrent becomes "Knights of Sidonia S102E01.avi". */
  lemma Season102Example(fs: FileSystem, showDir: string, s101: string, s102: string, ep: string)
    requires s101 == "Season 101" && s102 == "Season 102"
    requires Join(showDir, s102) in fs.listing && fs.listing[Join(showDir, s102)] == [] && Ext(ep) == ".avi"
    ensures SeasonScan([Entry(s101, true), Entry(s102, true)], showDir) == Success((102, Join(showDir, s102)))
    ensures Atoi(SeasonText(s102).value) == Some(102)
    ensures AdditionPlan(fs, Join(showDir, s102), Target("Knights of Sidonia", 102), [ep]) ==
            Success([Action.Rename(ep, Join(Join(showDir, s102), "Knights of Sidonia S102E01.avi"))])
  {
    LatestOfTwoSeasons(showDir, s101, s102);
    FirstEpisodeOfSeason102(fs, Join(showDir, s102), ep);
  }
}

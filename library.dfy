/** What epify.go and media.go share word for word: MkShow and AddMovie,
    the checks MkSeason and AddEpisodes make before they touch the
    filesystem, and the plan of renames they then carry out. The two
    packages differ only in how they carry out the renames (see Execution)
    and in the loop that builds them (see Epify and Media). */
module Library {
  import opened Common
  import opened Text
  import opened Paths
  import opened Naming
  import opened Sorting
  import opened Execution

  /** Metadata for a show or a movie: its name, its premiere year and its
      database ID as given on the command line, and the directory to create
      it in. */
  datatype Media = Media(name: string, year: string, id: string, dir: string)

  /** A movie file to add, with its metadata. */
  datatype Movie = Movie(media: Media, file: string)

  /** The show and season number that episodes are named after. */
  datatype Target = Target(show: string, n: int)

  /** The show directory MkShow creates, once the year and the TVDB ID
      parse: "Name (Year) [tvdbid-ID]" inside the given directory. */
  function ShowPath(s: Media): string
    requires Atoi(s.year).Some? && Atoi(s.id).Some?
  {
    Join(s.dir, ShowDirName(s.name, Atoi(s.year).value, Atoi(s.id).value))
  }

  /** MkShow: checks that the name is non-empty and that the year and the
      TVDB ID parse as integers, then creates the show directory with
      os.MkdirAll, whose error it returns when the system refuses it. */
  function MkShow(s: Media, fails: set<Action>): (r: Outcome)
    ensures r.err.None? <==> s.name != [] && Atoi(s.year).Some? && Atoi(s.id).Some? &&
                             MkdirAll(ShowPath(s)) !in fails
    ensures r.err.Some? ==> r.err.value == (if s.name == [] then EmptyShowName
                                            else if Atoi(s.year).None? then InvalidYear(s.year)
                                            else if Atoi(s.id).None? then InvalidTvdbId(s.id)
                                            else ActionFailed(MkdirAll(ShowPath(s))))
    ensures r.performed == (if r.err.None? then [MkdirAll(ShowPath(s))] else [])
  {
    if s.name == [] then Outcome([], Some(EmptyShowName))
    else if Atoi(s.year).None? then Outcome([], Some(InvalidYear(s.year)))
    else if Atoi(s.id).None? then Outcome([], Some(InvalidTvdbId(s.id)))
    else Sequential([MkdirAll(ShowPath(s))], fails)
  }

  /** The year and the ID are re-rendered in decimal: two spellings of the
      same numbers ("+2018", "02018", "2018") succeed together and create
      the same directory. */
  lemma MkShowCanonical(s: Media, t: Media, fails: set<Action>)
    requires s.name == t.name && s.dir == t.dir
    requires Atoi(s.year) == Atoi(t.year) && Atoi(s.id) == Atoi(t.id)
    ensures MkShow(s, fails).err.None? == MkShow(t, fails).err.None?
    ensures MkShow(s, fails).performed == MkShow(t, fails).performed
  {
  }

  /** The directory MkShow creates is one that MkSeason accepts: its base
      name cut at " (" gives the show name back, when the name holds neither
      " (" nor '/'. */
  lemma MkShowThenShowName(s: Media, fails: set<Action>)
    requires MkShow(s, fails).err.None?
    requires !Contains(s.name, " (") && '/' !in s.name
    ensures ShowName(Base(MkShow(s, fails).performed[0].path)) == Some(s.name)
  {
    var year := Atoi(s.year).value;
    var tvdbid := Atoi(s.id).value;
    var name := ShowDirName(s.name, year, tvdbid);
    NoSlashInItoa(year);
    NoSlashInItoa(tvdbid);
    assert IsName(name);
    BaseOfJoin(s.dir, name);
    ShowNameRoundTrip(s.name, year, tvdbid);
  }

  lemma NoSlashInItoa(n: int)
    ensures '/' !in Itoa(n)
  {
    var d := NatToString(if n < 0 then -n else n);
    assert forall k :: 0 <= k < |d| ==> d[k] != '/';
  }

  /** The new path of the movie, once the year and the TMDB ID parse:
      "Name (Year) [tmdbid-ID].ext" inside the given directory. */
  function MoviePath(m: Movie): string
    requires Atoi(m.media.year).Some? && Atoi(m.media.id).Some?
  {
    Join(m.media.dir, MovieFileName(m.media.name, Atoi(m.media.year).value, Atoi(m.media.id).value, Ext(m.file)))
  }

  /** The checks AddMovie makes before it renames the movie: the name,
      year and TMDB ID are valid, the directory exists and is one, and the
      movie file exists and is not a directory. None when all pass. */
  function MovieCheck(fs: FileSystem, m: Movie): (r: Option<Error>)
    ensures r.None? <==> m.media.name != [] && Atoi(m.media.year).Some? && Atoi(m.media.id).Some? &&
                         m.media.dir in fs.info && fs.info[m.media.dir] &&
                         m.file in fs.info && !fs.info[m.file]
    ensures r.Some? ==> r.value == (if m.media.name == [] then EmptyMovieName
                                    else if Atoi(m.media.year).None? then InvalidYear(m.media.year)
                                    else if Atoi(m.media.id).None? then InvalidTmdbId(m.media.id)
                                    else if m.media.dir !in fs.info then InvalidDirectory(m.media.dir)
                                    else if !fs.info[m.media.dir] then NotADirectory(m.media.dir)
                                    else if m.file !in fs.info then InvalidMovie(m.file)
                                    else IsADirectory(m.file))
  {
    var d := m.media;
    if d.name == [] then Some(EmptyMovieName)
    else if Atoi(d.year).None? then Some(InvalidYear(d.year))
    else if Atoi(d.id).None? then Some(InvalidTmdbId(d.id))
    else if d.dir !in fs.info then Some(InvalidDirectory(d.dir))
    else if !fs.info[d.dir] then Some(NotADirectory(d.dir))
    else if m.file !in fs.info then Some(InvalidMovie(m.file))
    else if fs.info[m.file] then Some(IsADirectory(m.file))
    else None
  }

  /** AddMovie: after its checks, renames the movie file into the
      directory as "Name (Year) [tmdbid-ID].ext", and returns the error of
      os.Rename when the system refuses it. */
  function AddMovie(fs: FileSystem, m: Movie, fails: set<Action>): (r: Outcome)
    ensures r.err.None? <==> MovieCheck(fs, m).None? && Rename(m.file, MoviePath(m)) !in fails
    ensures r.err.Some? ==> r.err.value == (if MovieCheck(fs, m).Some? then MovieCheck(fs, m).value
                                            else ActionFailed(Rename(m.file, MoviePath(m))))
    ensures r.performed == (if r.err.None? then [Rename(m.file, MoviePath(m))] else [])
  {
    match MovieCheck(fs, m)
    case Some(e) => Outcome([], Some(e))
    case None => Sequential([Rename(m.file, MoviePath(m))], fails)
  }

  /** The renamed movie keeps its extension. */
  lemma AddMovieKeepsExtension(fs: FileSystem, m: Movie, fails: set<Action>)
    requires AddMovie(fs, m, fails).err.None? && Ext(m.file) != []
    ensures Ext(AddMovie(fs, m, fails).performed[0].dst) == Ext(m.file)
  {
    var d := m.media;
    var y := Atoi(d.year).value;
    var id := Atoi(d.id).value;
    var e := Ext(m.file);
    var head := d.name + " (" + Itoa(y) + ") [tmdbid-" + Itoa(id) + "]";
    assert MovieFileName(d.name, y, id, e) == head + e;
    ExtOfSuffix(head, e);
    ExtOfJoin(d.dir, head + e);
  }

  /** The movie's new name cut at " (" gives the movie name back, when the
      name holds no " (" of its own. */
  lemma MovieNameRoundTrip(name: string, year: int, tmdbid: int, ext: string)
    requires !Contains(name, " (")
    ensures ShowName(MovieFileName(name, year, tmdbid, ext)) == Some(name)
  {
    MovieFileNameSplit(name, year, tmdbid, ext);
    CutAtYearSep(MovieFileName(name, year, tmdbid, ext), name, Itoa(year) + ") [tmdbid-" + Itoa(tmdbid) + "]" + ext);
  }

  /** The episode is present and is not a directory. */
  predicate EpisodeOk(fs: FileSystem, e: string)
  {
    e in fs.info && !fs.info[e]
  }

  /** The error for the first episode that is missing or is a directory
      (the os.Stat loop), or None when every episode is a regular file. */
  function FirstBadEpisode(fs: FileSystem, eps: seq<string>): (r: Option<Error>)
    ensures r.None? <==> forall k :: 0 <= k < |eps| ==> EpisodeOk(fs, eps[k])
    ensures r.Some? ==> exists k :: 0 <= k < |eps| && !EpisodeOk(fs, eps[k]) &&
                                   r.value == (if eps[k] in fs.info then IsADirectory(eps[k]) else InvalidEpisode(eps[k])) &&
                                   forall j :: 0 <= j < k ==> EpisodeOk(fs, eps[j])
  {
    var k := FirstNot(eps, e => EpisodeOk(fs, e));
    if k == |eps| then None
    else if eps[k] !in fs.info then Some(InvalidEpisode(eps[k]))
    else Some(IsADirectory(eps[k]))
  }

  /** The os.Stat loop over the episodes (epify.go:127-135). */
  method StatEpisodes(fs: FileSystem, eps: array<string>) returns (err: Option<Error>)
    ensures err == FirstBadEpisode(fs, eps[..])
  {
    for k := 0 to eps.Length
      invariant forall j :: 0 <= j < k ==> EpisodeOk(fs, eps[j])
    {
      var e := eps[k];
      if e !in fs.info {
        FirstNotIs(eps[..], e => EpisodeOk(fs, e), k);
        return Some(InvalidEpisode(e));
      }
      if fs.info[e] {
        FirstNotIs(eps[..], e => EpisodeOk(fs, e), k);
        return Some(IsADirectory(e));
      }
    }
    return None;
  }

  /** Everything MkSeason checks before it creates the season directory, in
      its order: the season number, the show directory, its name, the
      episode list, each episode, and sortEpisodes' check. */
  function SeasonCheck(fs: FileSystem, n: string, showDir: string, eps: seq<string>, i: int): (r: Result<Target>)
    ensures r.Success? <==> Atoi(n).Some? && showDir in fs.info && fs.info[showDir] &&
                            ShowName(Base(showDir)).Some? && eps != [] &&
                            FirstBadEpisode(fs, eps).None? && AllHaveKey(eps, i)
    ensures r.Success? ==> r.value == Target(ShowName(Base(showDir)).value, Atoi(n).value)
  {
    match Atoi(n)
    case None => Failure(InvalidSeason(n))
    case Some(season) =>
      if showDir !in fs.info then Failure(InvalidDirectory(showDir))
      else if !fs.info[showDir] then Failure(NotADirectory(showDir))
      else match ShowName(Base(showDir))
        case None => Failure(InvalidShowDirectory(showDir))
        case Some(show) =>
          if eps == [] then Failure(NoEpisodes)
          else if FirstBadEpisode(fs, eps).Some? then Failure(FirstBadEpisode(fs, eps).value)
          else if CheckMatchIndex(eps, i).Some? then Failure(CheckMatchIndex(eps, i).value)
          else Success(Target(show, season))
  }

  /** The part of MkSeason before the season directory is created, the same
      in both packages: the checks of SeasonCheck in their order, then
      sortEpisodes. A failed check leaves the episodes in their order. */
  method PrepareSeason(fs: FileSystem, n: string, showDir: string, eps: array<string>, i: int)
    returns (r: Result<Target>)
    modifies eps
    ensures r == SeasonCheck(fs, n, showDir, old(eps[..]), i)
    ensures r.Failure? ==> eps[..] == old(eps[..])
    ensures r.Success? ==> SortedPermutation(eps[..], old(eps[..]), i)
  {
    var season := Atoi(n);
    if season.None? {
      return Failure(InvalidSeason(n));
    }
    if showDir !in fs.info {
      return Failure(InvalidDirectory(showDir));
    }
    if !fs.info[showDir] {
      return Failure(NotADirectory(showDir));
    }
    var show := ShowName(Base(showDir));
    if show.None? {
      return Failure(InvalidShowDirectory(showDir));
    }
    if eps.Length == 0 {
      return Failure(NoEpisodes);
    }
    var bad := StatEpisodes(fs, eps);
    if bad.Some? {
      return Failure(bad.value);
    }
    var err := SortEpisodes(eps, i);
    if err.Some? {
      return Failure(err.value);
    }
    return Success(Target(show.value, season.value));
  }

  /** The part of AddEpisodes before the season directory is listed, the
      same in both packages: the checks of AdditionCheck in their order,
      then sortEpisodes. */
  method PrepareAddition(fs: FileSystem, seasonDir: string, eps: array<string>, i: int)
    returns (r: Result<Target>)
    modifies eps
    ensures r == AdditionCheck(fs, seasonDir, old(eps[..]), i)
    ensures r.Failure? ==> eps[..] == old(eps[..])
    ensures r.Success? ==> SortedPermutation(eps[..], old(eps[..]), i)
  {
    if seasonDir !in fs.info {
      return Failure(MissingSeasonDirectory(seasonDir));
    }
    if !fs.info[seasonDir] {
      return Failure(NotADirectory(seasonDir));
    }
    var season := SeasonText(Base(seasonDir));
    if season.None? {
      return Failure(InvalidSeasonDirectory(seasonDir));
    }
    var n := Atoi(season.value);
    if n.None? {
      return Failure(InvalidSeason(season.value));
    }
    var showDir := Dir(seasonDir);
    var show := ShowName(Base(showDir));
    if show.None? {
      return Failure(InvalidShowDirectory(showDir));
    }
    if eps.Length == 0 {
      return Failure(NoEpisodes);
    }
    var bad := StatEpisodes(fs, eps);
    if bad.Some? {
      return Failure(bad.value);
    }
    var err := SortEpisodes(eps, i);
    if err.Some? {
      return Failure(err.value);
    }
    return Success(Target(show.value, n.value));
  }

  /** Everything AddEpisodes checks before it lists the season directory, in
      its order: the season directory, its "Season " prefix and number, the
      show directory above it, the episode list, each episode, and
      sortEpisodes' check. */
  function AdditionCheck(fs: FileSystem, seasonDir: string, eps: seq<string>, i: int): (r: Result<Target>)
    ensures r.Success? <==> seasonDir in fs.info && fs.info[seasonDir] &&
                            SeasonText(Base(seasonDir)).Some? && Atoi(SeasonText(Base(seasonDir)).value).Some? &&
                            ShowName(Base(Dir(seasonDir))).Some? && eps != [] &&
                            FirstBadEpisode(fs, eps).None? && AllHaveKey(eps, i)
    ensures r.Success? ==> r.value == Target(ShowName(Base(Dir(seasonDir))).value,
                                             Atoi(SeasonText(Base(seasonDir)).value).value)
  {
    if seasonDir !in fs.info then Failure(MissingSeasonDirectory(seasonDir))
    else if !fs.info[seasonDir] then Failure(NotADirectory(seasonDir))
    else match SeasonText(Base(seasonDir))
      case None => Failure(InvalidSeasonDirectory(seasonDir))
      case Some(season) =>
        match Atoi(season)
        case None => Failure(InvalidSeason(season))
        case Some(n) =>
          var showDir := Dir(seasonDir);
          match ShowName(Base(showDir))
          case None => Failure(InvalidShowDirectory(showDir))
          case Some(show) =>
            if eps == [] then Failure(NoEpisodes)
            else if FirstBadEpisode(fs, eps).Some? then Failure(FirstBadEpisode(fs, eps).value)
            else if CheckMatchIndex(eps, i).Some? then Failure(CheckMatchIndex(eps, i).value)
            else Success(Target(show, n))
  }

  /** The rename of the sorted episode `e` into `dir` as episode k of the
      target season, keeping its extension. */
  function EpisodeRename(dir: string, t: Target, k: int, e: string): Action
  {
    Rename(e, Join(dir, EpisodeFileName(t.show, t.n, k, Ext(e))))
  }

  /** The renames that file the episodes `eps` into `dir`, the j-th moving
      eps[j] and numbering it ks[j]. */
  function NumberedRenames(dir: string, t: Target, ks: seq<int>, eps: seq<string>): seq<Action>
    requires |ks| == |eps|
  {
    seq(|eps|, j requires 0 <= j < |eps| => EpisodeRename(dir, t, ks[j], eps[j]))
  }

  /** The episode numbers offset + 1, ..., offset + n. */
  function Ordinals(offset: int, n: nat): seq<int>
  {
    seq(n, j => offset + j + 1)
  }

  /** The renames that file the sorted episodes into `dir` as episodes
      offset + 1, offset + 2, ... of the target season: the j-th moves the
      j-th episode and numbers it offset + j + 1. */
  function EpisodeRenames(dir: string, t: Target, offset: int, eps: seq<string>): (r: seq<Action>)
    ensures |r| == |eps|
    ensures forall j :: 0 <= j < |eps| ==> r[j].Rename? && r[j].src == eps[j]
  {
    NumberedRenames(dir, t, Ordinals(offset, |eps|), eps)
  }

  /** Numbering one more episode appends its rename. */
  lemma NumberedRenamesSnoc(dir: string, t: Target, ks: seq<int>, eps: seq<string>, k: int, e: string)
    requires |ks| == |eps|
    ensures NumberedRenames(dir, t, ks + [k], eps + [e]) == NumberedRenames(dir, t, ks, eps) + [EpisodeRename(dir, t, k, e)]
  {
    var a := NumberedRenames(dir, t, ks + [k], eps + [e]);
    var b := NumberedRenames(dir, t, ks, eps) + [EpisodeRename(dir, t, k, e)];
    forall j | 0 <= j < |a| ensures a[j] == b[j] {
      if j < |eps| {
        assert (ks + [k])[j] == ks[j] && (eps + [e])[j] == eps[j];
      }
    }
  }

  /** The renames of the first i episodes are the first i renames. */
  lemma NumberedRenamesPrefix(dir: string, t: Target, ks: seq<int>, eps: seq<string>, i: int)
    requires |ks| == |eps| && 0 <= i <= |eps|
    ensures NumberedRenames(dir, t, ks, eps)[..i] == NumberedRenames(dir, t, ks[..i], eps[..i])
  {
    var a := NumberedRenames(dir, t, ks, eps)[..i];
    var b := NumberedRenames(dir, t, ks[..i], eps[..i]);
    forall j | 0 <= j < i ensures a[j] == b[j] {
      assert ks[..i][j] == ks[j] && eps[..i][j] == eps[j];
    }
  }

  /** The renames of a batch with one more episode: the new episode is
      numbered k = offset + |eps| + 1. */
  lemma EpisodeRenamesSnoc(dir: string, t: Target, offset: int, eps: seq<string>, e: string, k: int)
    requires k == offset + |eps| + 1
    ensures EpisodeRenames(dir, t, offset, eps + [e]) == EpisodeRenames(dir, t, offset, eps) + [EpisodeRename(dir, t, k, e)]
  {
    assert Ordinals(offset, |eps| + 1) == Ordinals(offset, |eps|) + [k];
    NumberedRenamesSnoc(dir, t, Ordinals(offset, |eps|), eps, k, e);
  }

  /** The first i renames of a batch are the renames of its first i
      episodes, and the rename at i numbers episode k = offset + i + 1. */
  lemma EpisodeRenamesPrefix(dir: string, t: Target, offset: int, eps: seq<string>, i: int, k: int)
    requires 0 <= i < |eps| && k == offset + i + 1
    ensures EpisodeRenames(dir, t, offset, eps)[..i] == EpisodeRenames(dir, t, offset, eps[..i])
    ensures EpisodeRenames(dir, t, offset, eps)[i] == EpisodeRename(dir, t, k, eps[i])
  {
    assert Ordinals(offset, |eps|)[..i] == Ordinals(offset, i);
    assert Ordinals(offset, |eps|)[i] == k;
    NumberedRenamesPrefix(dir, t, Ordinals(offset, |eps|), eps, i);
  }

  /** Two renames into one directory have the same target only when they
      give the same episode number. */
  lemma EpisodeRenameInjective(dir: string, t: Target, k1: nat, e1: string, k2: nat, e2: string)
    ensures EpisodeRename(dir, t, k1, e1).dst == EpisodeRename(dir, t, k2, e2).dst ==> k1 == k2
  {
    var a := EpisodeFileName(t.show, t.n, k1, Ext(e1));
    var b := EpisodeFileName(t.show, t.n, k2, Ext(e2));
    if Join(dir, a) == Join(dir, b) {
      JoinInjective(dir, a, b);
      EpisodeFileNameInjective(t.show, t.n, k1, Ext(e1), k2, Ext(e2));
    }
  }

  /** Renames numbered by distinct natural numbers have distinct targets. */
  lemma NumberedTargetsDistinct(dir: string, t: Target, ks: seq<int>, eps: seq<string>)
    requires |ks| == |eps| && forall j :: 0 <= j < |ks| ==> ks[j] >= 0
    requires forall p, q :: 0 <= p < q < |ks| ==> ks[p] != ks[q]
    ensures forall p, q :: 0 <= p < q < |eps| ==>
              NumberedRenames(dir, t, ks, eps)[p].dst != NumberedRenames(dir, t, ks, eps)[q].dst
  {
    forall p, q | 0 <= p < q < |eps|
      ensures NumberedRenames(dir, t, ks, eps)[p].dst != NumberedRenames(dir, t, ks, eps)[q].dst
    {
      EpisodeRenameInjective(dir, t, ks[p], eps[p], ks[q], eps[q]);
    }
  }

  /** No two renames of a batch share a target, so none overwrites another
      and they can be carried out in any order. */
  lemma EpisodeTargetsDistinct(dir: string, t: Target, offset: int, eps: seq<string>)
    requires offset >= 0
    ensures forall p, q :: 0 <= p < q < |eps| ==>
              EpisodeRenames(dir, t, offset, eps)[p].dst != EpisodeRenames(dir, t, offset, eps)[q].dst
  {
    NumberedTargetsDistinct(dir, t, Ordinals(offset, |eps|), eps);
  }

  /** Read back with `E(\d+)\.`, the target of one rename names episode k,
      and it keeps the episode's extension, provided the show name holds no
      '/' and no match of its own and the episode has an extension. */
  lemma EpisodeTargetNumbered(dir: string, t: Target, k: nat, e: string)
    requires '/' !in t.show && NoEpisodeMatch(t.show) && Ext(e) != []
    ensures EpisodeNumber(Base(EpisodeRename(dir, t, k, e).dst)) == Some(k)
    ensures Ext(EpisodeRename(dir, t, k, e).dst) == Ext(e)
  {
    var x := Ext(e);
    var name := EpisodeFileName(t.show, t.n, k, x);
    EpisodeFileNameIsName(t.show, t.n, k, x);
    BaseOfJoin(dir, name);
    EpisodeNumberRoundTrip(t.show, t.n, k, x);
    var head := t.show + " S" + Pad2(t.n) + "E" + Pad2(k);
    assert name == head + x;
    ExtOfSuffix(head, x);
    ExtOfJoin(dir, name);
  }

  /** Every target of renames numbered by natural numbers reads back as its
      own number and keeps its episode's extension. */
  lemma NumberedTargetsNumbered(dir: string, t: Target, ks: seq<int>, eps: seq<string>)
    requires |ks| == |eps| && forall j :: 0 <= j < |ks| ==> ks[j] >= 0
    requires '/' !in t.show && NoEpisodeMatch(t.show)
    requires forall j :: 0 <= j < |eps| ==> Ext(eps[j]) != []
    ensures forall j :: 0 <= j < |eps| ==>
              EpisodeNumber(Base(NumberedRenames(dir, t, ks, eps)[j].dst)) == Some(ks[j]) &&
              Ext(NumberedRenames(dir, t, ks, eps)[j].dst) == Ext(eps[j])
  {
    forall j | 0 <= j < |eps|
      ensures EpisodeNumber(Base(NumberedRenames(dir, t, ks, eps)[j].dst)) == Some(ks[j])
      ensures Ext(NumberedRenames(dir, t, ks, eps)[j].dst) == Ext(eps[j])
    {
      EpisodeTargetNumbered(dir, t, ks[j], eps[j]);
    }
  }

  /** Every target of a batch reads back as its own episode number,
      offset + j + 1 for the j-th. */
  lemma EpisodeTargetsNumbered(dir: string, t: Target, offset: int, eps: seq<string>)
    requires offset >= 0
    requires '/' !in t.show && NoEpisodeMatch(t.show)
    requires forall j :: 0 <= j < |eps| ==> Ext(eps[j]) != []
    ensures forall j :: 0 <= j < |eps| ==>
              EpisodeNumber(Base(EpisodeRenames(dir, t, offset, eps)[j].dst)) == Some(Ordinals(offset, |eps|)[j]) &&
              Ext(EpisodeRenames(dir, t, offset, eps)[j].dst) == Ext(eps[j])
  {
    NumberedTargetsNumbered(dir, t, Ordinals(offset, |eps|), eps);
  }

  /** The season directory MkSeason creates under the show directory. */
  function SeasonDir(showDir: string, n: int): string
  {
    Join(showDir, SeasonDirName(n))
  }

  /** What MkSeason does once its checks pass: create the season directory,
      then file the sorted episodes into it as episodes 1..N. */
  function SeasonPlan(showDir: string, t: Target, sorted: seq<string>): (plan: seq<Action>)
    ensures |plan| == |sorted| + 1 && plan[0] == Mkdir(SeasonDir(showDir, t.n))
    ensures plan[1..] == EpisodeRenames(SeasonDir(showDir, t.n), t, 0, sorted)
  {
    [Mkdir(SeasonDir(showDir, t.n))] + EpisodeRenames(SeasonDir(showDir, t.n), t, 0, sorted)
  }

  /** MkSeason's plan moves every sorted episode once. After the Mkdir,
      action j moves sorted episode j - 1 to a target that reads back as
      episode j and keeps the extension, and no two targets coincide. */
  lemma SeasonPlanNumbers(showDir: string, t: Target, sorted: seq<string>)
    requires '/' !in t.show && NoEpisodeMatch(t.show)
    requires forall j :: 0 <= j < |sorted| ==> Ext(sorted[j]) != []
    ensures var plan := SeasonPlan(showDir, t, sorted);
            forall j :: 1 <= j < |plan| ==>
              plan[j].Rename? && plan[j].src == sorted[j - 1] &&
              EpisodeNumber(Base(plan[j].dst)) == Some(j) && Ext(plan[j].dst) == Ext(sorted[j - 1])
    ensures var plan := SeasonPlan(showDir, t, sorted);
            forall p, q :: 1 <= p < q < |plan| ==>
              plan[p].Rename? && plan[q].Rename? && plan[p].dst != plan[q].dst
  {
    var dir := SeasonDir(showDir, t.n);
    var plan := SeasonPlan(showDir, t, sorted);
    var renames := EpisodeRenames(dir, t, 0, sorted);
    EpisodeTargetsNumbered(dir, t, 0, sorted);
    EpisodeTargetsDistinct(dir, t, 0, sorted);
    forall j | 1 <= j < |plan| ensures plan[j] == renames[j - 1] && Ordinals(0, |sorted|)[j - 1] == j {
      assert plan[j] == plan[1..][j - 1];
    }
  }

  /** The previous episode number AddEpisodes continues from: 0 for an empty
      season directory, else the `E(\d+)\.` number of the last entry in the
      listing, which must have one. */
  function PreviousEpisode(ents: seq<Entry>): (r: Result<nat>)
    ensures ents == [] ==> r == Success(0)
    ensures ents != [] ==> (r.Failure? <==> EpisodeNumber(ents[|ents| - 1].name).None?)
    ensures ents != [] && r.Success? ==> r.value == EpisodeNumber(ents[|ents| - 1].name).value
    ensures r.Failure? ==> r.error == InvalidPreviousEpisode(ents[|ents| - 1].name)
  {
    if ents == [] then Success(0)
    else
      var prev := ents[|ents| - 1].name;
      match EpisodeNumber(prev)
      case None => Failure(InvalidPreviousEpisode(prev))
      case Some(epn) => Success(epn)
  }

  /** What AddEpisodes does once its checks pass: list the season directory
      and file the sorted episodes into it after the previous episode. */
  function AdditionPlan(fs: FileSystem, seasonDir: string, t: Target, sorted: seq<string>): (r: Result<seq<Action>>)
    ensures r.Success? <==> seasonDir in fs.listing && PreviousEpisode(fs.listing[seasonDir]).Success?
    ensures r.Success? ==>
              r.value == EpisodeRenames(seasonDir, t, PreviousEpisode(fs.listing[seasonDir]).value, sorted)
  {
    if seasonDir !in fs.listing then Failure(ReadDirFailed(seasonDir))
    else match PreviousEpisode(fs.listing[seasonDir])
      case Failure(err) => Failure(err)
      case Success(epn) => Success(EpisodeRenames(seasonDir, t, epn, sorted))
  }

  /** AddEpisodes' plan moves every sorted episode once: rename j moves
      sorted episode j to a target that reads back as the previous episode
      number plus j + 1 and keeps the extension, and no two targets
      coincide. */
  lemma AdditionPlanNumbers(fs: FileSystem, seasonDir: string, t: Target, sorted: seq<string>,
                            prev: nat, plan: seq<Action>)
    requires seasonDir in fs.listing && PreviousEpisode(fs.listing[seasonDir]) == Success(prev)
    requires AdditionPlan(fs, seasonDir, t, sorted) == Success(plan)
    requires '/' !in t.show && NoEpisodeMatch(t.show)
    requires forall j :: 0 <= j < |sorted| ==> Ext(sorted[j]) != []
    ensures |plan| == |sorted|
    ensures forall j :: 0 <= j < |plan| ==>
              plan[j].Rename? && plan[j].src == sorted[j] &&
              EpisodeNumber(Base(plan[j].dst)) == Some(prev + j + 1) && Ext(plan[j].dst) == Ext(sorted[j])
    ensures forall p, q :: 0 <= p < q < |plan| ==>
              plan[p].Rename? && plan[q].Rename? && plan[p].dst != plan[q].dst
  {
    RenamesNumbered(seasonDir, t, prev, sorted);
  }

  /** The renames of a batch continuing after `prev`: rename j moves
      episode j to a target that reads back as prev + j + 1 and keeps its
      extension, and no two targets coincide. */
  lemma RenamesNumbered(dir: string, t: Target, prev: nat, eps: seq<string>)
    requires '/' !in t.show && NoEpisodeMatch(t.show)
    requires forall j :: 0 <= j < |eps| ==> Ext(eps[j]) != []
    ensures var plan := EpisodeRenames(dir, t, prev, eps);
            forall j :: 0 <= j < |plan| ==>
              EpisodeNumber(Base(plan[j].dst)) == Some(prev + j + 1) && Ext(plan[j].dst) == Ext(eps[j])
    ensures var plan := EpisodeRenames(dir, t, prev, eps);
            forall p, q :: 0 <= p < q < |plan| ==> plan[p].dst != plan[q].dst
  {
    var plan := EpisodeRenames(dir, t, prev, eps);
    EpisodeTargetsNumbered(dir, t, prev, eps);
    EpisodeTargetsDistinct(dir, t, prev, eps);
    forall j | 0 <= j < |plan| ensures EpisodeNumber(Base(plan[j].dst)) == Some(prev + j + 1) {
      assert Ordinals(prev, |eps|)[j] == prev + j + 1;
    }
  }

  /** A listing of episode files of one season, each named by
      EpisodeFileName with a two-digit number and an extension, and sorted
      by name as os.ReadDir returns it. */
  predicate TwoDigitListing(ents: seq<Entry>, show: string, n: int, ks: seq<nat>, exts: seq<string>)
  {
    |ks| == |ents| && |exts| == |ents| &&
    (forall j {:trigger ents[j]} :: 0 <= j < |ents| ==>
      ks[j] < 100 && exts[j] != [] && exts[j][0] == '.' &&
      ents[j].name == EpisodeFileName(show, n, ks[j], exts[j])) &&
    forall p, q {:trigger LessEq(ents[p].name, ents[q].name)} :: 0 <= p < q < |ents| ==> LessEq(ents[p].name, ents[q].name)
  }

  /** For two-digit episode numbers, name order of episode files of one
      season follows episode order. */
  lemma EpisodeNameOrder(show: string, n: int, k1: nat, e1: string, k2: nat, e2: string)
    requires k1 < 100 && k2 < 100
    ensures LessEq(EpisodeFileName(show, n, k1, e1), EpisodeFileName(show, n, k2, e2)) ==> k1 <= k2
  {
    var pre := show + " S" + Pad2(n) + "E";
    EpisodeFileNameSplit(show, n, k1, e1);
    EpisodeFileNameSplit(show, n, k2, e2);
    LessEqCommonPrefix(pre, Pad2(k1) + e1, Pad2(k2) + e2);
    Pad2Order(k1, k2, e1, e2);
  }

  /** With two-digit episode numbers, the last entry of the sorted listing
      holds the largest episode number, so AddEpisodes continues after the
      latest episode. */
  lemma PreviousEpisodeIsLatest(ents: seq<Entry>, show: string, n: int, ks: seq<nat>, exts: seq<string>)
    requires ents != [] && NoEpisodeMatch(show)
    requires TwoDigitListing(ents, show, n, ks, exts)
    ensures PreviousEpisode(ents) == Success(ks[|ks| - 1])
    ensures forall j :: 0 <= j < |ks| ==> ks[j] <= PreviousEpisode(ents).value
  {
    var k, ext := LastEntry(ents, show, n, ks, exts);
    PreviousEpisodeOfName(ents, show, n, k, ext);
    LastIsLargest(ents, show, n, ks, exts);
  }

  /** The episode number and extension the last entry of a listing was
      named with. */
  lemma LastEntry(ents: seq<Entry>, show: string, n: int, ks: seq<nat>, exts: seq<string>)
    returns (k: nat, ext: string)
    requires ents != [] && TwoDigitListing(ents, show, n, ks, exts)
    ensures ents[|ents| - 1].name == EpisodeFileName(show, n, k, ext)
    ensures k == ks[|ks| - 1] && ext != [] && ext[0] == '.'
  {
    k, ext := ks[|ents| - 1], exts[|ents| - 1];
  }

  /** In a sorted two-digit listing, the last entry has the largest episode
      number. */
  lemma LastIsLargest(ents: seq<Entry>, show: string, n: int, ks: seq<nat>, exts: seq<string>)
    requires ents != [] && TwoDigitListing(ents, show, n, ks, exts)
    ensures forall j :: 0 <= j < |ks| ==> ks[j] <= ks[|ks| - 1]
  {
    var last := |ents| - 1;
    forall j | 0 <= j < last ensures ks[j] <= ks[last] {
      ListingOrder(ents, show, n, ks, exts, j, last);
    }
  }

  /** In a sorted two-digit listing, episode numbers increase with position. */
  lemma ListingOrder(ents: seq<Entry>, show: string, n: int, ks: seq<nat>, exts: seq<string>, p: int, q: int)
    requires TwoDigitListing(ents, show, n, ks, exts) && 0 <= p < q < |ents|
    ensures ks[p] <= ks[q]
  {
    assert ents[p].name == EpisodeFileName(show, n, ks[p], exts[p]);
    assert ents[q].name == EpisodeFileName(show, n, ks[q], exts[q]);
    assert LessEq(ents[p].name, ents[q].name);
    EpisodeNameOrder(show, n, ks[p], exts[p], ks[q], exts[q]);
  }

  /** The previous episode of a listing whose last entry is a generated
      episode file name is that name's episode number. */
  lemma PreviousEpisodeOfName(ents: seq<Entry>, show: string, n: int, k: nat, ext: string)
    requires ents != [] && NoEpisodeMatch(show) && ext != [] && ext[0] == '.'
    requires ents[|ents| - 1].name == EpisodeFileName(show, n, k, ext)
    ensures PreviousEpisode(ents) == Success(k)
  {
    EpisodeNumberRoundTrip(show, n, k, ext);
  }

  /** The last-entry rule needs equal-width numbers: with episodes 99 and
      100 in the directory, name order puts episode 100 first, and
      AddEpisodes continues from 99. */
  lemma PreviousEpisodeWidthLimit(show: string, n: int, ext: string)
    requires NoEpisodeMatch(show) && ext != [] && ext[0] == '.'
    ensures var ents := [Entry(EpisodeFileName(show, n, 100, ext), false),
                         Entry(EpisodeFileName(show, n, 99, ext), false)];
            LessEq(ents[0].name, ents[1].name) && PreviousEpisode(ents) == Success(99)
  {
    var pre := show + " S" + Pad2(n) + "E";
    EpisodeFileNameSplit(show, n, 100, ext);
    EpisodeFileNameSplit(show, n, 99, ext);
    LessEqCommonPrefix(pre, Pad2(100) + ext, Pad2(99) + ext);
    Pad2WidthLimit(ext, ext);
    EpisodeNumberRoundTrip(show, n, 99, ext);
  }

  /** A last name with no `E(\d+)\.` match makes AddEpisodes fail with it. */
  lemma PreviousEpisodeNoMatch(ents: seq<Entry>, name: string)
    requires ents != [] && ents[|ents| - 1].name == name && NoEpisodeMatch(name)
    ensures PreviousEpisode(ents) == Failure(InvalidPreviousEpisode(name))
  {
  }

  /** A previous episode name without an 'E' ("<show> S1001.mkv") makes
      AddEpisodes fail, for a show name without an 'E'. */
  lemma PreviousEpisodeMissingE(ents: seq<Entry>, show: string)
    requires NoE(show) && ents != [] && ents[|ents| - 1].name == show + " S1001.mkv"
    ensures PreviousEpisode(ents) == Failure(InvalidPreviousEpisode(show + " S1001.mkv"))
  {
    NoEAppend(show, " S1001.mkv");
    PreviousEpisodeNoMatch(ents, show + " S1001.mkv");
  }

  /** So does one without the '.' after the number ("<show> S10E01mkv"). */
  lemma PreviousEpisodeMissingPeriod(ents: seq<Entry>, show: string)
    requires NoE(show) && ents != [] && ents[|ents| - 1].name == show + " S10E01mkv"
    ensures PreviousEpisode(ents) == Failure(InvalidPreviousEpisode(show + " S10E01mkv"))
  {
    NoMatchAfterTag(show, " S10", "E01mkv", 2);
    PreviousEpisodeNoMatch(ents, show + " S10E01mkv");
  }

  /** So does one without digits after the 'E' ("<show> S10.01Emkv"). */
  lemma PreviousEpisodeMalformed(ents: seq<Entry>, show: string)
    requires NoE(show) && ents != [] && ents[|ents| - 1].name == show + " S10.01Emkv"
    ensures PreviousEpisode(ents) == Failure(InvalidPreviousEpisode(show + " S10.01Emkv"))
  {
    NoMatchAfterTag(show, " S10.01", "Emkv", 0);
    PreviousEpisodeNoMatch(ents, show + " S10.01Emkv");
  }

  /** So does one with a non-digit inside the number ("<show> S10E0A.mkv"). */
  lemma PreviousEpisodeInvalidNumber(ents: seq<Entry>, show: string)
    requires NoE(show) && ents != [] && ents[|ents| - 1].name == show + " S10E0A.mkv"
    ensures PreviousEpisode(ents) == Failure(InvalidPreviousEpisode(show + " S10E0A.mkv"))
  {
    NoMatchAfterTag(show, " S10", "E0A.mkv", 1);
    assert " S10" + "E0A.mkv" == " S10E0A.mkv";
    PreviousEpisodeNoMatch(ents, show + " S10E0A.mkv");
  }
}

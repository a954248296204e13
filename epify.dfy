/** internal/epify/epify.go: MkSeason and AddEpisodes, which check their
    arguments, sort the episodes in place and then rename them one after
    another, stopping at the first failure. */
module Epify {
  import opened Common
  import opened Text
  import opened Paths
  import opened Naming
  import opened Sorting
  import opened Library
  import opened Execution

  /** The rename loop shared by MkSeason and AddEpisodes: a counter that
      starts at the previous episode number is advanced before each rename,
      and the first rename that fails ends the loop with its error. */
  method RenameInOrder(dir: string, t: Target, epn0: int, eps: array<string>, fails: set<Action>)
    returns (o: Outcome)
    ensures o == Sequential(EpisodeRenames(dir, t, epn0, eps[..]), fails)
  {
    var performed := [];
    var epn := epn0;
    for i := 0 to eps.Length
      invariant epn == epn0 + i
      invariant performed == EpisodeRenames(dir, t, epn0, eps[..i])
      invariant Sequential(performed, fails).err.None?
    {
      epn := epn + 1;
      var r := EpisodeRename(dir, t, epn, eps[i]);
      if r in fails {
        EpisodeRenamesPrefix(dir, t, epn0, eps[..], i, epn);
        assert eps[..][..i] == eps[..i];
        SequentialStop(EpisodeRenames(dir, t, epn0, eps[..]), i, fails);
        return Outcome(performed, Some(ActionFailed(r)));
      }
      EpisodeRenamesSnoc(dir, t, epn0, eps[..i], eps[i], epn);
      assert eps[..i + 1] == eps[..i] + [eps[i]];
      SequentialExtend(performed, r, fails);
      performed := performed + [r];
    }
    assert eps[..] == eps[..eps.Length];
    return Outcome(performed, None);
  }

  /** MkSeason: check the season number, the show directory, the name of
      the show in it and the episodes, sort the episodes, create the season
      directory and rename the episodes into it one after another as
      episodes 1..N. The loop numbers episode i as i+1, which is
      RenameInOrder's counter started at 0. A failed check returns its error
      with nothing done and the episodes left in their order. */
  method MkSeason(fs: FileSystem, fails: set<Action>, n: string, showDir: string, eps: array<string>, i: int)
    returns (o: Outcome)
    modifies eps
    ensures var c := SeasonCheck(fs, n, showDir, old(eps[..]), i);
            (c.Failure? ==> o == Outcome([], Some(c.error)) && eps[..] == old(eps[..])) &&
            (c.Success? ==> SortedPermutation(eps[..], old(eps[..]), i) &&
                            o == Sequential(SeasonPlan(showDir, c.value, eps[..]), fails))
  {
    var c := PrepareSeason(fs, n, showDir, eps, i);
    if c.Failure? {
      return Outcome([], Some(c.error));
    }
    var t := c.value;
    var seasonDir := SeasonDir(showDir, t.n);
    var mk := Mkdir(seasonDir);
    SequentialCons(mk, EpisodeRenames(seasonDir, t, 0, eps[..]), fails);
    if mk in fails {
      return Outcome([], Some(ActionFailed(mk)));
    }
    var renamed := RenameInOrder(seasonDir, t, 0, eps, fails);
    return Outcome([mk] + renamed.performed, renamed.err);
  }

  /** AddEpisodes: the checks and the sort, then list the season directory
      for the previous episode number and rename the episodes into it one
      after another, continuing after that number. */
  method AddEpisodes(fs: FileSystem, fails: set<Action>, seasonDir: string, eps: array<string>, i: int)
    returns (o: Outcome)
    modifies eps
    ensures var c := AdditionCheck(fs, seasonDir, old(eps[..]), i);
            (c.Failure? ==> o == Outcome([], Some(c.error)) && eps[..] == old(eps[..])) &&
            (c.Success? ==> SortedPermutation(eps[..], old(eps[..]), i) &&
                            var p := AdditionPlan(fs, seasonDir, c.value, eps[..]);
                            (p.Failure? ==> o == Outcome([], Some(p.error))) &&
                            (p.Success? ==> o == Sequential(p.value, fails)))
  {
    var c := PrepareAddition(fs, seasonDir, eps, i);
    if c.Failure? {
      return Outcome([], Some(c.error));
    }
    if seasonDir !in fs.listing {
      return Outcome([], Some(ReadDirFailed(seasonDir)));
    }
    var prev := PreviousEpisode(fs.listing[seasonDir]);
    if prev.Failure? {
      return Outcome([], Some(prev.error));
    }
    o := RenameInOrder(seasonDir, c.value, prev.value, eps, fails);
  }
}

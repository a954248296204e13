/** internal/media/media.go: the same MkSeason and AddEpisodes as
    internal/epify/epify.go, except that the renames are started together
    in an errgroup, each numbered from its position, and the result is what
    the group's Wait returns. */
module Media {
  import opened Common
  import opened Naming
  import opened Sorting
  import opened Library
  import opened Execution

  /** The errgroup loop: the rename of episode i is numbered epn + i + 1
      and every rename is attempted. This loop attempts them in position
      order and reports the first failure by position, which is one of the
      outcomes the fan-out allows. */
  method RenameConcurrently(dir: string, t: Target, epn: int, eps: array<string>, fails: set<Action>)
    returns (o: Outcome)
    ensures FanOut(EpisodeRenames(dir, t, epn, eps[..]), fails, o)
  {
    o := Outcome([], None);
    for i := 0 to eps.Length
      invariant FanOut(EpisodeRenames(dir, t, epn, eps[..i]), fails, o)
    {
      var k := epn + i + 1;
      var r := EpisodeRename(dir, t, k, eps[i]);
      EpisodeRenamesSnoc(dir, t, epn, eps[..i], eps[i], k);
      assert eps[..i + 1] == eps[..i] + [eps[i]];
      FanOutSnoc(EpisodeRenames(dir, t, epn, eps[..i]), r, fails, o);
      o := Attempt(o, r, fails);
    }
    assert eps[..] == eps[..eps.Length];
  }

  /** MkSeason: the checks and the sort, then the season directory is
      created on its own, and then every episode is renamed into it as
      episode i + 1 concurrently. */
  method MkSeason(fs: FileSystem, fails: set<Action>, n: string, showDir: string, eps: array<string>, i: int)
    returns (o: Outcome)
    modifies eps
    ensures var c := SeasonCheck(fs, n, showDir, old(eps[..]), i);
            (c.Failure? ==> o == Outcome([], Some(c.error)) && eps[..] == old(eps[..])) &&
            (c.Success? ==> SortedPermutation(eps[..], old(eps[..]), i) &&
                            FanOutAfterFirst(SeasonPlan(showDir, c.value, eps[..]), fails, o))
  {
    var c := PrepareSeason(fs, n, showDir, eps, i);
    if c.Failure? {
      return Outcome([], Some(c.error));
    }
    var t := c.value;
    var seasonDir := SeasonDir(showDir, t.n);
    var mk := Mkdir(seasonDir);
    if mk in fails {
      return Outcome([], Some(ActionFailed(mk)));
    }
    var renamed := RenameConcurrently(seasonDir, t, 0, eps, fails);
    o := Outcome([mk] + renamed.performed, renamed.err);
    assert o.performed[1..] == renamed.performed;
  }

  /** AddEpisodes: the checks and the sort, the listing of the season
      directory for the previous episode number, then every episode is
      renamed into it concurrently after that number. */
  method AddEpisodes(fs: FileSystem, fails: set<Action>, seasonDir: string, eps: array<string>, i: int)
    returns (o: Outcome)
    modifies eps
    ensures var c := AdditionCheck(fs, seasonDir, old(eps[..]), i);
            (c.Failure? ==> o == Outcome([], Some(c.error)) && eps[..] == old(eps[..])) &&
            (c.Success? ==> SortedPermutation(eps[..], old(eps[..]), i) &&
                            var p := AdditionPlan(fs, seasonDir, c.value, eps[..]);
                            (p.Failure? ==> o == Outcome([], Some(p.error))) &&
                            (p.Success? ==> FanOut(p.value, fails, o)))
  {
    var c := PrepareAddition(fs, seasonDir, eps, i);
    if c.Failure? {
      return Outcome([], Some(c.error));
    }
    if seasonDir !in fs.listing {
      return Outcome([], Some(ReadDirFailed(seasonDir)));
    }
    var prev := PreviousEpisode(fs.listing[seasonDir]);
    if prev.Failure? {
      return Outcome([], Some(prev.error));
    }
    o := RenameConcurrently(seasonDir, c.value, prev.value, eps, fails);
  }
}

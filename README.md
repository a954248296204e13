# epify, modelled in Dafny

epify files TV episodes and movies under the Jellyfin naming scheme. This
project models its core: the two near-identical packages
`internal/epify` and `internal/media`, and `internal/torrent`, which sits on
top of the second.

- **MkShow** creates a show directory named `Name (Year) [tvdbid-ID]`.
- **AddMovie** renames a movie file to `Name (Year) [tmdbid-ID].ext`.
- **MkSeason** validates a batch of episode files and sorts them by a chosen
  run of digits in their names (`sortEpisodes`). It then creates
  `Season NN` in the show directory and renames the episodes into it as
  `Show SNNE01.ext`, `Show SNNE02.ext`, ….
- **AddEpisodes** does the same for an existing season directory. Its
  numbering continues after the episode number in the last name of the
  directory listing.
- **torrent.Rename** picks the show directory whose name prefix occurs in
  the torrent's name, then that show's season directory with the largest
  number. It files the torrent there as the next episode.

The packages differ in how they carry out the renames. `epify` renames one
after another and stops at the first failure. `media` starts every rename
at once in an errgroup.

Modules, one per concern:

- `Common`: errors, directory entries, the filesystem view, actions.
- `Text`: the `\d+` regular expression, `strconv.Atoi`, `%d`, `%02d`,
  `strings.Cut`/`Index`, string order.
- `Paths`: `filepath.Base`/`Dir`/`Ext`/`Join`.
- `Naming`: the Jellyfin names, how they are read back, and the leftmost
  `E(\d+)\.` match.
- `Sorting`: `sortEpisodes`, on an array, in place.
- `Library`: what both packages share word for word. This is MkShow,
  AddMovie, the checks and the rename plans.
- `Execution`: sequential versus fan-out execution of a plan.
- `Epify`, `Media`: each package's rename loop and top-level operations.
- `Torrent`: `torrent.Rename`.

The filesystem is a parameter:

- `FileSystem.info` answers `os.Stat`.
- `FileSystem.listing` answers `os.ReadDir`, in name order.
- The set `fails` holds the actions the operating system would refuse.

An operation returns an `Outcome`: the actions that took effect and the
error returned. Both packages build the same rename plan (`SeasonPlan`,
`EpisodeRenames`, `AdditionPlan`). `Epify`'s methods are proved to carry it
out as `Sequential(plan)` and `Media`'s as a `FanOut(plan)`.
`SequentialVersusFanOut` relates the two: they succeed together, and what
the sequential run performs is a prefix of what the fan-out performs.

## Model

| member | source | states |
|---|---|---|
| Text.DigitRuns | internal/epify/epify.go:224-229 | every match of `\d+` is a non-empty string of ASCII digits |
| Text.DigitRunsCoverDigits | internal/epify/epify.go:224-229 | the matches of `\d+`, concatenated in order, are exactly the digits of the name |
| Text.DigitRunsSplit | internal/epify/epify.go:224-229 | no match spans a non-digit: the matches in a + c + b are those in a followed by those in b |
| Text.NatToString | internal/epify/epify.go:45 | `%d` of a natural number is a non-empty digit string without a leading zero that denotes the number |
| Text.Atoi | internal/epify/epify.go:37-44 | `strconv.Atoi` accepts only a non-empty string whose characters after the first are all digits, a negative value comes only from a leading '-', and a plain digit string reads as its decimal value |
| Text.Pad2 | internal/epify/epify.go:139 | `%02d`: two characters with a leading '0' for 0..9, exactly two for 0..99, and plain `%d` for negative numbers and numbers from 10 on |
| Text.AtoiItoa | internal/epify/epify.go:37-45 | `strconv.Atoi` reads back every integer `%d` writes |
| Text.Pad2Atoi | internal/epify/epify.go:139 | `strconv.Atoi` reads back every integer `%02d` writes |
| Text.Pad2Order | internal/epify/epify.go:201-207 | for numbers 0..99 followed by any text, a `%02d` name that sorts at or before another has the smaller or equal number, and a smaller number always sorts first |
| Text.Pad2WidthLimit | internal/epify/epify.go:201-207 | `%02d` of 100 sorts before `%02d` of 99, whatever follows |
| Text.IndexFrom | internal/epify/epify.go:120 | `strings.Index` gives the leftmost occurrence at or after the start, and None only when there is none |
| Text.LessEqCommonPrefix | internal/epify/epify.go:201-207 | a common prefix does not change the order of two names, in both directions |
| Paths.Base | internal/epify/epify.go:172 | `filepath.Base` is non-empty and is either "/" or free of '/' |
| Paths.Ext | internal/epify/epify.go:86 | `filepath.Ext` is empty or starts with '.', with no further '.' and no '/' |
| Paths.BaseOfJoin | internal/epify/epify.go:139-140 | Base of Join(dir, name) is the name |
| Paths.BaseOfDirOfJoin | internal/epify/epify.go:181-182 | for a season directory created inside a show directory, Base of its Dir is the show directory's name |
| Paths.ExtOfJoin | internal/epify/epify.go:145-146 | joining onto a directory keeps a name's extension |
| Paths.NoExtension | internal/epify/epify.go:145 | Ext is empty exactly when the last path element holds no '.' |
| Paths.JoinInjective | internal/epify/epify.go:146 | Join onto one directory is injective on non-empty names |
| Naming.ShowName | internal/epify/epify.go:120-123 | the show name exists exactly when " (" occurs; it is the prefix before the first " (" and holds none itself |
| Naming.ShowDirName | internal/epify/epify.go:45 | the show directory name starts with `Name (Year) [tvdbid-`, the year in decimal, and ends with ']' |
| Naming.MovieFileName | internal/epify/epify.go:86 | the movie file name starts with `Name (Year) [tmdbid-` and ends with ']' followed by the extension |
| Naming.SeasonDirName | internal/epify/epify.go:139 | `Season %02d` starts with "Season " and what follows reads back through Atoi as the season number |
| Naming.EpisodeFileName | internal/epify/epify.go:145 | `%s S%02dE%02d%s` is as long as the show, both padded numbers, the extension and the three characters " S" and "E" together, and ends with the extension |
| Naming.ShowNameRoundTrip | internal/epify/epify.go:120-123 | cutting the show directory name MkShow writes at " (" gives the show name back, when the name holds no " (" |
| Naming.SeasonText | internal/epify/epify.go:172-176 | the season text exists exactly when the name starts with "Season ", and the name is "Season " + text |
| Naming.SeasonRoundTrip | internal/epify/epify.go:172-180 | the `Season %02d` name MkSeason creates passes AddEpisodes' prefix and Atoi checks and yields the same season number |
| Naming.EpisodeFileNameInjective | internal/epify/epify.go:145 | different episode numbers give different episode file names, whatever the extensions |
| Naming.EpisodeMatchFrom | internal/epify/epify.go:208 | the leftmost position where `E(\d+)\.` matches, and None only when it matches nowhere |
| Naming.EpisodeNumber | internal/epify/epify.go:207-212 | no episode number exactly when `E(\d+)\.` matches nowhere in the name |
| Naming.EpisodeNumberRoundTrip | internal/epify/epify.go:207-212 | the leftmost `E(\d+)\.` match in a generated episode name yields its episode number, when the extension is non-empty and the show name holds no match |
| Sorting.CheckMatchIndex | internal/epify/epify.go:227-236 | no error exactly when every episode's base name has a run of digits at the match index |
| Sorting.CheckEpisodes | internal/epify/epify.go:227-236 | the check loop returns the error of the first episode without a run at the index: no digits, else an invalid match index |
| Sorting.Key | internal/epify/epify.go:228-229 | the sort key is the number the chosen run of digits reads as through Atoi |
| Sorting.InsertAt | internal/epify/epify.go:237-241 | one in-place insertion step extends the ordered prefix by one element and keeps the multiset of elements |
| Sorting.SortBy | internal/epify/epify.go:237-241 | the array ends in non-decreasing order of the key and is a permutation of its old contents |
| Sorting.SortByKey | internal/epify/epify.go:237-241 | the episodes end as a permutation of the input ordered by the value of their chosen run |
| Sorting.SortEpisodes | internal/epify/epify.go:226-243 | the error is the check's; on an error the episodes keep their order, otherwise they are a permutation of the input ordered by the chosen run |
| Sorting.ExtensionDigitsCount | internal/epify/epify.go:228-229 | digits in the extension count: "ep1.mp4" has the runs 1 and 4 |
| Sorting.MatchIndexPastLastRun | internal/media/media_test.go:231-235 | "ep1.mkv" has one run, so match index 1 is rejected |
| Library.MkShow | internal/epify/epify.go:33-50 | success exactly when the name is non-empty, year and ID parse and the system accepts the MkdirAll of `Name (Year) [tvdbid-ID]`; otherwise the error is empty name, invalid year, invalid TVDB ID or the refused MkdirAll, in that order, and nothing is created |
| Library.MkShowCanonical | internal/epify/epify.go:37-45 | year and ID are re-rendered in decimal, so spellings Atoi reads alike succeed together and create the same directory |
| Library.MkShowThenShowName | internal/epify/epify.go:45-46 | the directory MkShow creates is one MkSeason accepts, and it yields the show name |
| Library.MovieCheck | internal/epify/epify.go:61-84 | AddMovie's checks pass exactly when name, year, TMDB ID, directory and movie file are valid; otherwise the error is that of the first failing check, in the source's order |
| Library.AddMovie | internal/epify/epify.go:60-91 | success exactly when the checks pass and the system accepts the rename of the movie to `Name (Year) [tmdbid-ID].ext` in the directory; otherwise the check's error or the refused rename, with nothing renamed |
| Library.AddMovieKeepsExtension | internal/epify/epify.go:86-87 | the renamed movie keeps its extension |
| Library.MovieNameRoundTrip | internal/epify/epify.go:86 | cutting the new movie name at " (" gives the movie name back |
| Library.FirstBadEpisode | internal/epify/epify.go:127-135 | no error exactly when every episode exists and is not a directory; otherwise the error names the first bad episode, all before it being good |
| Library.StatEpisodes | internal/epify/epify.go:127-135 | the `os.Stat` loop returns the error for the first missing episode or directory |
| Library.SeasonCheck | internal/epify/epify.go:109-138 | MkSeason's checks pass exactly when the season parses, the show directory exists, is a directory and has a show name, there are episodes, all are files, and all have the run |
| Library.PrepareSeason | internal/epify/epify.go:109-138 | the checks in the source's order, then the in-place sort; a failed check leaves the episodes untouched |
| Library.AdditionCheck | internal/epify/epify.go:165-200 | AddEpisodes' checks pass exactly when the season directory exists with a parsable "Season " name, its parent has a show name, and the episodes are non-empty files with the run |
| Library.PrepareAddition | internal/epify/epify.go:165-200 | the checks in the source's order, then the in-place sort; a failed check leaves the episodes untouched |
| Library.EpisodeRenameInjective | internal/epify/epify.go:145-146 | two renames into one directory share a target only when they give the same episode number |
| Library.EpisodeTargetsDistinct | internal/media/media.go:143-149 | no two renames of a batch share a target, so the concurrent renames cannot collide |
| Library.EpisodeTargetNumbered | internal/epify/epify.go:216-217 | a rename's target reads back as its episode number and keeps the episode's extension |
| Library.EpisodeTargetsNumbered | internal/media/media.go:214-220 | the j-th target of a batch reads back as episode offset + j + 1 and keeps its extension |
| Library.EpisodeRenames | internal/epify/epify.go:144-149 | one rename per episode, in order: action j renames episode j |
| Library.RenamesNumbered | internal/media/media.go:214-220 | rename j of a batch after episode prev moves episode j to a target that reads back as prev + j + 1 and keeps its extension, and no two targets coincide |
| Library.SeasonPlan | internal/epify/epify.go:139-149 | MkSeason's plan is the Mkdir of `Season %02d` in the show directory, followed by one rename per sorted episode into it |
| Library.SeasonPlanNumbers | internal/epify/epify.go:139-149 | after the Mkdir, action j moves sorted episode j - 1 to a target that reads back as episode j and keeps its extension, and no two targets coincide |
| Library.PreviousEpisode | internal/epify/epify.go:205-213 | 0 for an empty listing; otherwise it fails, naming the last name, exactly when that name has no `E(\d+)\.` match, and else it is that name's episode number |
| Library.AdditionPlan | internal/epify/epify.go:201-219 | succeeds exactly when the listing is readable and its previous episode is found; the renames continue after that number |
| Library.AdditionPlanNumbers | internal/epify/epify.go:214-219 | rename j moves sorted episode j to a target that reads back as the previous episode number plus j + 1 and keeps its extension, and no two targets coincide |
| Library.EpisodeNameOrder | internal/epify/epify.go:216 | for two-digit numbers, name order of one season's episode files follows episode order |
| Library.PreviousEpisodeIsLatest | internal/epify/epify.go:201-213 | for a name-ordered listing of one season's episode files with two-digit numbers, the previous episode number is the last file's number and no listed number is larger |
| Library.PreviousEpisodeWidthLimit | internal/epify/epify.go:201-213 | with episodes 99 and 100 listed, episode 100 sorts first and AddEpisodes continues from 99 |
| Library.PreviousEpisodeMissingE | internal/media/media_test.go:444-450 | a last name without 'E' (" S1001.mkv") makes AddEpisodes fail with that name |
| Library.PreviousEpisodeMissingPeriod | internal/media/media_test.go:453-459 | a last name without '.' after the number (" S10E01mkv") makes it fail |
| Library.PreviousEpisodeMalformed | internal/media/media_test.go:462-468 | a last name without digits after 'E' (" S10.01Emkv") makes it fail |
| Library.PreviousEpisodeInvalidNumber | internal/media/media_test.go:471-477 | a last name with a non-digit in the number (" S10E0A.mkv") makes it fail |
| Library.PreviousEpisodeNoMatch | internal/epify/epify.go:207-210 | a last name with no `E(\d+)\.` match makes the previous episode fail with that name |
| Execution.Sequential | internal/epify/epify.go:144-149 | renaming in order succeeds exactly when no action fails; otherwise the actions before the first failure take effect and its error is returned |
| Execution.Succeeding | internal/media/media.go:143-150 | under the fan-out, exactly the actions that do not fail take effect |
| Execution.SequentialVersusFanOut | internal/media/media.go:214-221 | the two packages' AddEpisodes agree on success; with no failure both perform the plan; the sequential run's actions are a prefix of the fan-out's |
| Execution.SequentialVersusFanOutAfterFirst | internal/media/media.go:140-150 | the same for MkSeason, whose Mkdir runs before the fan-out |
| Execution.FanOutSnoc | internal/media/media.go:215-220 | launching one more rename keeps the fan-out relation |
| Epify.RenameInOrder | internal/epify/epify.go:214-219 | the `epn++` loop performs the plan's renames, numbered from the previous episode, in order, stopping at the first failure |
| Epify.MkSeason | internal/epify/epify.go:108-151 | a failed check returns its error with nothing done and the episodes in place; otherwise the episodes are sorted and the season plan runs in order |
| Epify.AddEpisodes | internal/epify/epify.go:164-222 | a failed check, unreadable listing or bad previous episode returns its error with no rename; otherwise the addition plan runs in order |
| Media.RenameConcurrently | internal/media/media.go:214-221 | the errgroup loop attempts every rename `epn+i+1`; the outcome is one the fan-out allows |
| Media.MkSeason | internal/media/media.go:107-151 | as in epify, but the renames after the Mkdir are fanned out |
| Media.AddEpisodes | internal/media/media.go:164-222 | as in epify, but the addition plan is fanned out |
| Torrent.ShowEntry | internal/torrent/torrent.go:40-54 | None exactly when no listed directory's pre-" (" prefix occurs in the torrent name; otherwise the first that does |
| Torrent.FindShowDir | internal/torrent/torrent.go:40-54 | the show loop returns Join(dir, name) of that first match, or "" when there is none |
| Torrent.ShowDirNotEmpty | internal/torrent/torrent.go:55-57 | a matched show directory's path is never "", so the empty-path test means "no show" |
| Torrent.ChooseSeasonDir | internal/torrent/torrent.go:65-84 | the season loop returns the scan's error or its chosen directory |
| Torrent.SeasonScan | internal/torrent/torrent.go:65-84 | the kept number is at least 0 and is 0 exactly when no directory is kept; the only error is an invalid season |
| Torrent.ScanKeepsDirAboveZero | internal/torrent/torrent.go:65-87 | after a successful scan, no season directory is kept exactly when no season has a number above 0 |
| Torrent.SeasonScanFailurePersists | internal/torrent/torrent.go:76-79 | once a season number fails to parse, the loop returns that error whatever follows |
| Torrent.SeasonScanFailure | internal/torrent/torrent.go:67-79 | the scan fails exactly when some "Season " directory has a number that does not parse |
| Torrent.SeasonScanFirstBad | internal/torrent/torrent.go:67-79 | the error reported is that of the first such directory |
| Torrent.SeasonScanBound | internal/torrent/torrent.go:65-84 | the kept number is at least 0 and no season is larger; with nothing above 0 no directory is kept |
| Torrent.SeasonScanFirst | internal/torrent/torrent.go:80-83 | a kept number above 0 belongs to the first directory with that number, and it is that directory which is kept |
| Torrent.Destination | internal/torrent/torrent.go:26-87 | "no shows found" exactly when the torrent directory lists nothing; "no show directory" exactly when it lists something but no show matches; "no seasons found" exactly when the matched show directory lists nothing; "no season directory" exactly when the seasons parse but none is above 0; a destination is never "" |
| Torrent.DestinationSuccess | internal/torrent/torrent.go:26-87 | a destination is found exactly when the torrent directory is readable, a show matches, its directory lists seasons, every season number parses, and some season is above 0 |
| Torrent.DestinationIsLatestSeason | internal/torrent/torrent.go:26-87 | a destination lies in the first matching show directory and is its season directory with the largest number, which is above 0 |
| Torrent.SortedSingle | internal/torrent/torrent.go:88-91 | sorting the one torrent episode leaves it as it is |
| Torrent.Rename | internal/torrent/torrent.go:25-96 | the destination checks in order, then AddEpisodes' checks, plan and fan-out on the torrent's path as the only episode |
| Torrent.EmptySeasonFirstEpisode | internal/torrent/torrent.go:88-94 | a torrent added to an empty season directory becomes its episode 1 |
| Torrent.Season102Example | internal/torrent/torrent_test.go:96-105 | of the season directories "Season 101" and "Season 102", the scan picks "Season 102" as season 102, and into that empty directory an .avi torrent becomes "Knights of Sidonia S102E01.avi" |

## Left out

- The filesystem is an input, not a state. `os.Stat` and `os.ReadDir` are
  read from a `FileSystem` value, and the actions the OS refuses form the
  set `fails`. The model returns the actions that take effect and does not
  apply them. Error wrapping (`%w`) and the text of error messages become
  constructors of `Error`.
- Execution: `fails` is one fixed set, so each action succeeds or fails
  independently of the others and of their order. An action whose outcome
  depends on an earlier one (a duplicated episode path, or a source that is
  another rename's target) is not captured. The agreement on success in
  Execution.SequentialVersusFanOut rests on this.
- Paths.Join, Paths.Dir: `filepath.Clean` (collapsing "//", "." and "..") is
  not modelled. Join is plain concatenation around a single '/'.
- Text.Atoi: integers are unbounded, so `strconv.Atoi`'s range error and
  clamping are not modelled. The same goes for the discarded Atoi errors at
  internal/epify/epify.go:212 and :238-239, which only overflow can raise
  there.
- Execution.FanOut: the errgroup's scheduling is not modelled, and neither is
  which failure `g.Wait` returns; the relation allows any of them.
  Media.RenameConcurrently reports the first failure by position, which is
  one of the allowed outcomes.
- Media.RenameConcurrently: each goroutine is assumed to capture its own `i`
  and `e`, which holds from Go 1.22 on. go.mod is not part of this model.
- Sorting.SortBy: `slices.SortFunc` is not stable. Only what it promises is
  modelled: the result is ordered by key and is a permutation. An insertion
  sort stands in for the library's algorithm.
- Library.PreviousEpisodeIsLatest: proved only for listings whose episode
  numbers all have two digits. The last-entry rule is wrong past 99, as
  Library.PreviousEpisodeWidthLimit shows.
- MkSeason's "invalid directory %q" (internal/epify/epify.go:122) is
  `InvalidShowDirectory`, like AddEpisodes' "invalid show directory".
  AddEpisodes' "invalid episode %q" (:210) is `InvalidPreviousEpisode`.
- MkShow, AddMovie and sortEpisodes appear in both packages. They are
  modelled once, in Library and Sorting; the copies differ only in their
  parameter types (`*Media` against `Show`, `*Movie` against `Movie`).
- Torrent.Rename: torrent.go passes `&a` to `media.AddEpisodes`, which takes
  an `Addition` value (internal/torrent/torrent.go:92). The model makes the
  call that is evidently meant.
- Torrent.Season102Example: starts from the show directory the test
  creates. The show match and the show name read from that directory are
  not derived in the example.
- Torrent.Rename: torrent_test.go creates the show directories under
  `DstDir`, but Rename lists `t.Dir`. The model follows Rename as written.
  `File.dstDir` is carried but never read.
- Command-line programs are not part of this model: main.go, epify/main.go,
  and trdone/main.go (which repeats torrent.go's two loops). Neither is the
  test helper internal/test/test.go.
- Strings are sequences of `char`. Go compares strings byte by byte, and on
  UTF-8 text that agrees with comparing code points. Invalid UTF-8 is not
  modelled.
- Directory permissions (0o755) are not modelled.

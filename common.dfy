/** Types shared by every package of the model: results, errors, the view of
    the filesystem that the operations consult, and the filesystem actions
    they would perform. */
module Common {

  datatype Option<T> = None | Some(value: T)

  datatype Result<T> = Success(value: T) | Failure(error: Error)

  /** Every error the modelled Go functions return. Errors that wrap a
      strconv.Atoi failure keep the text that failed to parse. */
  datatype Error =
    | EmptyShowName                        // "empty show name"
    | EmptyMovieName                       // "empty movie name"
    | InvalidYear(year: string)            // "invalid year: ..."
    | InvalidTvdbId(id: string)            // "invalid TVDBID: ..."
    | InvalidTmdbId(id: string)            // "invalid TMDBID: ..."
    | InvalidSeason(text: string)          // "invalid season: ..."
    | InvalidDirectory(path: string)       // os.Stat of a directory argument failed
    | NotADirectory(path: string)          // "%q is not a directory"
    | IsADirectory(path: string)           // "%q is a directory"
    | InvalidMovie(path: string)           // os.Stat of the movie file failed
    | InvalidEpisode(path: string)         // os.Stat of an episode failed
    | MissingSeasonDirectory(path: string) // os.Stat of the season directory failed
    | InvalidSeasonDirectory(path: string) // base name lacks the "Season " prefix
    | InvalidShowDirectory(path: string)   // base name lacks the " (" separator
    | NoEpisodes                           // errNoEpisodes
    | MissingNumber(episode: string)       // "episode %q must contain number"
    | InvalidMatchIndex(index: int)        // "invalid match index %d"
    | ReadDirFailed(path: string)          // os.ReadDir failed
    | InvalidPreviousEpisode(name: string) // last entry has no `E(\d+)\.`
    | NoShows                              // "no shows found"
    | NoShowDirectory(torrent: string)     // "no show directory for %q"
    | NoSeasons                            // "no seasons found"
    | NoSeasonDirectory(showDir: string)   // "no season directory in %q"
    | ActionFailed(action: Action)         // os.Mkdir / os.Rename failed

  /** One entry of a directory listing, as os.ReadDir reports it. */
  datatype Entry = Entry(name: string, isDir: bool)

  /** What the operations can observe of the filesystem: `info` answers
      os.Stat (present = the path exists, value = it is a directory) and
      `listing` answers os.ReadDir (absent = reading the directory fails). */
  datatype FileSystem = FileSystem(info: map<string, bool>, listing: map<string, seq<Entry>>)

  /** A filesystem change an operation performs once its checks pass. */
  datatype Action =
    | MkdirAll(path: string)
    | Mkdir(path: string)
    | Rename(src: string, dst: string)

  /** The position of the first element of `s` that is not `ok`, or |s|
      when every element is. */
  function FirstNot<T>(s: seq<T>, ok: T -> bool): (k: nat)
    ensures k <= |s|
    ensures forall j :: 0 <= j < k ==> ok(s[j])
    ensures k < |s| ==> !ok(s[k])
  {
    if s == [] || !ok(s[0]) then 0
    else 1 + FirstNot(s[1..], ok)
  }

  /** The first element that is not `ok` is the one the contract of
      FirstNot describes. */
  lemma FirstNotIs<T>(s: seq<T>, ok: T -> bool, k: nat)
    requires k < |s| && !ok(s[k])
    requires forall j :: 0 <= j < k ==> ok(s[j])
    ensures FirstNot(s, ok) == k
  {
  }
}

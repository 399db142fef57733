/** The download loop `download_logos` of unduhlogo.py: for every league
    page, for every team page, derive the target path, skip it when a file
    is already there, otherwise fetch the logo and write it; a failure on a
    team skips that team, a failure on a league skips that league.

    The browser and the network are inputs: a league page is either failed
    or the list of its team pages, a team page is either failed or the
    logo's `alt` and `src` attributes together with what fetching `src`
    would return. The output folder is a map from path to file contents. */
module Downloader {
  import opened Sanitizer
  import opened LogoPath

  newtype byte = x: int | 0 <= x < 256

  type Bytes = seq<byte>

  datatype Option<T> = None | Some(value: T)

  /** `requests.get(logo_url)` followed by `raise_for_status()`. */
  datatype Fetch = FetchFailed | Fetched(body: Bytes)

  /** Visiting one team page: it fails (navigation, the wait for the logo
      element), or yields the logo element's `alt` and `src` attributes
      (either may be missing) and the outcome of fetching `src`. */
  datatype TeamPage =
    | TeamPageFailed
    | TeamPageLoaded(alt: Option<string>, src: Option<string>, fetch: Fetch)

  /** Visiting one league page: it fails, or yields its team pages in order. */
  datatype LeaguePage = LeaguePageFailed | LeaguePageLoaded(teams: seq<TeamPage>)

  /** The output folder: file contents by path. */
  type Store = map<string, Bytes>

  /** What the loop reports for one team. */
  datatype Outcome = Skipped | Downloaded | Failed

  /** How a team's logo path is derived from its `alt` and `src`. */
  type PathOf = (string, string) -> string

  /** The derivation `download_logos` uses: `os.path.join(output_folder,
      sanitize_name(alt) + extension)`. */
  function LogoPathOf(t: CharTable, folder: string): PathOf {
    (alt, src) => TargetPath(t, folder, alt, src)
  }

  /** The path a team's logo goes to, or `None` when the team fails before
      a path exists (the page failed, or `alt` or `src` is missing, which
      makes `sanitize_name` or `splitext` raise). */
  function Target(pathOf: PathOf, page: TeamPage): Option<string> {
    match page
    case TeamPageFailed => None
    case TeamPageLoaded(alt, src, _) =>
      if alt.None? || src.None? then None
      else Some(pathOf(alt.value, src.value))
  }

  /** How one team ends, given the folder's contents before it. */
  function TeamOutcome(pathOf: PathOf, store: Store, page: TeamPage): Outcome {
    match Target(pathOf, page)
    case None => Failed
    case Some(p) =>
      if p in store then Skipped
      else if page.fetch.FetchFailed? then Failed
      else Downloaded
  }

  /** The folder after one team: a new file only when the team is downloaded. */
  function TeamStep(pathOf: PathOf, store: Store, page: TeamPage): Store {
    if TeamOutcome(pathOf, store, page) == Downloaded then
      store[Target(pathOf, page).value := page.fetch.body]
    else
      store
  }

  /** `r` keeps every file of `s`, with the same contents. */
  ghost predicate Extends(s: Store, r: Store) {
    forall q :: q in s ==> q in r && r[q] == s[q]
  }

  /** The team loop of one league, in order. */
  function RunTeams(pathOf: PathOf, store: Store, pages: seq<TeamPage>): (r: Store)
    ensures Extends(store, r)
    decreases |pages|
  {
    if pages == [] then store
    else TeamStep(pathOf, RunTeams(pathOf, store, pages[..|pages| - 1]), pages[|pages| - 1])
  }

  /** One league: a failed league page changes nothing. */
  function LeagueStep(pathOf: PathOf, store: Store, league: LeaguePage): (r: Store)
    ensures Extends(store, r)
    ensures league.LeaguePageFailed? ==> r == store
  {
    match league
    case LeaguePageFailed => store
    case LeaguePageLoaded(teams) => RunTeams(pathOf, store, teams)
  }

  /** The league loop, in order. */
  function RunLeagues(pathOf: PathOf, store: Store, leagues: seq<LeaguePage>): (r: Store)
    ensures Extends(store, r)
    decreases |leagues|
  {
    if leagues == [] then store
    else LeagueStep(pathOf, RunLeagues(pathOf, store, leagues[..|leagues| - 1]), leagues[|leagues| - 1])
  }

  /** The team pages of the leagues that loaded, in visiting order. */
  function AllTeams(leagues: seq<LeaguePage>): seq<TeamPage>
    decreases |leagues|
  {
    if leagues == [] then []
    else
      var last := leagues[|leagues| - 1];
      AllTeams(leagues[..|leagues| - 1]) + (if last.LeaguePageLoaded? then last.teams else [])
  }

  /** One team adds at most the one file at its own path, and only when
      that path was free and the fetch succeeded; every other outcome
      leaves the folder as it was. */
  lemma TeamStepCases(pathOf: PathOf, store: Store, page: TeamPage)
    ensures var r := TeamStep(pathOf, store, page);
      && (r == store <==> TeamOutcome(pathOf, store, page) != Downloaded)
      && (TeamOutcome(pathOf, store, page) == Downloaded ==>
            && page.TeamPageLoaded? && page.fetch.Fetched?
            && Target(pathOf, page).Some?
            && Target(pathOf, page).value !in store
            && r == store[Target(pathOf, page).value := page.fetch.body])
  {
    if TeamOutcome(pathOf, store, page) == Downloaded {
      var p := Target(pathOf, page).value;
      assert p in TeamStep(pathOf, store, page) && p !in store;
    }
  }

  /** When a file already sits at the team's path, the fetch is never
      consulted: whatever it would return, the folder is unchanged. */
  lemma SkipIgnoresFetch(pathOf: PathOf, store: Store, page: TeamPage, other: Fetch)
    requires page.TeamPageLoaded?
    requires Target(pathOf, page).Some? && Target(pathOf, page).value in store
    ensures TeamOutcome(pathOf, store, page) == Skipped
    ensures TeamStep(pathOf, store, page) == TeamStep(pathOf, store, page.(fetch := other)) == store
  {
    assert Target(pathOf, page.(fetch := other)) == Target(pathOf, page);
  }

  /** The team loop over two stretches of pages is the loop over the
      second, started where the first ended. */
  lemma {:induction false} RunTeamsAppend(pathOf: PathOf, store: Store, a: seq<TeamPage>, b: seq<TeamPage>)
    ensures RunTeams(pathOf, store, a + b) == RunTeams(pathOf, RunTeams(pathOf, store, a), b)
    decreases |b|
  {
    if b == [] {
      assert a + b == a;
    } else {
      var b' := b[..|b| - 1];
      assert (a + b)[..|a + b| - 1] == a + b';
      assert (a + b)[|a + b| - 1] == b[|b| - 1];
      RunTeamsAppend(pathOf, store, a, b');
    }
  }

  /** Running the leagues is running all their loaded team pages in one
      sequence: league boundaries and failed leagues leave no trace. */
  lemma {:induction false} RunLeaguesIsRunTeams(pathOf: PathOf, store: Store, leagues: seq<LeaguePage>)
    ensures RunLeagues(pathOf, store, leagues) == RunTeams(pathOf, store, AllTeams(leagues))
    decreases |leagues|
  {
    if leagues != [] {
      var init := leagues[..|leagues| - 1];
      var last := leagues[|leagues| - 1];
      RunLeaguesIsRunTeams(pathOf, store, init);
      RunTeamsAppend(pathOf, store, AllTeams(init), if last.LeaguePageLoaded? then last.teams else []);
    }
  }

  /** Team `page` stores a file at `q` when visited with `q` still free. */
  predicate Saves(pathOf: PathOf, page: TeamPage, q: string) {
    Target(pathOf, page) == Some(q) && page.TeamPageLoaded? && page.fetch.Fetched?
  }

  /** No team before index `i` saves to `q`. */
  predicate NoneSavesBefore(pathOf: PathOf, pages: seq<TeamPage>, q: string, i: int)
    requires 0 <= i <= |pages|
  {
    forall j :: 0 <= j < i ==> !Saves(pathOf, pages[j], q)
  }

  /** For a path not in the folder at the start, the loop creates it
      exactly when some team saves to it. */
  lemma {:induction false} RunTeamsNewFile(pathOf: PathOf, store: Store, pages: seq<TeamPage>, q: string)
    requires q !in store
    ensures q in RunTeams(pathOf, store, pages) <==> exists i :: 0 <= i < |pages| && Saves(pathOf, pages[i], q)
    decreases |pages|
  {
    if pages != [] {
      var n := |pages| - 1;
      var init := pages[..n];
      var s := RunTeams(pathOf, store, init);
      RunTeamsNewFile(pathOf, store, init, q);
      TeamStepCases(pathOf, s, pages[n]);
      if q in s {
        var k :| 0 <= k < n && Saves(pathOf, init[k], q);
        assert init[k] == pages[k];
      } else if !Saves(pathOf, pages[n], q) {
        forall i | 0 <= i < n
          ensures !Saves(pathOf, pages[i], q)
        {
          assert init[i] == pages[i];
        }
      }
    }
  }

  /** The contents of a file the loop creates come from the first team that
      saves to its path; later teams with that path are skipped. */
  lemma {:induction false} RunTeamsFirstSaver(pathOf: PathOf, store: Store, pages: seq<TeamPage>, q: string, i: int)
    requires q !in store
    requires 0 <= i < |pages| && Saves(pathOf, pages[i], q) && NoneSavesBefore(pathOf, pages, q, i)
    ensures q in RunTeams(pathOf, store, pages)
    ensures RunTeams(pathOf, store, pages)[q] == pages[i].fetch.body
    decreases |pages|
  {
    var n := |pages| - 1;
    var init := pages[..n];
    var s := RunTeams(pathOf, store, init);
    TeamStepCases(pathOf, s, pages[n]);
    if i < n {
      assert init[i] == pages[i];
      assert NoneSavesBefore(pathOf, init, q, i);
      RunTeamsFirstSaver(pathOf, store, init, q, i);
    } else {
      forall k | 0 <= k < n
        ensures !Saves(pathOf, init[k], q)
      {
        assert init[k] == pages[k];
      }
      RunTeamsNewFile(pathOf, store, init, q);
      assert q !in s;
    }
  }

  /** Nothing is ever overwritten: every file in the folder before the run
      is there afterwards with the same contents. */
  lemma NeverOverwrites(pathOf: PathOf, store: Store, leagues: seq<LeaguePage>)
    ensures forall q :: q in store ==>
      (q in RunLeagues(pathOf, store, leagues) && RunLeagues(pathOf, store, leagues)[q] == store[q])
  {
    assert Extends(store, RunLeagues(pathOf, store, leagues));
  }

  /** Two teams with the same file name: the first one's logo is kept and
      the second is skipped. */
  lemma DuplicateKeepsFirst(pathOf: PathOf, store: Store, a: TeamPage, b: TeamPage, q: string)
    requires q !in store && Saves(pathOf, a, q) && Target(pathOf, b) == Some(q)
    ensures TeamOutcome(pathOf, TeamStep(pathOf, store, a), b) == Skipped
    ensures q in RunTeams(pathOf, store, [a, b]) && RunTeams(pathOf, store, [a, b])[q] == a.fetch.body
  {
    var s1 := TeamStep(pathOf, store, a);
    assert [a][..0] == [];
    assert RunTeams(pathOf, store, [a]) == s1;
    assert [a, b][..1] == [a];
    assert RunTeams(pathOf, store, [a, b]) == TeamStep(pathOf, s1, b);
  }

  /** A second run finds "Logos/manchester-utd.png" in place and leaves
      it alone, whatever the crest URL would now return. */
  lemma ExistingLogoSkipped(store: Store, fetch: Fetch)
    requires "Logos/manchester-utd.png" in store
    ensures var page := TeamPageLoaded(Some("Manchester Utd"), Some("i/crest.png"), fetch);
      && TeamOutcome(LogoPathOf(Latin1, "Logos"), store, page) == Skipped
      && TeamStep(LogoPathOf(Latin1, "Logos"), store, page) == store
  {
    TargetManchesterUtd();
  }

  /** The output folder, updated in place. */
  class FileStore {
    var files: Store

    constructor(initial: Store)
      ensures files == initial
    {
      files := initial;
    }

    /** `os.path.exists(path)`. */
    method Exists(path: string) returns (b: bool)
      ensures b <==> path in files
    {
      b := path in files;
    }

    /** `open(path, 'wb').write(data)`: the file at `path` holds `data`. */
    method Write(path: string, data: Bytes)
      modifies this
      ensures files == old(files)[path := data]
    {
      files := files[path := data];
    }
  }

  /** The body of the team loop. */
  method ProcessTeam(t: CharTable, fs: FileStore, folder: string, page: TeamPage) returns (outcome: Outcome)
    modifies fs
    ensures outcome == TeamOutcome(LogoPathOf(t, folder), old(fs.files), page)
    ensures fs.files == TeamStep(LogoPathOf(t, folder), old(fs.files), page)
  {
    if page.TeamPageFailed? || page.alt.None? || page.src.None? {
      return Failed;
    }
    var path := TargetPath(t, folder, page.alt.value, page.src.value);
    var present := fs.Exists(path);
    if present {
      return Skipped;
    }
    match page.fetch
    case FetchFailed =>
      return Failed;
    case Fetched(body) =>
      fs.Write(path, body);
      return Downloaded;
  }

  /** `download_logos`: nothing happens when the browser does not start;
      otherwise every league is visited in order, and every team of a
      league that loaded. */
  method DownloadLogos(t: CharTable, fs: FileStore, browserStarts: bool, folder: string, leagues: seq<LeaguePage>)
    modifies fs
    ensures fs.files == if browserStarts then RunLeagues(LogoPathOf(t, folder), old(fs.files), leagues) else old(fs.files)
  {
    if !browserStarts {
      return;
    }
    var i := 0;
    while i < |leagues|
      invariant 0 <= i <= |leagues|
      invariant fs.files == RunLeagues(LogoPathOf(t, folder), old(fs.files), leagues[..i])
    {
      assert leagues[..i + 1][..i] == leagues[..i];
      match leagues[i] {
        case LeaguePageFailed =>
        case LeaguePageLoaded(teams) =>
          var start := fs.files;
          var j := 0;
          while j < |teams|
            invariant 0 <= j <= |teams|
            invariant fs.files == RunTeams(LogoPathOf(t, folder), start, teams[..j])
          {
            assert teams[..j + 1][..j] == teams[..j];
            var _ := ProcessTeam(t, fs, folder, teams[j]);
            j := j + 1;
          }
          assert teams[..j] == teams;
      }
      i := i + 1;
    }
    assert leagues[..i] == leagues;
  }
}

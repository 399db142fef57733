# Team logo downloader — a Dafny model

`unduhlogo.py` collects football club crests. It opens each league standings
page in a headless browser and visits every team page. From the logo image it
reads two attributes: `alt`, the team name, and `src`, the image URL. It
derives a file name and downloads the image into one output folder (`Logos` by
default), unless a file with that name is already there.

The project models the script's three parts:

- **`Sanitizer`** (`sanitizer.dfy`): `sanitize_name`. It keeps letters,
  digits and whitespace, then `strip()`, then replaces every space with a
  hyphen, then `lower()`.
  - Python's character classes and lower-casing are a parameter, `CharTable`.
    Its `Valid()` predicate lists the few Unicode facts the proofs rely on.
  - `Latin1` is a concrete table: Python's classification on
    U+0000..U+00FF.
- **`LogoPath`** (`logo_path.dfy`): the file extension, the file name and the
  path.
  - The extension is POSIX `os.path.splitext` of the logo URL, with `.png`
    when that is empty.
  - The file name is `slug + extension`; the path is
    `posixpath.join(output_folder, file_name)`.
  - `splitext` is specified twice: as Python computes it (`SplitExt`, using
    `rfind`) and as a direct description (`IsExtOf`). A lemma proves the two
    agree.
- **`Downloader`** (`downloader.dfy`): the league and team loops of
  `download_logos`, in two layers.
  - The specification layer is a set of functions over a `path ↦ bytes` map:
    one team (`TeamStep`), one league (`RunTeams`) and the whole run
    (`RunLeagues`).
  - The imperative layer is a `FileStore` class that holds the folder's
    contents. `ProcessTeam` and `DownloadLogos` update it in place, and each
    method's postcondition ties the new contents to the specification
    functions.
  - The browser and the network are inputs:
    - a league page either failed or is the list of its team pages;
    - a team page either failed or gives `alt`, `src` (either may be
      missing) and what fetching `src` returns.
  - The specification functions take the path derivation as a parameter
    (`PathOf`), so the lemmas about the folder hold for any naming rule.
    The methods use `LogoPathOf`, which is `LogoPath.TargetPath`.

Three behaviours of the code worth noting:

- `sanitize_name` is not idempotent. A hyphen written for a space on the first
  pass is punctuation on the second, so "a b" → "a-b" → "ab"
  (`Sanitizer.SanitizeNotIdempotent`).
- Non-ASCII letters are kept, because `str.isalpha` accepts them. "FC Bayern
  München" therefore becomes "fc-bayern-münchen", not "fc-bayern-mnchen"
  (`Sanitizer.SanitizeBayern`).
- The extension is taken from the whole URL, not only from its path. A query
  string stays in the extension ("i/crest.png?v=2" → ".png?v=2"). A URL whose
  last component starts with its only dot gets ".png".

## Model

| member | source | states |
|---|---|---|
| `Sanitizer.Latin1Valid` | unduhlogo.py:18 | The Latin-1 table satisfies every character fact the proofs assume: space is whitespace; `-` and `/` are neither letters, digits nor whitespace; lower-casing never yields nothing and never introduces a space, hyphen or slash. |
| `Sanitizer.Clean` | unduhlogo.py:18 | The comprehension's result is no longer than the name, and every character in it is a letter, digit or whitespace. |
| `Sanitizer.CleanMembers` | unduhlogo.py:18 | A character occurs in the cleaned name exactly when it occurs in the name and is a letter, digit or whitespace. |
| `Sanitizer.SkipSpaces` | unduhlogo.py:18 | The `lstrip` scan stops at the first non-whitespace character, with only whitespace before it. |
| `Sanitizer.SkipSpacesBack` | unduhlogo.py:18 | The `rstrip` scan stops after the last non-whitespace character, with only whitespace after it. |
| `Sanitizer.StripIsTrim` | unduhlogo.py:18 | `strip()` returns a contiguous slice of its input, with only whitespace outside the slice and no whitespace at either end of it. |
| `Sanitizer.StripTrimmed` | unduhlogo.py:18 | A string with no whitespace at either end is unchanged by `strip()`. |
| `Sanitizer.StripMember` | unduhlogo.py:18 | `strip()` introduces no character that was not in its input. |
| `Sanitizer.ReplaceSpaces` | unduhlogo.py:21 | `replace(' ', '-')` keeps the length. At every position a space becomes a hyphen and any other character is kept. |
| `Sanitizer.ReplaceSpacesMember` | unduhlogo.py:21 | After `replace(' ', '-')` every character is a hyphen or a non-space character of the input. |
| `Sanitizer.Lower` | unduhlogo.py:21 | Every character of `lower()`'s result comes from lower-casing some character of its input. |
| `Sanitizer.LowerAppend` | unduhlogo.py:21 | `lower()` of a concatenation is the concatenation of the two `lower()` results. |
| `Sanitizer.LowerEnds` | unduhlogo.py:21 | For a non-empty input, `lower()` starts with the lower-casing of the first character and ends with that of the last. |
| `Sanitizer.LowerHyphenCount` | unduhlogo.py:21 | `lower()` keeps the number of hyphens. |
| `Sanitizer.ReplaceSpacesHyphenCount` | unduhlogo.py:21 | After `replace(' ', '-')` the hyphen count is the old hyphen count plus the space count. |
| `Sanitizer.ReplacedMember` | unduhlogo.py:18-21 | Before `lower()`, every character is a hyphen or a kept, non-space character of the name. |
| `Sanitizer.SlugCharSource` | unduhlogo.py:18-21 | One slug character is never a space or a slash, and is a hyphen or the lower-casing of a kept, non-space character of the name. |
| `Sanitizer.SanitizeAlphabet` | unduhlogo.py:11-21 | The slug's alphabet, for every character: no space and no slash; each character is a hyphen or comes from lower-casing a letter, digit or non-space whitespace character of the name, so other punctuation never survives. That the slug's hyphens are exactly the replaced spaces, and no hyphen of the input survives, is `Sanitizer.SanitizeHyphenCount`. |
| `Sanitizer.SlugHasNoSlash` | unduhlogo.py:11-21 | No position of the slug holds a slash, so the slug cannot escape the output folder. |
| `Sanitizer.SanitizeEnds` | unduhlogo.py:18-21 | A non-empty slug neither starts nor ends with a hyphen or with whitespace. |
| `Sanitizer.SanitizeHyphenCount` | unduhlogo.py:18-21 | The slug has exactly as many hyphens as the cleaned, stripped name has spaces; runs of spaces are not collapsed. |
| `Sanitizer.SlugNonEmpty` | unduhlogo.py:11-21 | A letter or digit anywhere in the name leaves a non-empty slug. |
| `Sanitizer.SlugEmpty` | unduhlogo.py:11-21 | A name without letters and digits gives the empty slug. |
| `Sanitizer.SanitizeEmptyIff` | unduhlogo.py:11-21 | The slug is empty exactly when the name contains no letter and no digit (both directions). |
| `Sanitizer.CleanAllKept` | unduhlogo.py:18 | A name made only of letters, digits and whitespace comes through the comprehension unchanged. |
| `Sanitizer.LowerSingles` | unduhlogo.py:21 | When every character lower-cases to one character, `lower()` keeps the length and works position by position. |
| `Sanitizer.SanitizeCleanName` | unduhlogo.py:11-21 | For a name of kept characters with no whitespace at its ends, and with one-character lower-casing, the slug is the name with each space turned into a hyphen and each other character lower-cased, position by position. |
| `Sanitizer.ManchesterUtdChars` | unduhlogo.py:15 | The doc-string example, character by character: "Manchester Utd" gives m,a,n,c,h,e,s,t,e,r,-,u,t,d. |
| `Sanitizer.SanitizeManchesterUtd` | unduhlogo.py:15 | The doc-string example: "Manchester Utd" → "manchester-utd". |
| `Sanitizer.SanitizeSpaceToHyphen` | unduhlogo.py:21 | "a b" → "a-b". |
| `Sanitizer.SanitizeDropsHyphen` | unduhlogo.py:18 | "a-b" → "ab": a hyphen in the input is punctuation and is dropped. |
| `Sanitizer.SanitizeNotIdempotent` | unduhlogo.py:11-21 | Sanitizing "a b" twice gives "ab", which differs from sanitizing it once ("a-b"). |
| `Sanitizer.BayernChars` | unduhlogo.py:18-21 | "FC Bayern München", character by character: the umlaut is a letter, is kept, and is already lower-case. |
| `Sanitizer.SanitizeBayern` | unduhlogo.py:11-21 | "FC Bayern München" → "fc-bayern-münchen". |
| `LogoPath.RFindBefore` | unduhlogo.py:76 | The `rfind` scan returns the last index below the bound that holds the character, or -1 when there is none. |
| `LogoPath.SplitExt` | unduhlogo.py:76 | `splitext` splits its argument: root + ext is the URL itself. |
| `LogoPath.SplitExtSound` | unduhlogo.py:76 | A non-empty `splitext` extension is a real extension: a suffix starting with its only dot, with no slash, and preceded in the same path component by a non-dot character. |
| `LogoPath.SplitExtComplete` | unduhlogo.py:76 | Any suffix with those properties is exactly the extension `splitext` returns. |
| `LogoPath.SplitExtIsExt` | unduhlogo.py:76 | `splitext`'s extension and the direct description agree in both directions, so a URL has at most one extension. |
| `LogoPath.ExtensionShape` | unduhlogo.py:76 | The extension starts with a dot and holds no slash. It is the URL's own extension when there is one, and `.png` only when there is none. |
| `LogoPath.ExtensionKeepsQuery` | unduhlogo.py:76 | "i/crest.png?v=2" → ".png?v=2": the query string stays in the extension. |
| `LogoPath.ExtensionFallback` | unduhlogo.py:76 | "i/crest" (no dot) → ".png". |
| `LogoPath.ExtensionHiddenFile` | unduhlogo.py:76 | "i/.svg" (dot-file name) → ".png". |
| `LogoPath.ExtensionPng` | unduhlogo.py:76 | "i/crest.png" → ".png". |
| `LogoPath.ExtensionSvg` | unduhlogo.py:76 | "i/crest.svg" → ".svg". |
| `LogoPath.DirPrefix` | unduhlogo.py:78 | What `join` puts before a relative name is the folder itself exactly when the folder is empty or already ends in a slash, and the folder followed by one slash otherwise. |
| `LogoPath.NameShape` | unduhlogo.py:77 | A slash-free slug followed by an extension is a non-empty, slash-free name whose extension starts right after the slug. |
| `LogoPath.FileNameShape` | unduhlogo.py:74-77 | The file name is never empty, never contains a slash, and has the extension's dot right after the slug. |
| `LogoPath.JoinName` | unduhlogo.py:78 | `join(folder, name)` for a slash-free name is the folder prefix followed by the name. Its last slash is the separator before the name. |
| `LogoPath.JoinInjective` | unduhlogo.py:78 | Within one folder, two slash-free names give the same path exactly when they are the same name. |
| `LogoPath.TargetInFolder` | unduhlogo.py:74-78 | Every logo path is the folder, a separator, then the file name, with no slash after the separator, so the path names an entry of the output folder itself (for the file name `.`, that entry is the folder; see Left out). |
| `LogoPath.TargetInjective` | unduhlogo.py:74-78 | Two teams share a path exactly when they share a file name, so deduplication is by slug and extension. |
| `LogoPath.JoinWithSlash` | unduhlogo.py:78 | A folder that does not end in a slash gets one before a relative name. |
| `LogoPath.TargetManchesterUtd` | unduhlogo.py:74-78 | "Manchester Utd" with crest "i/crest.png" in `Logos` → "Logos/manchester-utd.png". |
| `Downloader.TeamStepCases` | unduhlogo.py:62-95 | A team changes the folder exactly when it is downloaded. A download happens only for a loaded page whose path was free and whose fetch succeeded, and it adds exactly path ↦ body. |
| `Downloader.SkipIgnoresFetch` | unduhlogo.py:81-83 | When the path is already taken the team is skipped, and the result does not depend on the fetch: no download happens. |
| `Downloader.RunTeams` | unduhlogo.py:62-95 | The team loop keeps every file that was there before, with the same contents. |
| `Downloader.LeagueStep` | unduhlogo.py:50-98 | A league keeps every existing file with its contents, and a failed league page leaves the folder unchanged. |
| `Downloader.RunLeagues` | unduhlogo.py:49-98 | The whole run keeps every existing file with the same contents. |
| `Downloader.RunTeamsAppend` | unduhlogo.py:62-95 | Running the team loop over two stretches of pages is running the second stretch from where the first ended. |
| `Downloader.RunLeaguesIsRunTeams` | unduhlogo.py:49-98 | The run over leagues equals one team loop over the teams of the leagues that loaded, in order. League boundaries and failed leagues leave no trace. |
| `Downloader.RunTeamsNewFile` | unduhlogo.py:62-95 | A path that was not there before exists afterwards exactly when some team both targets it and fetches successfully. |
| `Downloader.RunTeamsFirstSaver` | unduhlogo.py:81-90 | A new file holds the body fetched by the first team that saves to its path; later teams with the same path are skipped. |
| `Downloader.NeverOverwrites` | unduhlogo.py:81-90 | Nothing is ever overwritten: every file present before the run is present afterwards with the same contents. |
| `Downloader.DuplicateKeepsFirst` | unduhlogo.py:81-90 | Two teams with the same path, the first downloaded: the second is skipped and the file keeps the first team's logo. |
| `Downloader.ExistingLogoSkipped` | unduhlogo.py:74-83 | With "Logos/manchester-utd.png" present, "Manchester Utd" is skipped and the folder is unchanged, whatever the fetch would return. |
| `Downloader.FileStore.constructor` | unduhlogo.py:42 | The store starts with the given folder contents. |
| `Downloader.FileStore.Exists` | unduhlogo.py:81 | `os.path.exists` is true exactly when a file is stored at the path. |
| `Downloader.FileStore.Write` | unduhlogo.py:89-90 | Writing stores the data at the path and changes nothing else. |
| `Downloader.ProcessTeam` | unduhlogo.py:63-95 | One iteration of the team loop reports the outcome `TeamOutcome` gives (skipped, downloaded or failed) and leaves the folder as `TeamStep` gives. |
| `Downloader.DownloadLogos` | unduhlogo.py:34-98 | If the browser does not start, the folder is unchanged. Otherwise the folder ends as `RunLeagues` gives: all leagues in order, every team of each loaded league in order. |

## Left out

- Selenium is not modelled: starting the browser, navigating, waiting for
  elements and reading attributes. Each page visit is an input that has
  either failed or yields its data; `browserStarts` says whether the browser
  came up. The 20-second wait is part of "failed".
- `requests.get` and `raise_for_status` are not modelled. A fetch is an
  input that either failed or yields the response body.
- `urljoin` of team links onto the site's base URL is not modelled: a team
  page is given directly as its visit outcome.
- `os.makedirs`, and directories in general, are not modelled. The folder is
  a flat map from path to contents; `os.path.exists` on a directory is not
  distinguished.
- One consequence: a name without letters or digits gives the empty slug,
  and a logo URL ending in `.` gives the extension `.`. The file name is then
  `.` and the path (`Logos/.`) is the output folder itself. The script sees it
  as existing and skips the team; the model stores a file under that path.
- Failing writes and partial files are not modelled: `open(..., 'wb').write`
  always stores the whole body.
- Console output (`print`), `driver.quit()` and the URL list of the
  `__main__` block are not modelled.
- Unicode is only partly modelled. The proofs hold for any character table
  that meets `CharTable.Valid()`, and the concrete table covers U+0000..U+00FF.
  Python's context-dependent lower-casing (the final sigma) is not a
  per-character map and is not modelled.
- `ntpath` (Windows path rules) is not modelled: `splitext` and `join` follow
  `posixpath`.
- `Sanitizer.Lower`: states where each output character comes from, not the
  exact per-character expansion order. That order is pinned by
  `Sanitizer.LowerAppend` and `Sanitizer.LowerSingles`.

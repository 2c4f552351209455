# up-npm core, modelled in Dafny

up-npm is a command-line tool that reads the dependencies of a
`package.json`, asks the npm registry for each package's latest version,
classifies every step from the declared version to the latest one (major,
minor or patch; upgrade or downgrade), lets the user pick the updates and
writes the chosen ranges back. This project models the pure logic behind
that loop and proves what it promises:

- **Version classifier** (`Version`, `VersionExamples`, `VersionSummary`).
  - `GetCleanVersion` splits a declared range such as `^1.2.3-alpha` into
    its operator and its `a.b.c`. It is modelled as Go's leftmost-first
    regular expression runs it.
  - `GetVersionComponents` reads the leftmost `a.b.c` as three integers,
    with `strconv.Atoi` modelled digit by digit.
  - `GetVersionUpdateType` compares the two versions part by part.
  - `CountVersionTypes` and `SortPackagesByVersionType` summarise the
    comparison table.
- **Repository addresses** (`Repository`, `RepositoryExamples`).
  - `GetRepositoryUrl` is a fixed pipeline of string rewrites that turns
    the `repository.url` of a registry document into an `https://`
    address. `GetRepositoryUrlMetadata` reads the owner and the project
    from that address.
- **npmrc tokens** (`Npmrc`).
  - `ParseNpmrc` is the line scanner that looks for the registry auth
    token.
  - `GetRelevantNpmrcToken` chooses among the project, user, global and
    builtin configuration levels.
- **The registry loop** (`Npm`).
  - `FetchDependencies` is a sequential pass over the dependency map, in
    whatever order the map yields its keys.
  - The registry is a parameter: a map from package name to its answer,
    either a 200 document with the three fields the loop reads or a
    refused answer. A missing name is a transport error.
- **The older updater in `pkg/updater`** (`Updater`).
  - Its classifier reports the direction as 1, -1 or 0.
  - Its repository canonicaliser has no fragment strip.
  - `readDependencies` applies the same gate as `FetchDependencies`, but
    it panics on a refused answer where `FetchDependencies` skips.
  - The module also covers the `(c/m)` progress label, the "Update" answer
    that marks a row, and the `package.json` edits made for the marked
    rows.
- **Small helpers** (`PackageJson`, `SetVersion`, `SetupScript`).
  - The install command for a package manager.
  - The release tool that stamps `const __VERSION__ string = "..."` into a
    source file.
  - The `compareSemver` function of the JavaScript install script, with
    JavaScript's `parseInt` and its `NaN` comparisons.
- **Shared library models** (`Wrappers`, `Strings`, `Strconv`).
  - `Option`/`Result`, and Go's `strings.Split`, `TrimSpace`, `Replace`,
    `HasPrefix`/`HasSuffix`/`Contains`.
  - `strconv.Atoi`, with its sign, its clamping to 64 bits and its error
    value discarded as the callers discard it.
  - `%d` formatting.

Where the source would panic, the model says so:
- `GetCleanVersion` indexes a nil match when the text holds no full
  `a.b.c` (`pkg/utils/version/getCleanVersion.go:7-9`). It is partial:
  `None` is that case. `^1`, `^1.2`, `123.3456` and `""` are such texts, so
  missing parts are not padded with zeros; the tests in
  `pkg/utils/version/getCleanVersion_test.go` that expect padding are not
  proved.
- The registry loops call it before their check for an empty clean
  version (`pkg/utils/npm/fetchDependencies.go:55-60`,
  `pkg/updater/root.go:451-456`). That check is never reached, and a range
  such as `*`, `latest` or `workspace:*` panics in the main loop. It is
  the `Crash` outcome.
- `GetVersionComponents` indexes a nil match in the same way. It requires
  that a triple occurs.
- `GetVersionUpdateType` indexes out of range when the current version has
  more than three parts, or more parts than the latest. It requires the
  other case (`Classifiable`). Inside the registry loops that panic is the
  `Crash` outcome too.
- The older `readDependencies` fetches without a status check
  (`pkg/updater/root.go:159-166`). A package the registry refuses, such as
  an unpublished or private one answered with a 404, has no `dist-tags`,
  and the type assertion at `pkg/updater/root.go:480` panics. The newer
  fetch turns any status other than 200 into an error
  (`pkg/utils/npm/registry.go:31-33`), and `FetchDependencies` skips the
  package.
- A `Crash` of any one dependency ends the whole run: `FetchDependencies`
  and `readDependencies` then return a `Failure`.
- `GetRepositoryUrlMetadata` indexes out of range when the address holds
  no `/`. It requires one.

Other behaviour of the code the model keeps:
- `GetRepositoryUrl("")` is `https://`. Both patterns match the empty
  text, so the early `""` returns (`pkg/utils/repository/root.go:21-23`
  and `:32-34`) are never taken.
- The owner and project of an address are its last two `/`-separated
  fragments (`pkg/utils/repository/root.go:62-66`), empty ones included.
- `FetchDependencies` never assigns its locked count
  (`pkg/utils/npm/fetchDependencies.go:33`), so it is always 0.

## Model

| member | source | states |
|---|---|---|
| Version.FindTriple | pkg/utils/version/getVersionComponents.go:9-10 | The search finds a position where `\d+\.\d+\.\d+` matches, with no match at any earlier position; `None` means no position matches at all |
| Version.TripleAtIff | pkg/utils/version/getVersionComponents.go:9 | The character-level recogniser succeeds at a position exactly when three digit runs separated by dots start there |
| Version.FindTripleLeftmost | pkg/utils/version/getVersionComponents.go:9-10 | What the search finds is the leftmost triple, and its patch run is as long as the digits go |
| Version.GetVersionComponents | pkg/utils/version/getVersionComponents.go:8-16 | The three results are the `Atoi` values of the digit runs of the leftmost triple; each is non-negative and fits Go's `int` |
| Version.ComponentsOfParts | pkg/utils/version/getVersionComponents.go:9-14 | For `P ++ a.b.c ++ R` with no digit in `P` and `R` not continuing the patch digits, the results are the values of `a`, `b` and `c`, whatever `R` holds |
| Version.ComponentsOfTriple | pkg/utils/version/getVersionComponents.go:9-14 | A bare `a.b.c` reads as the values of its three runs |
| Version.ComponentsOfCleanVersion | pkg/utils/version/getVersionComponents.go:9-14 | On the version `GetCleanVersion` returns, a triple occurs, and the numbers read are the ones that version spells |
| Version.ComponentsPrintBack | pkg/utils/version/getVersionComponents.go:9-14 | A canonical `a.b.c` without leading zeros, each part within Go's `int`, prints back with `%d.%d.%d` to the same text |
| Version.FindClean | pkg/utils/version/getCleanVersion.go:6-7 | The search returns the leftmost start at which `([^0-9]*)(\d+\.\d+\.\d+)(.*)` matches |
| Version.GetCleanVersion | pkg/utils/version/getCleanVersion.go:5-13 | No result exactly when no triple occurs anywhere; otherwise the prefix holds no digit, the version has the form `digits.digits.digits`, and prefix and version lie next to each other in the input at the leftmost match |
| Version.CleanVersionOfParts | pkg/utils/version/getCleanVersion.go:6-12 | For `P ++ a.b.c ++ R` with no digit in `P` and `R` not continuing the patch digits, the result is exactly `(P, a.b.c)`: the operator is kept and the rest is dropped |
| Version.OneDotNoCleanVersion | pkg/utils/version/getCleanVersion.go:6-10 | Text with at most one dot has no clean version, since the pattern needs two |
| Version.ValuesOfTriple | pkg/utils/version/getVersionUpdateType.go:33-40 | The dot-separated parts of a bare `a.b.c` are `a`, `b` and `c`, and their values are those `GetVersionComponents` reads |
| Version.FirstChangeSpec | pkg/utils/version/getVersionUpdateType.go:58-79 | The type is "none" exactly when the direction is; the direction is "none" exactly when every compared part is equal; otherwise the result names the first differing position and the way the number moved there |
| Version.GetVersionUpdateType | pkg/utils/version/getVersionUpdateType.go:27-80 | Equal strings give ("none","none"); the type is "none" iff the direction is "none", iff all compared numbers are equal; otherwise the first differing part decides, as an upgrade exactly when the latest is larger there |
| Version.UpdateTypeSwap | pkg/utils/version/getVersionUpdateType.go:48-77 | Swapping current and latest (same number of parts) keeps the type and swaps upgrade with downgrade |
| Version.FirstChangeThree | pkg/utils/version/getVersionUpdateType.go:58-79 | The second loop over three numbers agrees with an independent major-then-minor-then-patch comparison |
| Version.UpdateTypeByComponents | pkg/utils/version/getVersionUpdateType.go:27-80 | On two bare triples the classifier compares exactly the numbers `GetVersionComponents` reads from them |
| Version.UpdateTypeOfTriples | pkg/utils/version/getVersionUpdateType.go:27-80 | Two spelled-out triples are classified by the values of their digit runs |
| Version.ValuesOfParts | pkg/utils/version/getVersionUpdateType.go:33-40 | Three dot-free parts joined by dots split back into those parts and read as their `Atoi` values |
| Version.UpdateTypeOfParts | pkg/utils/version/getVersionUpdateType.go:38-40 | Two different three-part versions are compared by the `Atoi` values of their parts, whatever the parts hold (a part with trailing text reads as 0) |
| VersionExamples.CleanVersionCaret | pkg/utils/version/getCleanVersion_test.go:18-22 | `^1.2.3` gives `("^", "1.2.3")` |
| VersionExamples.CleanVersionTilde | pkg/utils/version/getCleanVersion_test.go:23-27 | `~1.2.0` gives `("~", "1.2.0")` |
| VersionExamples.CleanVersionBare | pkg/utils/version/getCleanVersion_test.go:28-32 | `1.2.3` gives `("", "1.2.3")` |
| VersionExamples.CleanVersionPreRelease | pkg/utils/version/getCleanVersion_test.go:33-37 | `^1.2.3-alpha.1` gives `("^", "1.2.3")` |
| VersionExamples.CleanVersionCanary | pkg/utils/version/getCleanVersion_test.go:38-42 | `^15.0.0-canary.102` gives `("^", "15.0.0")` |
| VersionExamples.CleanVersionMultiDigit | pkg/utils/version/getCleanVersion_test.go:53-57 | `12.34.56` keeps its multi-digit parts |
| VersionExamples.CleanVersionEmpty | pkg/utils/version/getCleanVersion.go:7-10 | `""` has no clean version (the test at getCleanVersion_test.go:13-17 expects empty strings; the code indexes a nil match) |
| VersionExamples.CleanVersionMajorOnly | pkg/utils/version/getCleanVersion.go:7-10 | `^1` has no clean version (no padding to `1.0.0`) |
| VersionExamples.CleanVersionMajorMinor | pkg/utils/version/getCleanVersion.go:7-10 | `^1.2` has no clean version (no padding to `1.2.0`) |
| VersionExamples.CleanVersionTwoParts | pkg/utils/version/getCleanVersion.go:7-10 | `123.3456` has no clean version |
| VersionExamples.ComponentsOneZeroZero | pkg/updater/root_test.go:50 | `1.0.0` reads as (1, 0, 0) |
| VersionExamples.ComponentsTwoOneFive | pkg/updater/root_test.go:51 | `2.1.5` reads as (2, 1, 5) |
| VersionExamples.ComponentsZeroZeroOne | pkg/updater/root_test.go:52 | `0.0.1` reads as (0, 0, 1) |
| VersionExamples.ComponentsMulti | pkg/updater/root_test.go:53 | `30.12.17` reads as (30, 12, 17) |
| VersionExamples.ComponentsZeroTenZero | pkg/updater/root_test.go:54 | `0.10.0` reads as (0, 10, 0) |
| VersionExamples.ComponentsPreRelease | pkg/updater/root_test.go:55 | `1.2.3-beta.1` reads as (1, 2, 3) |
| VersionExamples.UpdateTypeCase1 | pkg/updater/root_test.go:17 | `1.0.0` to `1.0.1` is a patch upgrade |
| VersionExamples.UpdateTypeCase2 | pkg/updater/root_test.go:18 | `1.0.0` to `1.1.0` is a minor upgrade |
| VersionExamples.UpdateTypeCase3 | pkg/updater/root_test.go:19 | `1.0.0` to `2.0.0` is a major upgrade |
| VersionExamples.UpdateTypeCase4 | pkg/updater/root_test.go:20 | `2.0.0` to `2.0.0` is ("none", "none") |
| VersionExamples.UpdateTypeCase5 | pkg/updater/root_test.go:21 | `1.9.9` to `2.1.2` is a major upgrade: later parts are ignored |
| VersionExamples.UpdateTypeCase6 | pkg/updater/root_test.go:22 | `3.5.6` to `3.6.9` is a minor upgrade |
| VersionExamples.UpdateTypeCase7 | pkg/updater/root_test.go:23 | `20.10.10` to `20.10.11` is a patch upgrade |
| VersionExamples.UpdateTypeCase8 | pkg/updater/root_test.go:24 | `1.1.1` to `0.1.1` is a major downgrade |
| VersionExamples.UpdateTypeCase9 | pkg/updater/root_test.go:25 | `1.1.1` to `1.0.1` is a minor downgrade |
| VersionExamples.UpdateTypeCase10 | pkg/updater/root_test.go:26 | `1.1.1` to `1.1.0` is a patch downgrade |
| VersionExamples.BetaPartsRead | pkg/utils/version/getVersionUpdateType.go:39-40 | `Atoi` reads plain digits as their value and `3-beta` as 0, its error discarded |
| VersionExamples.UpdateTypeNonNumericPart | pkg/utils/version/getVersionUpdateType.go:38-79 | `1.2.3-beta` to `1.2.0` is ("none", "none"): the non-numeric patch reads as 0 |
| Strconv.Atoi | pkg/utils/version/getVersionUpdateType.go:39-40 | Go's `strconv.Atoi` with the error dropped: the value of a digit string, clamped to 64 bits; the result always fits Go's `int` |
| Strconv.AtoiTrailingText | pkg/utils/version/getVersionUpdateType.go:39-40 | A digit run followed by other text reads as 0 |
| Strconv.AtoiItoa | pkg/updater/root.go:83-89 | `Atoi` reads back every 64-bit integer `%d` prints |
| VersionSummary.CountVersionTypes | pkg/utils/version/countVersionTypes.go:15-35 | Each counter equals the number of rows of its type, and the total equals the number of rows, whatever order the map yields its keys in |
| VersionSummary.CountsCover | pkg/utils/version/countVersionTypes.go:22-31 | major + minor + patch is at most the total, with equality exactly when no row has type "none" |
| VersionSummary.CountsEmpty | pkg/utils/version/countVersionTypes.go:15-35 | An empty table counts zero everywhere |
| VersionSummary.NamesPartition | pkg/utils/version/countVersionTypes.go:22-29 | The rows of the four types are pairwise disjoint and together make up the table |
| VersionSummary.BucketMembers | pkg/utils/version/sortPackages.go:35-47 | The bucket of a priority holds exactly the rows with that priority |
| VersionSummary.SortByPrioritySorted | pkg/utils/version/sortPackages.go:26-30 | The reference ordering never decreases in priority: patch, then minor, then major, then the rest |
| VersionSummary.SortByPriorityPermutes | pkg/utils/version/sortPackages.go:18-30 | The reference ordering keeps exactly the rows it is given, each once |
| VersionSummary.SortPackagesByVersionType | pkg/utils/version/sortPackages.go:14-33 | The output has one entry per table row, each under its own name with its row unchanged, no name twice, in non-decreasing priority |
| Repository.StripFragments | pkg/utils/repository/root.go:14-15 | The result holds no `#` |
| Repository.GetRepositoryUrlShape | pkg/utils/repository/root.go:11-47 | Every result starts with `https://`, holds no `#` and is one line |
| Repository.CanonicaliseShape | pkg/utils/repository/root.go:18-46 | The stages after the fragment strip add neither a `#` nor a line feed, and they leave the `https://` scheme in front |
| Repository.StripFragmentsKeep | pkg/utils/repository/root.go:14-15 | Text before the first `#` passes the fragment strip untouched |
| Repository.FragmentIgnored | pkg/utils/repository/root.go:14-15 | A `#fragment` at the end of an address does not change the result |
| Repository.GetRepositoryUrlOfParts | pkg/utils/repository/root.go:11-47 | Every address form the tests use (`https://`, `git+https://`, `git@host:`, `ssh://git@`; with or without `.git`; with or without a fragment) comes out as `https://<host>.com/<path>` |
| Repository.UrlOfForm | pkg/utils/repository/root.go:11-47 | The same, with the address written as the tests spell it |
| Repository.EmptyUrl | pkg/utils/repository/root.go:18-44 | The empty address gives `https://`, because both patterns match the empty text |
| Repository.CanonicalUnchanged | pkg/utils/repository/root.go:11-47 | An `https://` address on one line, without a fragment, a `.git` ending or a `.com:`, comes back unchanged |
| Repository.GitPrefixDropped | pkg/utils/repository/root.go:18-25 | A leading `git+` or `git@` is dropped exactly once |
| Repository.GitSuffixTrimmed | pkg/utils/repository/root.go:26 | One trailing `.git` is trimmed: adding it to an address without one changes nothing |
| Repository.GitPrefixKeepsSuffix | pkg/utils/repository/root.go:18-26 | Dropping the git prefix keeps a `.git` ending that follows it and adds none |
| Repository.GitStage | pkg/utils/repository/root.go:18-25 | The git-prefix stage removes `git+` or `git@` and nothing else |
| Repository.SchemeStage | pkg/utils/repository/root.go:29-36 | On a plain host and path, the scheme stage drops `ssh://git@` and keeps `https://` |
| Repository.GitSchemeDropped | pkg/utils/repository/root.go:29-36 | For every text, a leading `git://` is dropped and the first line of the rest is kept |
| Repository.SshThenGitDropped | pkg/utils/repository/root.go:29-36 | For every text, a leading `ssh://git@` is dropped, then a `git://` behind it, and the first line of the rest is kept |
| Repository.NoSchemeKept | pkg/utils/repository/root.go:29-36 | Text starting with neither scheme keeps all of its first line |
| Repository.ReplaceHostPath | pkg/utils/repository/root.go:39 | On a plain host and path behind a dot-free lead, the one `.com:` becomes `.com/` and nothing else changes |
| Repository.NoComColonLeft | pkg/utils/repository/root.go:39 | For every text, no `.com:` is left after the replacement: each one is replaced and none is formed anew |
| Repository.ComColonOnly | pkg/utils/repository/root.go:39 | For every text, the replacement keeps the length and changes only characters that were the `:` of a `.com:`, each into `/` |
| Repository.ReplacedPrefix | pkg/utils/repository/root.go:39 | Replaced text that starts with a dot-free string came from text starting with it |
| Repository.HttpsStage | pkg/utils/repository/root.go:42-44 | On a plain host and path, with or without the scheme, `https://` ends up in front exactly once |
| Repository.HttpsOnce | pkg/utils/repository/root.go:42-44 | For every text, `https://` is in front afterwards, at most 8 characters are added in front of the unchanged text, text already carrying the scheme is kept, and a second pass changes nothing |
| Repository.GetRepositoryUrlMetadata | pkg/utils/repository/root.go:58-72 | Neither returned fragment holds a `/` |
| Repository.MetadataAtEnd | pkg/utils/repository/root.go:62-66 | The two fragments returned end the address: they are the whole of it, or the text after a `/` |
| Repository.MetadataOfParts | pkg/utils/repository/root.go:62-66 | Any address ending in `/<owner>/<project>` (both without `/`) gives back that owner and project |
| RepositoryExamples.HttpsVectors | pkg/utils/repository/root_test.go:12-14 | `https://github.com/ghuser/package-name`, plain, with `.git` and with `.git#main`, gives `https://github.com/ghuser/package-name` |
| RepositoryExamples.GitPlusVectors | pkg/utils/repository/root_test.go:16-18 | The same three rows behind `git+` give the same address |
| RepositoryExamples.GitAtVectors | pkg/utils/repository/root_test.go:20-22 | `git@github.com:ghuser/package-name`, plain, with `.git` and with `.git#main`, gives `https://github.com/ghuser/package-name` |
| RepositoryExamples.SshVectors | pkg/utils/repository/root_test.go:24-26 | `ssh://git@github.com/mongodb/node-mongodb-native`, plain, with `.git` and with `.git#main`, gives `https://github.com/mongodb/node-mongodb-native` |
| RepositoryExamples.MetadataVector | pkg/utils/repository/root_test.go:45 | `https://github.com/ghuser/package-name` gives owner `ghuser` and project `package-name` |
| Npmrc.KeyMatchesAll | pkg/utils/npmrc/parseNpmrc.go:40 | The key part of the pattern matches exactly when each of its positions does |
| Npmrc.AuthLineStart | pkg/utils/npmrc/parseNpmrc.go:28-38 | A line the pattern matches starts with `//`, so the blank-line and comment skips never hide a token |
| Npmrc.LineToken | pkg/utils/npmrc/parseNpmrc.go:25-47 | A trimmed line yields a token exactly when it matches the pattern, and the token is the text after the key |
| Npmrc.FirstTokenSpec | pkg/utils/npmrc/parseNpmrc.go:23-53 | The scan fails with "no token found" exactly when no line yields a token; otherwise it yields the token of the first line that does |
| Npmrc.LinesSpec | pkg/utils/npmrc/parseNpmrc.go:23-53 | Over a list of lines, the result is the capture of the first trimmed line that matches, or "no token found" when none does |
| Npmrc.ParseNpmrcSpec | pkg/utils/npmrc/parseNpmrc.go:9-55 | `ParseNpmrc` gives the capture of the first line, split at line feeds and trimmed, that matches `^//registry.npmjs.org/:_authToken=(.*)$`; when no line matches, the error "no token found" |
| Npmrc.TokenShape | pkg/utils/npmrc/parseNpmrc.go:21-47 | A returned token holds no line feed and does not end in white space |
| Npmrc.CaptureShape | pkg/utils/npmrc/parseNpmrc.go:25-47 | The capture of a trimmed matching line holds no line feed and does not end in white space |
| Npmrc.FirstTokenShift | pkg/utils/npmrc/parseNpmrc.go:23-51 | The scan over lines that follow others is the scan over those lines alone |
| Npmrc.FirstTokenSkip | pkg/utils/npmrc/parseNpmrc.go:23-51 | The scan passes over a stretch of lines without tokens |
| Npmrc.FirstTokenStop | pkg/utils/npmrc/parseNpmrc.go:23-47 | The scan stops at the first token and ignores later lines |
| Npmrc.NoneRemoved | pkg/utils/npmrc/parseNpmrc.go:23-51 | Removing a line without a token does not change the scan |
| Npmrc.LineTokensAppend | pkg/utils/npmrc/parseNpmrc.go:23-25 | Lines are judged one at a time, independently of each other |
| Npmrc.NonAuthLineIgnored | pkg/utils/npmrc/parseNpmrc.go:28-45 | A line that does not match once trimmed (a blank line, a comment, another `//` setting) can be removed without changing the result |
| Npmrc.SplitAround | pkg/utils/npmrc/parseNpmrc.go:21 | A text with one more line in the middle splits into one more line there |
| Npmrc.OneLine | pkg/utils/npmrc/parseNpmrc.go:21-53 | One line of text yields what that line yields, or the error |
| Npmrc.SingleTokenLine | pkg/utils/npmrc/parseNpmrc.go:38-47 | The key followed by any one-line token without trailing white space yields that token |
| Npmrc.AuthLineOf | pkg/utils/npmrc/parseNpmrc.go:25-40 | The key followed by such a token is a matching line that trimming leaves alone |
| Npmrc.TokenVectors | pkg/utils/npmrc/parseNpmrc_test.go:18-27 | The well-formed line gives `npm_1234`; the key with nothing after `=` gives the empty token and no error |
| Npmrc.NoTokenLine | pkg/utils/npmrc/parseNpmrc.go:38-53 | A single line that does not start with `/` gives "no token found" |
| Npmrc.NotAuthLine | pkg/utils/npmrc/parseNpmrc.go:38-40 | A line that does not start with `/` never matches |
| Npmrc.EmptyTextVector | pkg/utils/npmrc/parseNpmrc_test.go:13-17 | The empty text gives "no token found" |
| Npmrc.NoSlashesVector | pkg/utils/npmrc/parseNpmrc_test.go:28-32 | A line without the leading `//` gives "no token found" |
| Npmrc.SemicolonCommentVector | pkg/utils/npmrc/parseNpmrc_test.go:33-37 | A `;` comment gives "no token found" |
| Npmrc.HashCommentVector | pkg/utils/npmrc/parseNpmrc_test.go:38-42 | A `#` comment gives "no token found" |
| Npmrc.WildcardDots | pkg/utils/npmrc/parseNpmrc.go:40 | The two unescaped dots of the pattern accept any character but a line feed |
| Npmrc.GetRelevantNpmrcToken | pkg/utils/npmrc/getRelevantNpmrcToken.go:13-33 | The token returned is the one the returned level names; the level is empty exactly when the token is; every level preferred to it has no token |
| Npmrc.ProjectWins | pkg/utils/npmrc/getRelevantNpmrcToken.go:15-17 | A non-empty project token wins whatever the other fields hold |
| Npmrc.ChoiceUnique | pkg/utils/npmrc/getRelevantNpmrcToken.go:13-31 | Any level that has a token, when no preferred level has one, is the level returned |
| Npmrc.ExistsIgnored | pkg/utils/npmrc/getRelevantNpmrcToken.go:13-31 | The `Exists` field never changes the choice |
| Npmrc.RelevantTokenVectors | pkg/utils/npmrc/getRelevantNpmrcToken_test.go:13-67 | All empty gives ("", no level); a token at exactly one level is returned with that level |
| Npm.Resolve | pkg/utils/npm/fetchDependencies.go:47-146 | A dependency is skipped when filtered out, or when its range parses and its fetch fails. It panics exactly when it passes the filter and either its range holds no full `a.b.c` or the versions cannot be compared. It writes a row exactly when the direction is upgrade, or downgrade with downgrades allowed. The row holds the clean version, the latest, the type (never "none"), the homepage, the canonical repository, the operator and the dependency kind, and it is not selected |
| Npm.Lookup | pkg/utils/npm/registry.go:23-42 | A document is handed over exactly when the registry answers the name with status 200, and it is that answer's document |
| Npm.AppliedStep | pkg/utils/npm/fetchDependencies.go:134-146 | Handling one more dependency writes its row, if any, and changes nothing else |
| Npm.AppliedNone | pkg/utils/npm/fetchDependencies.go:45 | Before any dependency is handled the table is the one passed in |
| Npm.CrashedStep | pkg/utils/npm/fetchDependencies.go:129 | Handling one more dependency adds it to the panicking names exactly when it panics |
| Npm.Fold | pkg/utils/npm/fetchDependencies.go:45-157 | The pass fails exactly when some dependency panics; otherwise it leaves every written row over the table passed in, the same table for every key order |
| Npm.AppliedEntry | pkg/utils/npm/fetchDependencies.go:134-146 | After the pass a name is in the table exactly when it was before or its dependency wrote a row, and it then holds that row |
| Npm.FetchDependencies | pkg/utils/npm/fetchDependencies.go:26-165 | The result is a panic exactly when some dependency panics (a range without `a.b.c`, or versions that cannot be compared); otherwise the table is the sequential pass against the registry; the locked count is always 0 |
| Npm.OthersKept | pkg/utils/npm/fetchDependencies.go:45-146 | Entries of the table outside the dependency list are kept as they were |
| Npm.RowOfDependency | pkg/utils/npm/fetchDependencies.go:48-146 | A new row passed the filter, has a range that parses and was fetched; it holds the clean version and the operator; it is a real update, not selected, of the given kind; with downgrades disallowed it is an upgrade |
| PackageJson.GetInstallationCommand | pkg/utils/packagejson/getPackageManager.go:41-54 | `npm`, `pnpm`, `yarn` and `bun` give `<manager> install`; anything else, the empty string included, gives `npm install`; the result is always one of the four commands |
| PackageJson.CommandNamesManager | pkg/utils/packagejson/getPackageManager.go:41-54 | The command names its manager back: the mapping is one-to-one on the four managers, and the fallback is npm's command |
| PackageJson.ManagerFromLockFiles | pkg/utils/packagejson/getPackageManager.go:10-39 | With no lock file the answer is npm; a manager other than npm is named only when its lock file is there; npm without its lock file means there is none; every lock file that is there can win; a lone lock file always wins |
| PackageJson.PossibleManagerCommand | pkg/utils/packagejson/getPackageManager.go:10-39 | Whatever manager the racing lock-file probes return, npm included when none is found, it is one of the four, and its command is its own |
| SetVersion.RewriteLines | utils/setVersion/main.go:41-52 | The line count is kept |
| SetVersion.SetVersion | utils/setVersion/main.go:17-20 | The file is left alone exactly when no version is given |
| SetVersion.RewriteLinesSpec | utils/setVersion/main.go:41-52 | Lines without `const __VERSION__ string =` are unchanged; every line with it becomes exactly `const __VERSION__ string = "<v>"`; a line holds the marker after the rewrite exactly when it did before |
| SetVersion.RewriteLinesIdempotent | utils/setVersion/main.go:45-48 | Stamping the same version twice is stamping it once |
| SetVersion.SplitRender | utils/setVersion/main.go:66-69 | Each line is written followed by a line feed: the output splits back into the lines and a final empty piece |
| SetVersion.ScanRender | utils/setVersion/main.go:35-69 | The scanner reads back every written line, when no line holds a line feed or ends in a carriage return |
| SetVersion.ScanLinesClean | utils/setVersion/main.go:35-42 | Scanned lines hold no line feed, and none ends in a carriage return when the file holds none |
| SetVersion.SetVersionIdempotent | utils/setVersion/main.go:17-69 | Running the tool twice with the same version leaves the file as one run does |
| SetVersion.VersionLineClean | utils/setVersion/main.go:47 | The stamped line is one line and survives the scanner unchanged |
| SetupScript.ParseParts | scripts/setup.js:24-25 | One number per dot-separated part, and at least one |
| SetupScript.CompareFromSpec | scripts/setup.js:27-35 | The loop answers 1, 0 or -1: 0 exactly when no position of the first array decides; 1 exactly when the first deciding position has the first number larger; -1 exactly when it has the second larger |
| SetupScript.CompareSelf | scripts/setup.js:27-35 | A version compared with itself gives 0 |
| SetupScript.CompareFromSwap | scripts/setup.js:27-33 | Swapping two arrays of the same length negates the answer |
| SetupScript.CompareSwap | scripts/setup.js:23-36 | For versions with the same number of parts, `compareSemver(a, b) = -compareSemver(b, a)` |
| SetupScript.CompareFromPrefix | scripts/setup.js:27 | Only the first array's positions are walked |
| SetupScript.ExtraPartsIgnored | scripts/setup.js:27 | Parts of the second version beyond the first version's length never matter |
| SetupScript.NaNUndecided | scripts/setup.js:28-30 | A `NaN` or missing part never decides, since both comparisons with it are false |
| SetupScript.ParseIntUnsigned | scripts/setup.js:24 | Text starting with a digit is read without white space or sign |
| SetupScript.ParseIntDigitsThen | scripts/setup.js:24 | A digit run followed by anything else reads as the run's value, unless it is a lone `0` before `x` |
| SetupScript.DigitPrefixAll | scripts/setup.js:24 | A digit string is its own digit prefix |
| SetupScript.ParseIntNoDigit | scripts/setup.js:24 | Text starting with a letter, such as a `v`-prefixed tag, reads as `NaN` |
| SetupScript.ParseIntVectors | scripts/setup.js:24-25 | `3-beta` reads as 3, `0x10` as 16, ` -7` as -7; `v4` and the empty text as `NaN` |
| SetupScript.PartsOfThree | scripts/setup.js:24-25 | A three-part version reads as the `parseInt` of each part |
| SetupScript.CompareNumericVector | scripts/setup.js:23-36 | Parts compare as numbers: `1.10.0` is above `1.9.0` |
| SetupScript.CompareLowerVector | scripts/setup.js:23-36 | `1.2.3` against `1.2.4` gives -1 |
| SetupScript.CompareShorterVector | scripts/setup.js:27 | `1.2` against `1.2.5` gives 0: the extra part is never looked at |
| SetupScript.ComparePrefixedVector | scripts/setup.js:24-33 | `v2.0.0` against `1.0.0` gives 0: the `v` part is `NaN` and the others are equal |
| SetupScript.HexVector | scripts/setup.js:24 | `0x10` reads as hexadecimal 16 |
| SetupScript.DigitsVector | scripts/setup.js:24 | A plain digit string reads as its value |
| SetupScript.UpToDateKept | scripts/setup.js:56-64 | An installed version equal to the latest release is never downloaded again |
| SetupScript.OlderReleaseDownloaded | scripts/setup.js:56-64 | A latest release older than the installed one (the answer -1) still goes on to the download |
| Updater.DirectionCodes | pkg/updater/root.go:260-264 | The codes 1, -1 and 0 name upgrade, downgrade and none, one-to-one, and no other integer names a direction |
| Updater.LegacyFirstChangeAgrees | pkg/updater/root.go:297-318 | The older second loop stops where the newer one does and returns the entry itself as the direction |
| Updater.LegacyUpdateTypeAgrees | pkg/updater/root.go:266-319 | The older classifier gives the same type as `GetVersionUpdateType`, with the direction as 1, -1 or 0 |
| Updater.LegacyAgreesWithoutFragment | pkg/updater/root.go:389-420 | On an address without `#`, the older canonicaliser agrees with the newer one |
| Updater.LegacyKeepsFragment | pkg/updater/root.go:389-420 | Without the fragment strip, `git@<host>.com:<path>.git#<frag>` keeps both its `.git` and its fragment |
| Updater.ModernDropsFragment | pkg/utils/repository/root.go:11-47 | The newer canonicaliser drops both from the same address |
| Updater.LookupsAgree | pkg/updater/root.go:159-166 | The older fetch hands over every answer the registry gives, refused ones included; keeping only status-200 documents gives the newer fetch's result |
| Updater.LegacyResolveAgrees | pkg/updater/root.go:441-521 | For one dependency, `readDependencies` writes exactly when `FetchDependencies` does, and the same row apart from the older repository address; it panics exactly when `FetchDependencies` panics or the registry refuses a dependency that passes the filter and parses, which `FetchDependencies` skips |
| Updater.LegacyResolveEqual | pkg/updater/root.go:441-521 | When the registry does not refuse the name and the repository address holds no `#`, the two outcomes are equal |
| Updater.ReadDependencies | pkg/updater/root.go:424-537 | The pass panics exactly when some dependency makes `FetchDependencies` panic or is refused by the registry after passing the filter and the range parse; otherwise it leaves every written row over the table passed in |
| Updater.ProgressLabelRoundTrip | pkg/updater/root.go:83-89 | The label `(c/m)` gives both 64-bit numbers back |
| Updater.Select | pkg/updater/root.go:687-693 | The "Update" answer marks exactly the named row, changes nothing else and adds no row |
| Updater.SelectAllSpec | pkg/updater/root.go:687-693 | After the answers a row is marked exactly when it was marked before or was answered "Update"; nothing else in a row changes |
| Updater.PathNameInverse | pkg/updater/root.go:764-769 | A path that reads back names the row whose path it is |
| Updater.PathNameRoundTrip | pkg/updater/root.go:764-769 | The path `devDependencies.<name>` or `dependencies.<name>` names its row and its section again |
| Updater.WritePathInjective | pkg/updater/root.go:764-769 | Different rows get different paths |
| Updater.WriteBack | pkg/updater/root.go:761-774 | Every marked row has its path set to its range operator followed by its latest version |
| Updater.WriteBackSpec | pkg/updater/root.go:761-774 | A path is edited exactly when it names a marked row in that row's own section, and it receives that row's range operator and latest version |
| Updater.NothingSelected | pkg/updater/root.go:761-774 | Rows as the pass writes them are not marked, so with no "Update" answer nothing is written |

## Left out

- Network access is left out. The release and changelog fetches are not modelled. The registry is a parameter holding, for each name, a 200 answer with the fields the loops read or a refused answer; a missing name is a transport error.
- JSON decoding and its panics are left out. Apart from the missing `dist-tags` of a refused answer in the older fetch, the panicking type assertions on `dist-tags`, `time`, `homepage` and `repository` are not modelled: a document is a record of optional fields.
- Concurrency is left out: goroutines, the semaphore, the wait group, the results channel and the mutex. The pass is sequential over an arbitrary key order. Its result does not depend on that order, because each key is written at most once.
- Updater.ReadDependencies: the data race of the older `readDependencies` is not modelled. It writes the shared map without a lock; the model treats it like the locked version.
- Npm.FetchDependencies: the `token` argument and the progress bar are dropped. They only reach the network and the terminal.
- Npm.Resolve: `HoursSinceLasRelease` is not modelled. It is a floating-point time difference taken from the clock.
- Version.GetCleanVersion: it is partial, where the tests expect zero padding. The code indexes a nil match on `""`, `^1`, `^1.2` and `123.3456`. Those tests are not proved; the model shows that each has no clean version.
- Version.GetVersionComponents and Version.GetVersionUpdateType require inputs on which the code does not panic. The out-of-range panics are preconditions here. Inside the registry loops, the range-parse and classifier panics are the `Crash` outcome.
- Version.UpdateTypeSwap: requires the same number of parts on both sides. Otherwise one of the two calls panics.
- SetupScript.CompareSwap: requires the same number of parts. With different lengths the walk covers only the first version, and the property fails, for example `1.2` against `1.2.5`.
- Repository.GetRepositoryUrlOfParts: proved for hosts of letters, digits and `-` followed by `.com`, and for paths without a dot. That covers every address the tests use, but not every address. Repository.GetRepositoryUrlShape, FragmentIgnored, GitPrefixDropped, GitSuffixTrimmed and CanonicalUnchanged hold for all addresses.
- Repository.UrlOfForm: the same plain-host, dot-free-path restriction as GetRepositoryUrlOfParts.
- Repository.SchemeStage: stated on a plain host and path only. The scheme stage for every text is stated by GitSchemeDropped, SshThenGitDropped and NoSchemeKept.
- Repository.ReplaceHostPath: stated on a plain host and path only. The replacement for every text is stated by NoComColonLeft and ComColonOnly.
- Repository.HttpsStage: stated on a plain host and path only. The scheme step for every text is stated by HttpsOnce.
- VersionSummary.SortPackagesByVersionType: the order among rows of equal priority is not claimed. `sort.Slice` is not stable and the map order is arbitrary. Only the priority order and the contents are stated.
- SetVersion.SetVersionIdempotent: requires a file without carriage returns and a version without line feeds. The scanner drops one carriage return per line, so the first run can change such a file in a way the second does not repeat.
- SetVersion: the open, truncate and seek calls are left out, and so are the scanner's 64 KiB line limit and write errors. The file is a text in and a text out.
- Updater.ProgressLabelRoundTrip: stated for 64-bit integers, the width of Go's `int`.
- Updater.WriteBack: `sjson.Set` is not part of this model. The edits are stated as the dot path and value handed to it. sjson reads a dot in the path as a separator, so a package name containing a dot (`chart.js`) reaches a nested key. That reading belongs to sjson and is not modelled.
- PackageJson.PossibleManagerCommand: `GetPackageManager` races four lock-file probes and returns whichever arrives first. It is modelled as the relation of possible answers, not as a function.
- SetupScript: JavaScript numbers are unbounded integers here. Precision above 2^53 is not modelled.
- SetupScript: `downloadBinary`, apart from its comparison decision, is not part of this model, and neither is the rest of the install script.
- UI and terminal code is left out: the prompts, the table, the colours, opening the browser, `ColorizeVersion` and the 24-hour warning.
- The command-line wiring, the `package.json` backup, `.npmrc` file discovery, reading `package.json` and the other release scripts are not part of this model.
- `UpgradeType` is a Go string type. It is modelled as an enumeration of the four values the code produces.

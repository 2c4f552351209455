/** `pkg/updater`: the older, self-contained copy of the updater. Its
    `getVersionComponents` and `getCleanVersion` are textually the same as
    the ones in `pkg/utils/version` and are modelled by them. What differs
    is modelled here: the classifier reports the direction as 1, -1 or 0;
    the repository canonicaliser has no fragment strip; `readDependencies`
    uses both. The module also holds the progress label of the prompt and
    the package.json edits `Init` makes for the selected rows. */
module Updater {
  import opened Wrappers
  import opened Strings
  import opened Strconv
  import opened Version
  import opened VersionSummary
  import Repository
  import Npm

  // ---------------------------------------------------------------------
  // getVersionUpdateType with an integer direction

  /** `UpgradeDirectionUpgrade`, `UpgradeDirectionDowngrade` and
      `UpgradeDirectionNone`. */
  function DirectionCode(d: UpgradeDirection): int {
    match d
    case Upgrade => 1
    case Downgrade => -1
    case NoneD => 0
  }

  /** The direction an integer code names, if any. */
  function DirectionOfCode(code: int): Option<UpgradeDirection> {
    if code == 1 then Some(Upgrade)
    else if code == -1 then Some(Downgrade)
    else if code == 0 then Some(NoneD)
    else None
  }

  /** The three codes name the three directions, and no other integer
      names one. */
  lemma DirectionCodes(d: UpgradeDirection, code: int)
    ensures DirectionOfCode(DirectionCode(d)) == Some(d)
    ensures DirectionOfCode(code).Some? <==> -1 <= code <= 1
    ensures DirectionOfCode(code).Some? ==> DirectionCode(DirectionOfCode(code).value) == code
  {
  }

  /** The second loop of the older classifier: the first entry that is -1
      or 1 is returned as the direction itself. */
  function LegacyFirstChange(changes: seq<int>, i: nat): (UpgradeType, int)
    requires i <= |changes|
    decreases |changes| - i
  {
    if i == |changes| then (NoneT, 0)
    else if changes[i] == -1 then (TypeAt(i), changes[i])
    else if changes[i] == 1 then (TypeAt(i), changes[i])
    else LegacyFirstChange(changes, i + 1)
  }

  /** The older `getVersionUpdateType`. It indexes out of range on the same
      inputs as the newer one. */
  function LegacyUpdateType(currentVersion: string, latestVersion: string): (UpgradeType, int)
    requires Classifiable(currentVersion, latestVersion)
  {
    if latestVersion == currentVersion then (NoneT, 0)
    else LegacyFirstChange(VersionChange(Values(currentVersion), Values(latestVersion)), 0)
  }

  /** Both second loops stop at the same entry and report the same
      position; the older one returns the entry as the direction code. */
  lemma {:induction false} LegacyFirstChangeAgrees(changes: seq<int>, i: nat)
    requires i <= |changes|
    ensures var r := FirstChange(changes, i);
      LegacyFirstChange(changes, i) == (r.kind, DirectionCode(r.direction))
    decreases |changes| - i
  {
    if i < |changes| && changes[i] != -1 && changes[i] != 1 {
      LegacyFirstChangeAgrees(changes, i + 1);
    }
  }

  /** The older classifier gives the same type as the newer one, with the
      direction as 1, -1 or 0. */
  lemma LegacyUpdateTypeAgrees(currentVersion: string, latestVersion: string)
    requires Classifiable(currentVersion, latestVersion)
    ensures var r := GetVersionUpdateType(currentVersion, latestVersion);
      LegacyUpdateType(currentVersion, latestVersion) == (r.kind, DirectionCode(r.direction))
  {
    if latestVersion != currentVersion {
      LegacyFirstChangeAgrees(VersionChange(Values(currentVersion), Values(latestVersion)), 0);
    }
  }

  // ---------------------------------------------------------------------
  // getRepositoryUrl without the fragment strip

  /** The older `getRepositoryUrl`: the same pipeline without the first
      step that drops `#...`. */
  function LegacyRepositoryUrl(url: string): string {
    Repository.Canonicalise(url)
  }

  /** On an address without `#`, both canonicalisers agree. */
  lemma LegacyAgreesWithoutFragment(url: string)
    requires '#' !in url
    ensures LegacyRepositoryUrl(url) == Repository.GetRepositoryUrl(url)
  {
    Repository.StripFragmentsKeep(url, "");
    assert url + "" == url;
  }

  /** A plain host, `.com:` and a dot-free path, then `.git#` and a
      fragment without dot or line feed: no `#`-free text and no line
      feed in it. */
  lemma FragmentFormChars(host: string, path: string, frag: string)
    requires Repository.PlainParts(host, path) && '.' !in frag && '\n' !in frag
    ensures var w := Repository.HostPath(host, ".com:", path + (".git#" + frag));
      '\n' !in w && !HasSuffix(w, ".git")
  {
    var tail := "git#" + frag;
    var w := Repository.HostPath(host, ".com:", path + (".git#" + frag));
    assert w == (host + ".com:" + path + ".") + tail;
    forall i | 0 <= i < |w| ensures w[i] != '\n' {
      if i < |host| {
        assert w[i] == host[i] && Repository.IsHostChar(host[i]);
      } else if i < |host| + 5 {
        assert w[i] == ".com:"[i - |host|];
      } else if i < |host| + 5 + |path| {
        assert w[i] == path[i - |host| - 5] && path[i - |host| - 5] in path;
      } else if i == |host| + 5 + |path| {
      } else if i < |host| + 5 + |path| + 5 {
        assert w[i] == tail[i - |host| - 6 - |path|];
      } else {
        assert w[i] == frag[i - |host| - 10 - |path|] && frag[i - |host| - 10 - |path|] in frag;
      }
    }
    assert w[|w| - 4] == tail[|tail| - 4];
    assert tail[|tail| - 4] != '.' by {
      if |frag| >= 4 {
        assert tail[|tail| - 4] == frag[|frag| - 4] && frag[|frag| - 4] in frag;
      } else {
        assert tail[|tail| - 4] == "git#"[|frag|];
      }
    }
    assert w[|w| - 4..][0] == w[|w| - 4];
  }

  /** `.com:` becomes `.com/` in front of the path and the `.git#`
      fragment ending, which stay as they are. */
  lemma FragmentFormReplace(host: string, path: string, frag: string)
    requires Repository.PlainParts(host, path) && '.' !in frag
    ensures ReplaceAll(Repository.HostPath(host, ".com:", path + (".git#" + frag)), ".com:", ".com/")
      == Repository.HostPath(host, ".com/", path + (".git#" + frag))
  {
    var rest := path + (".git#" + frag);
    assert '.' !in host by {
      forall i | 0 <= i < |host| ensures host[i] != '.' { assert Repository.IsHostChar(host[i]); }
    }
    ReplaceAllSkip(host, ".com:" + rest, ".com:", ".com/");
    var y := ".com:" + rest;
    assert y[..5] == ".com:" && y[5..] == rest;
    ReplaceAllSkip(path, ".git#" + frag, ".com:", ".com/");
    var g := ".git#" + frag;
    Repository.DifferAt(g, ".com:", 1);
    assert g[1..] == "git#" + frag;
    assert '.' !in "git#" + frag;
    ReplaceAllMissing("git#" + frag, ".com:", ".com/", 0);
    assert [g[0]] + g[1..] == g;
  }

  /** The stages of the older pipeline on `git@<host>.com:<path>.git#<frag>`:
      only the `git@` goes and `.com:` turns into `.com/`. */
  lemma LegacyFragmentStages(host: string, path: string, frag: string)
    requires Repository.PlainParts(host, path) && '.' !in frag && '\n' !in frag
    ensures var w := Repository.HostPath(host, ".com:", path + (".git#" + frag));
      Repository.DropScheme(TrimSuffix(Repository.DropGitPrefix("git@" + w), ".git")) == w
  {
    var w := Repository.HostPath(host, ".com:", path + (".git#" + frag));
    FragmentFormChars(host, path, frag);
    assert Repository.DropGitPrefix("git@" + w) == w by {
      Repository.GitStage("git@", w);
    }
    assert TrimSuffix(w, ".git") == w;
    assert Repository.DropScheme(w) == w by {
      Repository.HostPathNoScheme(host, ".com:", path + (".git#" + frag));
      Repository.FirstLineWhole(w);
    }
  }

  /** The older pipeline on `git@` followed by the host-and-path core
      whose path ends in `.git#<frag>`: only the `git@` goes and `.com:`
      turns into `.com/`. */
  lemma LegacyFragmentCore(s: string, host: string, path: string, frag: string)
    requires Repository.PlainParts(host, path) && '.' !in frag && '\n' !in frag
    requires s == "git@" + Repository.HostPath(host, ".com:", path + (".git#" + frag))
    ensures LegacyRepositoryUrl(s) == "https://" + Repository.HostPath(host, ".com/", path + (".git#" + frag))
  {
    var a := Repository.DropGitPrefix(s);
    var b := TrimSuffix(a, ".git");
    var c := Repository.DropScheme(b);
    var d := ReplaceAll(c, ".com:", ".com/");
    LegacyFragmentStages(host, path, frag);
    FragmentFormReplace(host, path, frag);
    Repository.HostPathNoPrefix(host, ".com/", path + (".git#" + frag), "https://", 5);
    Repository.CanonicaliseStages(s, a, b, c, d);
  }

  /** Without the fragment strip, `git@<host>.com:<path>.git#<frag>`
      keeps its `.git` and its fragment (the `.git` is no longer at the
      end). */
  lemma LegacyKeepsFragment(url: string, host: string, path: string, frag: string)
    requires Repository.PlainParts(host, path) && '.' !in frag && '\n' !in frag
    requires url == "git@" + host + ".com:" + path + ".git#" + frag
    ensures LegacyRepositoryUrl(url) == "https://" + host + ".com/" + path + ".git#" + frag
  {
    Regroup5("git@", host, ".com:", path, ".git#" + frag);
    Regroup5("https://", host, ".com/", path, ".git#" + frag);
    LegacyFragmentCore(url, host, path, frag);
  }

  /** The grouping of a five-piece concatenation. */
  lemma Regroup5(a: string, b: string, c: string, d: string, e: string)
    ensures a + b + c + d + e == a + (b + (c + (d + e)))
  {
  }

  /** The newer canonicaliser drops both the fragment and the `.git` of
      the same address. */
  lemma ModernDropsFragment(url: string, host: string, path: string, frag: string)
    requires Repository.PlainParts(host, path) && '\n' !in frag
    requires url == "git@" + host + ".com:" + path + ".git#" + frag
    ensures Repository.GetRepositoryUrl(url) == "https://" + host + ".com/" + path
  {
    assert url == "git@" + "" + host + ".com:" + path + ".git" + ("#" + frag);
    Repository.UrlOfForm(url, "git@", "", host, ".com:", path, ".git", "#" + frag);
  }

  // ---------------------------------------------------------------------
  // readDependencies

  /** The older command-line flags. */
  datatype LegacyFlags = LegacyFlags(dev: bool, allowDowngrade: bool, filter: string)

  /** The flags of the newer fold that the gate reads. */
  function AsFetchFlags(cfg: LegacyFlags): Npm.CmdFlags {
    Npm.CmdFlags(!cfg.dev, cfg.allowDowngrade, cfg.filter, "", false)
  }

  /** The repository address the older fold stores. */
  function LegacyRepositoryOf(m: Npm.Metadata): string {
    match m.repositoryUrl
    case Some(u) => LegacyRepositoryUrl(u)
    case None => ""
  }

  /** The older `fetchNpmRegistry` for one name: the answer whatever its
      status, or nothing on a transport error. */
  function LegacyLookup(registry: Npm.Registry, name: string): Option<Npm.Answer> {
    if name in registry then Some(registry[name]) else None
  }

  /** What the newer fetch makes of the same answer: only a 200 answer
      yields a document. */
  function FetchedMeta(answer: Option<Npm.Answer>): Option<Npm.Metadata> {
    if answer.Some? && answer.value.Found? then Some(answer.value.meta) else None
  }

  /** The older and the newer fetch read the same registry the same way,
      except that the older one also hands over a refused answer. */
  lemma LookupsAgree(registry: Npm.Registry, name: string)
    ensures FetchedMeta(LegacyLookup(registry, name)) == Npm.Lookup(registry, name)
    ensures LegacyLookup(registry, name).None? <==> name !in registry
  {
  }

  /** A dependency the older fold fetches and finds refused: it passes
      the filter, its range parses, and the registry answers with a status
      other than 200. */
  predicate RefusedReached(name: string, range: string, answer: Option<Npm.Answer>, cfg: LegacyFlags) {
    && Npm.PassesFilter(name, cfg.filter) && GetCleanVersion(range).Some?
    && answer == Some(Npm.Refused)
  }

  /** One dependency of `readDependencies`: the filter, the range parse
      (which indexes a nil match when there is no `a.b.c`), the fetch
      without a status check (a refused answer has no `dist-tags`, and its
      type assertion panics), the classifier with its integer direction,
      and the gate on 1, or -1 when downgrades are allowed. */
  function LegacyResolve(name: string, range: string, answer: Option<Npm.Answer>, isDev: bool, cfg: LegacyFlags): Npm.Outcome {
    if cfg.filter != "" && !Contains(name, cfg.filter) then Npm.Skip
    else
      match GetCleanVersion(range)
      case None => Npm.Crash
      case Some(cv) =>
        match answer
        case None => Npm.Skip
        case Some(Refused) => Npm.Crash
        case Some(Found(m)) =>
          var latest := Npm.LatestOf(m);
          if !Classifiable(cv.version, latest) then Npm.Crash
          else
            var (kind, direction) := LegacyUpdateType(cv.version, latest);
            if direction == 1 || (cfg.allowDowngrade && direction == -1) then
              Npm.Store(VersionComparisonItem(
                cv.version, latest, kind, false, m.homepage.GetOr(""), LegacyRepositoryOf(m), cv.prefix, isDev))
            else Npm.Skip
  }

  /** `readDependencies` decides as `FetchDependencies` does on the
      document the newer fetch would hand over: the same skips, the same
      panics, the same rows apart from the older repository address. The
      one difference is a refused answer, which the newer fold skips and
      the older one panics on. */
  lemma LegacyResolveAgrees(name: string, range: string, answer: Option<Npm.Answer>, isDev: bool, cfg: LegacyFlags)
    ensures var o := Npm.Resolve(name, range, FetchedMeta(answer), isDev, AsFetchFlags(cfg));
      var l := LegacyResolve(name, range, answer, isDev, cfg);
      && (l.Crash? <==> o.Crash? || RefusedReached(name, range, answer, cfg))
      && (l.Skip? <==> o.Skip? && !RefusedReached(name, range, answer, cfg))
      && (RefusedReached(name, range, answer, cfg) ==> o.Skip?)
      && (l.Store? <==> o.Store?)
      && (l.Store? ==> l.item == o.item.(repositoryUrl := LegacyRepositoryOf(answer.value.meta)))
  {
    if (cfg.filter == "" || Contains(name, cfg.filter)) && GetCleanVersion(range).Some? && answer.Some? && answer.value.Found? {
      var cv := GetCleanVersion(range).value;
      var latest := Npm.LatestOf(answer.value.meta);
      if Classifiable(cv.version, latest) {
        LegacyUpdateTypeAgrees(cv.version, latest);
      }
    }
  }

  /** Without a refused answer and without a `#` in the document's
      repository address the two outcomes are equal. */
  lemma LegacyResolveEqual(name: string, range: string, answer: Option<Npm.Answer>, isDev: bool, cfg: LegacyFlags)
    requires answer != Some(Npm.Refused)
    requires answer.Some? ==> answer.value.meta.repositoryUrl.Some? ==> '#' !in answer.value.meta.repositoryUrl.value
    ensures LegacyResolve(name, range, answer, isDev, cfg) == Npm.Resolve(name, range, FetchedMeta(answer), isDev, AsFetchFlags(cfg))
  {
    LegacyResolveAgrees(name, range, answer, isDev, cfg);
    if answer.Some? && answer.value.meta.repositoryUrl.Some? {
      LegacyAgreesWithoutFragment(answer.value.meta.repositoryUrl.value);
    }
  }

  /** The outcome of one dependency against the registry. */
  function LegacyResolveIn(registry: Npm.Registry, isDev: bool, cfg: LegacyFlags): (string, string) -> Npm.Outcome {
    (name: string, range: string) => LegacyResolve(name, range, LegacyLookup(registry, name), isDev, cfg)
  }

  /** `readDependencies`: the table after every dependency has been
      resolved against the registry, or a panic. It panics where
      `FetchDependencies` panics, and also where the registry refuses a
      dependency that `FetchDependencies` would skip. */
  method ReadDependencies(deps: map<string, string>, target: Comparison, isDev: bool, registry: Npm.Registry, cfg: LegacyFlags)
    returns (r: Result<Comparison, string>)
    ensures r.Failure? <==>
      exists k :: k in deps &&
        (|| Npm.Resolve(k, deps[k], Npm.Lookup(registry, k), isDev, AsFetchFlags(cfg)).Crash?
         || RefusedReached(k, deps[k], LegacyLookup(registry, k), cfg))
    ensures r.Success? ==> r.value == Npm.Applied(target, deps, LegacyResolveIn(registry, isDev, cfg), deps.Keys)
  {
    var resolve := LegacyResolveIn(registry, isDev, cfg);
    r := Npm.Fold(deps, target, resolve);
    if r.Failure? {
      var k :| k in Npm.CrashedNames(deps, resolve, deps.Keys);
      LookupsAgree(registry, k);
      LegacyResolveAgrees(k, deps[k], LegacyLookup(registry, k), isDev, cfg);
    } else {
      forall k | k in deps
        ensures !Npm.Resolve(k, deps[k], Npm.Lookup(registry, k), isDev, AsFetchFlags(cfg)).Crash?
        ensures !RefusedReached(k, deps[k], LegacyLookup(registry, k), cfg)
      {
        assert k !in Npm.CrashedNames(deps, resolve, deps.Keys);
        LookupsAgree(registry, k);
        LegacyResolveAgrees(k, deps[k], LegacyLookup(registry, k), isDev, cfg);
      }
    }
  }

  // ---------------------------------------------------------------------
  // The prompt's progress label

  /** `printUpdateProgress`: `(current/max)` in decimal. */
  function ProgressLabel(current: int, max: int): string {
    "(" + Itoa(current) + "/" + Itoa(max) + ")"
  }

  /** Reading a label back: the two numbers between the parentheses,
      separated by the one slash. */
  function ParseProgressLabel(s: string): Option<(int, int)> {
    if |s| >= 2 && s[0] == '(' && s[|s| - 1] == ')' then
      var parts := Split(s[1..|s| - 1], '/');
      if |parts| == 2 then Some((Atoi(parts[0]), Atoi(parts[1]))) else None
    else None
  }

  /** A printed number holds no slash. */
  lemma ItoaNoSlash(n: int)
    ensures '/' !in Itoa(n)
  {
    var digits := FormatNat(if n < 0 then -n else n);
    forall k | 0 <= k < |digits| ensures digits[k] != '/' {
      assert IsDigit(digits[k]);
    }
    if n < 0 {
      assert Itoa(n) == "-" + digits;
      forall k | 0 <= k < |Itoa(n)| ensures Itoa(n)[k] != '/' {
        if k > 0 { assert Itoa(n)[k] == digits[k - 1]; }
      }
    }
  }

  /** A label built from two slash-free texts reads back as their two
      numbers. */
  lemma ParseLabelOf(s: string, a: string, b: string)
    requires '/' !in a && '/' !in b
    requires s == "(" + a + "/" + b + ")"
    ensures ParseProgressLabel(s) == Some((Atoi(a), Atoi(b)))
  {
    var inner := a + "/" + b;
    assert s == "(" + inner + ")";
    assert s[1..|s| - 1] == inner;
    SplitCons(a, b, '/');
    SplitNoSep(b, '/');
    assert inner == a + ['/'] + b;
  }

  /** The label gives back both numbers, for every pair of 64-bit ints. */
  lemma ProgressLabelRoundTrip(current: int, max: int)
    requires MinInt64 <= current <= MaxInt64 && MinInt64 <= max <= MaxInt64
    ensures ParseProgressLabel(ProgressLabel(current, max)) == Some((current, max))
  {
    ItoaNoSlash(current);
    ItoaNoSlash(max);
    ParseLabelOf(ProgressLabel(current, max), Itoa(current), Itoa(max));
    AtoiItoa(current);
    AtoiItoa(max);
  }

  // ---------------------------------------------------------------------
  // Selecting rows and writing package.json

  /** The "Update" answer for a row: its copy is marked and put back; a
      name not in the table changes nothing. */
  function Select(table: Comparison, name: string): (r: Comparison)
    ensures r.Keys == table.Keys
    ensures name in table ==> r[name] == table[name].(shouldUpdate := true)
    ensures forall k :: k in table && k != name ==> r[k] == table[k]
  {
    if name in table then table[name := table[name].(shouldUpdate := true)] else table
  }

  /** The "Update" answers given in turn. */
  function SelectAll(table: Comparison, names: seq<string>): Comparison
    decreases |names|
  {
    if |names| == 0 then table else SelectAll(Select(table, names[0]), names[1..])
  }

  /** After the answers, a row is marked exactly when it was marked before
      or was answered "Update"; nothing else in a row changes, and no row
      is added or removed. */
  lemma {:induction false} SelectAllSpec(table: Comparison, names: seq<string>)
    ensures var r := SelectAll(table, names);
      && r.Keys == table.Keys
      && (forall k :: k in r ==> (r[k].shouldUpdate <==> table[k].shouldUpdate || k in names))
      && (forall k :: k in r ==> r[k] == table[k].(shouldUpdate := r[k].shouldUpdate))
    decreases |names|
  {
    if |names| > 0 {
      var t := Select(table, names[0]);
      SelectAllSpec(t, names[1..]);
      var r := SelectAll(table, names);
      assert r == SelectAll(t, names[1..]);
      forall k | k in r ensures (r[k].shouldUpdate <==> table[k].shouldUpdate || k in names) {
        assert k in names <==> k == names[0] || k in names[1..];
      }
    }
  }

  /** The section of package.json a row belongs to. */
  function Section(isDev: bool): string {
    if isDev then "devDependencies" else "dependencies"
  }

  /** The dot path handed to `sjson.Set`: `<section>.<name>`. */
  function WritePath(name: string, isDev: bool): string {
    Section(isDev) + "." + name
  }

  /** The value written: the range operator kept, then the latest version. */
  function WriteValue(item: VersionComparisonItem): string {
    item.versionPrefix + item.latest
  }

  /** Reading a section and a name back out of a written path. */
  function PathName(path: string): Option<(string, bool)> {
    if HasPrefix(path, "devDependencies.") then Some((path[16..], true))
    else if HasPrefix(path, "dependencies.") then Some((path[13..], false))
    else None
  }

  /** A path that reads back names the row whose path it is. */
  lemma PathNameInverse(path: string)
    ensures PathName(path).Some? ==> WritePath(PathName(path).value.0, PathName(path).value.1) == path
  {
    if HasPrefix(path, "devDependencies.") {
      assert path == path[..16] + path[16..];
    } else if HasPrefix(path, "dependencies.") {
      assert path == path[..13] + path[13..];
    }
  }

  /** The path names its row again. */
  lemma PathNameRoundTrip(name: string, isDev: bool)
    ensures PathName(WritePath(name, isDev)) == Some((name, isDev))
  {
    var p := WritePath(name, isDev);
    if isDev {
      assert p[..16] == "devDependencies.";
      assert p[16..] == name;
    } else {
      assert p[2] == 'p' && "devDependencies."[2] == 'v';
      assert p[..13] == "dependencies.";
      assert p[13..] == name;
    }
  }

  /** Different rows get different paths. */
  lemma WritePathInjective(n1: string, d1: bool, n2: string, d2: bool)
    requires WritePath(n1, d1) == WritePath(n2, d2)
    ensures n1 == n2 && d1 == d2
  {
    PathNameRoundTrip(n1, d1);
    PathNameRoundTrip(n2, d2);
  }

  /** The edits `Init` makes: for every row marked for update, its path
      set to its value. */
  function WriteBack(table: Comparison): (edits: map<string, string>)
    ensures forall k :: k in table && table[k].shouldUpdate ==>
      WritePath(k, table[k].isDev) in edits && edits[WritePath(k, table[k].isDev)] == WriteValue(table[k])
  {
    forall k1, k2 | k1 in table && k2 in table && WritePath(k1, table[k1].isDev) == WritePath(k2, table[k2].isDev)
      ensures k1 == k2
    {
      WritePathInjective(k1, table[k1].isDev, k2, table[k2].isDev);
    }
    map k | k in table && table[k].shouldUpdate :: WritePath(k, table[k].isDev) := WriteValue(table[k])
  }

  /** A path is edited exactly when it names a marked row in its own
      section, and it receives that row's range operator and latest
      version. */
  lemma WriteBackSpec(table: Comparison, path: string)
    ensures var edits := WriteBack(table);
      path in edits <==>
        PathName(path).Some? && PathName(path).value.0 in table
        && table[PathName(path).value.0].shouldUpdate
        && table[PathName(path).value.0].isDev == PathName(path).value.1
    ensures var edits := WriteBack(table);
      path in edits ==> edits[path] == WriteValue(table[PathName(path).value.0])
  {
    var edits := WriteBack(table);
    PathNameInverse(path);
    if path in edits {
      var k :| k in table && table[k].shouldUpdate && path == WritePath(k, table[k].isDev);
      PathNameRoundTrip(k, table[k].isDev);
    }
  }

  /** Rows straight from the fold are not marked, so with no "Update"
      answer nothing is written. */
  lemma NothingSelected(table: Comparison)
    requires forall k :: k in table ==> !table[k].shouldUpdate
    ensures WriteBack(table) == map[]
  {
  }
}

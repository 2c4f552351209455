/** `FetchDependencies` of `pkg/utils/npm`: for each declared dependency,
    the filter, the range parse, the registry lookup, the classification and
    the gate that decides whether a row is written to the comparison table.

    The source starts one goroutine per dependency and writes the table
    under a mutex, each key at most once, so the table it leaves is the one
    a sequential pass over the dependencies leaves, whatever the order. The
    registry is a parameter: a map from package name to its answer, where
    a missing name is a transport error. */
module Npm {
  import opened Wrappers
  import opened Strings
  import opened Version
  import opened VersionSummary
  import Repository

  /** The command-line flags (`CmdFlags`). */
  datatype CmdFlags = CmdFlags(noDev: bool, allowDowngrade: bool, filter: string, file: string, updatePatches: bool)

  /** The fields of a registry document the fold reads: `dist-tags.latest`,
      `homepage` and `repository.url`, each possibly absent. */
  datatype Metadata = Metadata(latest: Option<string>, homepage: Option<string>, repositoryUrl: Option<string>)

  /** What the registry answers for a name: a document with status 200,
      or an answer with any other status (a 404 for an unpublished or
      private package), whose body holds no `dist-tags`. */
  datatype Answer = Found(meta: Metadata) | Refused

  /** The registry as the fold sees it. A name it does not hold is a
      transport error. */
  type Registry = map<string, Answer>

  /** What one dependency does to the table: nothing, one row written, or
      a runtime panic that ends the program (a nil match indexed by the
      range parse, or an index out of range in the classifier). */
  datatype Outcome = Skip | Store(item: VersionComparisonItem) | Crash

  /** The name filter: empty lets every name through, otherwise the name
      must contain it (case-sensitively). */
  predicate PassesFilter(name: string, filter: string) {
    filter == "" || Contains(name, filter)
  }

  /** The write gate: an upgrade, or a downgrade when downgrades are
      allowed. */
  predicate Admits(direction: UpgradeDirection, allowDowngrade: bool) {
    direction == Upgrade || (allowDowngrade && direction == Downgrade)
  }

  /** `dist-tags.latest`, or the empty string when it is missing. */
  function LatestOf(m: Metadata): string {
    m.latest.GetOr("")
  }

  /** The canonical repository address, or the empty string when the
      document has none. */
  function RepositoryOf(m: Metadata): string {
    match m.repositoryUrl
    case Some(u) => Repository.GetRepositoryUrl(u)
    case None => ""
  }

  /** The body of the loop and of its goroutine for one dependency. A
      range without a full `a.b.c` makes the range parse index a nil match,
      so the branch for an empty clean version is never reached; a latest
      version with fewer parts than the current one makes the classifier
      index out of range. A failed fetch is skipped. */
  function Resolve(name: string, range: string, meta: Option<Metadata>, isDev: bool, cfg: CmdFlags): (r: Outcome)
    ensures !PassesFilter(name, cfg.filter) ==> r == Skip
    ensures PassesFilter(name, cfg.filter) && GetCleanVersion(range).None? ==> r == Crash
    ensures GetCleanVersion(range).Some? && meta.None? ==> r == Skip
    ensures r.Crash? <==>
      && PassesFilter(name, cfg.filter)
      && (|| GetCleanVersion(range).None?
          || (meta.Some? && !Classifiable(GetCleanVersion(range).value.version, LatestOf(meta.value))))
    ensures r.Store? <==>
      && PassesFilter(name, cfg.filter) && GetCleanVersion(range).Some? && meta.Some?
      && Classifiable(GetCleanVersion(range).value.version, LatestOf(meta.value))
      && Admits(GetVersionUpdateType(GetCleanVersion(range).value.version, LatestOf(meta.value)).direction, cfg.allowDowngrade)
    ensures r.Store? ==>
      var cv := GetCleanVersion(range).value;
      var latest := LatestOf(meta.value);
      r.item == VersionComparisonItem(
        cv.version, latest, GetVersionUpdateType(cv.version, latest).kind, false,
        meta.value.homepage.GetOr(""), RepositoryOf(meta.value), cv.prefix, isDev)
    ensures r.Store? ==> r.item.versionType != NoneT
  {
    if cfg.filter != "" && !Contains(name, cfg.filter) then Skip
    else
      match GetCleanVersion(range)
      case None => Crash
      case Some(cv) =>
        match meta
        case None => Skip
        case Some(m) =>
          var latest := LatestOf(m);
          if !Classifiable(cv.version, latest) then Crash
          else
            var t := GetVersionUpdateType(cv.version, latest);
            if t.direction == Upgrade || (cfg.allowDowngrade && t.direction == Downgrade) then
              Store(VersionComparisonItem(
                cv.version, latest, t.kind, false, m.homepage.GetOr(""), RepositoryOf(m), cv.prefix, isDev))
            else Skip
  }

  /** The names among `keys` whose dependency writes a row. */
  function StoredNames(deps: map<string, string>, resolve: (string, string) -> Outcome, keys: set<string>): set<string> {
    set k | k in keys && k in deps && resolve(k, deps[k]).Store?
  }

  /** The table after the dependencies named in `keys` have been handled,
      in any order: their rows written over `target`, every other entry
      kept. */
  function Applied(target: Comparison, deps: map<string, string>, resolve: (string, string) -> Outcome, keys: set<string>): Comparison {
    map k | k in target.Keys + StoredNames(deps, resolve, keys) ::
      if k in StoredNames(deps, resolve, keys) then resolve(k, deps[k]).item else target[k]
  }

  /** Handling one more dependency updates the table by its outcome. */
  lemma AppliedStep(target: Comparison, deps: map<string, string>, resolve: (string, string) -> Outcome, done: set<string>, k: string)
    requires k in deps && k !in done
    ensures var next := Applied(target, deps, resolve, done + {k});
      var now := Applied(target, deps, resolve, done);
      next == if resolve(k, deps[k]).Store? then now[k := resolve(k, deps[k]).item] else now
  {
    var next := Applied(target, deps, resolve, done + {k});
    var now := Applied(target, deps, resolve, done);
    assert StoredNames(deps, resolve, done + {k}) ==
      StoredNames(deps, resolve, done) + (if resolve(k, deps[k]).Store? then {k} else {});
    var expected := if resolve(k, deps[k]).Store? then now[k := resolve(k, deps[k]).item] else now;
    assert next.Keys == expected.Keys;
  }

  /** Before any dependency is handled the table is `target`. */
  lemma AppliedNone(target: Comparison, deps: map<string, string>, resolve: (string, string) -> Outcome)
    ensures Applied(target, deps, resolve, {}) == target
  {
    assert StoredNames(deps, resolve, {}) == {};
  }

  /** The names among `keys` whose dependency panics. */
  function CrashedNames(deps: map<string, string>, resolve: (string, string) -> Outcome, keys: set<string>): set<string> {
    set k | k in keys && k in deps && resolve(k, deps[k]).Crash?
  }

  /** Handling one more dependency adds it to the panicking names exactly
      when it panics. */
  lemma CrashedStep(deps: map<string, string>, resolve: (string, string) -> Outcome, done: set<string>, k: string)
    requires k in deps
    ensures CrashedNames(deps, resolve, done + {k}) ==
      CrashedNames(deps, resolve, done) + (if resolve(k, deps[k]).Crash? then {k} else {})
  {
  }

  /** The sequential pass over the dependencies in whatever order the map
      yields them: the table it leaves, or the error of a panic. */
  method Fold(deps: map<string, string>, target: Comparison, resolve: (string, string) -> Outcome)
    returns (r: Result<Comparison, string>)
    ensures r.Failure? <==> CrashedNames(deps, resolve, deps.Keys) != {}
    ensures r.Success? ==> r.value == Applied(target, deps, resolve, deps.Keys)
  {
    var remaining := deps.Keys;
    var table := target;
    var crashed := false;
    ghost var done: set<string> := {};
    AppliedNone(target, deps, resolve);
    while remaining != {}
      invariant remaining !! done && remaining + done == deps.Keys
      invariant crashed <==> CrashedNames(deps, resolve, done) != {}
      invariant table == Applied(target, deps, resolve, done)
      decreases |remaining|
    {
      var k :| k in remaining;
      AppliedStep(target, deps, resolve, done, k);
      CrashedStep(deps, resolve, done, k);
      var outcome := resolve(k, deps[k]);
      if outcome.Store? {
        table := table[k := outcome.item];
      } else if outcome.Crash? {
        crashed := true;
      }
      remaining := remaining - {k};
      done := done + {k};
    }
    if crashed {
      r := Failure("panic");
    } else {
      r := Success(table);
    }
  }

  /** One entry of the table after a pass: present when it was there
      before or its dependency wrote a row, and holding that row if so. */
  lemma AppliedEntry(target: Comparison, deps: map<string, string>, resolve: (string, string) -> Outcome, k: string)
    ensures var r := Applied(target, deps, resolve, deps.Keys);
      && (k in r <==> k in target || (k in deps && resolve(k, deps[k]).Store?))
      && (k in r ==> r[k] == if k in deps && resolve(k, deps[k]).Store? then resolve(k, deps[k]).item else target[k])
  {
  }

  /** `FetchNpmRegistry` for one name: the document of a 200 answer; a
      transport error and any other status are both an error. */
  function Lookup(registry: Registry, name: string): (r: Option<Metadata>)
    ensures r.Some? <==> name in registry && registry[name].Found?
    ensures r.Some? ==> r.value == registry[name].meta
  {
    if name in registry then
      match registry[name]
      case Found(m) => Some(m)
      case Refused => None
    else None
  }

  /** The outcome of one dependency against the registry. */
  function ResolveIn(registry: Registry, isDev: bool, cfg: CmdFlags): (string, string) -> Outcome {
    (name: string, range: string) => Resolve(name, range, Lookup(registry, name), isDev, cfg)
  }

  /** `FetchDependencies`: the comparison table after every dependency has
      been resolved against the registry, or a panic. Rows are written
      only for dependencies that pass the gate; every other entry of
      `target` is kept. `lockedDependencyCount` is never assigned, so it is
      always 0. */
  method FetchDependencies(deps: map<string, string>, target: Comparison, isDev: bool, registry: Registry, cfg: CmdFlags)
    returns (r: Result<Comparison, string>, lockedDependencyCount: int)
    ensures lockedDependencyCount == 0
    ensures r.Failure? <==>
      exists k :: k in deps && Resolve(k, deps[k], Lookup(registry, k), isDev, cfg).Crash?
    ensures r.Success? ==> r.value == Applied(target, deps, ResolveIn(registry, isDev, cfg), deps.Keys)
  {
    var resolve := ResolveIn(registry, isDev, cfg);
    r := Fold(deps, target, resolve);
    if r.Failure? {
      var k :| k in CrashedNames(deps, resolve, deps.Keys);
      assert k in deps && Resolve(k, deps[k], Lookup(registry, k), isDev, cfg).Crash?;
    } else {
      forall k | k in deps
        ensures !Resolve(k, deps[k], Lookup(registry, k), isDev, cfg).Crash?
      {
        assert k !in CrashedNames(deps, resolve, deps.Keys);
      }
    }
    lockedDependencyCount := 0;
  }

  /** Entries of `target` outside the dependencies are kept as they were. */
  lemma OthersKept(target: Comparison, deps: map<string, string>, registry: Registry, isDev: bool, cfg: CmdFlags, k: string)
    requires k in target && k !in deps
    ensures var r := Applied(target, deps, ResolveIn(registry, isDev, cfg), deps.Keys);
      k in r && r[k] == target[k]
  {
    AppliedEntry(target, deps, ResolveIn(registry, isDev, cfg), k);
  }

  /** A row in the table for a dependency passed the filter, has a range
      that parses and was fetched; it is a real update, not yet selected,
      and carries the dependency kind. With downgrades disallowed, it is
      an upgrade. */
  lemma RowOfDependency(target: Comparison, deps: map<string, string>, registry: Registry, isDev: bool, cfg: CmdFlags, k: string)
    requires k in deps
    requires k in Applied(target, deps, ResolveIn(registry, isDev, cfg), deps.Keys)
    requires k !in target
    ensures var row := Applied(target, deps, ResolveIn(registry, isDev, cfg), deps.Keys)[k];
      && PassesFilter(k, cfg.filter) && GetCleanVersion(deps[k]).Some?
      && k in registry && registry[k].Found?
      && row.current == GetCleanVersion(deps[k]).value.version
      && row.versionPrefix == GetCleanVersion(deps[k]).value.prefix
      && row.versionType != NoneT && !row.shouldUpdate && row.isDev == isDev
      && (!cfg.allowDowngrade ==> GetVersionUpdateType(row.current, row.latest).direction == Upgrade)
  {
    var resolve := ResolveIn(registry, isDev, cfg);
    AppliedEntry(target, deps, resolve, k);
    var o := Resolve(k, deps[k], Lookup(registry, k), isDev, cfg);
    assert resolve(k, deps[k]) == o;
  }
}

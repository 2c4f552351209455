/** `pkg/utils/packagejson/getPackageManager.go`: the install command shown
    for a package manager, and the manager guessed from the lock files. */
module PackageJson {

  /** The managers the updater knows, in the order their lock files are
      probed. */
  const Managers: seq<string> := ["npm", "pnpm", "bun", "yarn"]

  /** The manager assumed when no lock file is found. */
  const DefaultManager: string := "npm"

  /** The lock file that marks each manager. */
  function LockFile(manager: string): string {
    if manager == "npm" then "package-lock.json"
    else if manager == "pnpm" then "pnpm-lock.yaml"
    else if manager == "bun" then "bun.lockb"
    else if manager == "yarn" then "yarn.lock"
    else ""
  }

  /** The install command for a manager. */
  function InstallCommand(manager: string): string {
    manager + " install"
  }

  /** `GetInstallationCommand`: the four known managers keep their own
      name; anything else, the empty string included, falls back to npm. */
  function GetInstallationCommand(packageManager: string): (r: string)
    ensures packageManager in Managers ==> r == InstallCommand(packageManager)
    ensures packageManager !in Managers ==> r == InstallCommand(DefaultManager)
    ensures exists m :: m in Managers && r == InstallCommand(m)
  {
    if packageManager == "npm" then "npm install"
    else if packageManager == "pnpm" then "pnpm install"
    else if packageManager == "yarn" then "yarn install"
    else if packageManager == "bun" then "bun install"
    else "npm install"
  }

  /** The manager an install command names: the text before its trailing
      ` install`, or the empty string. */
  function ManagerOfCommand(command: string): string
  {
    if |command| >= 8 && command[|command| - 8..] == " install" then command[..|command| - 8] else ""
  }

  /** The command names its manager back, so the mapping is one-to-one on
      the known managers and the fallback is exactly npm's command. */
  lemma CommandNamesManager(packageManager: string)
    ensures ManagerOfCommand(GetInstallationCommand(packageManager))
      == (if packageManager in Managers then packageManager else DefaultManager)
  {
    var m := if packageManager in Managers then packageManager else DefaultManager;
    var c := InstallCommand(m);
    assert c[..|c| - 8] == m;
    assert c[|c| - 8..] == " install";
  }

  /** The outcomes `GetPackageManager` can have, given the lock files that
      exist: the probes race, so any manager whose lock file is present may
      win; with none present the answer is npm. */
  predicate PossibleManager(lockFiles: set<string>, manager: string) {
    if exists m :: m in Managers && LockFile(m) in lockFiles then
      manager in Managers && LockFile(manager) in lockFiles
    else manager == DefaultManager
  }

  /** The lock file of `only` is there and no other manager's is. */
  predicate LoneLockFile(lockFiles: set<string>, only: string) {
    && only in Managers && LockFile(only) in lockFiles
    && forall m :: m in Managers && m != only ==> LockFile(m) !in lockFiles
  }

  /** `GetPackageManager` answers npm without a lock file, and otherwise
      the manager of a lock file that is there: a manager other than npm
      is only ever named for its own lock file, each lock file that is
      there can win the race, and a lone lock file always wins. */
  lemma ManagerFromLockFiles(lockFiles: set<string>, manager: string)
    requires PossibleManager(lockFiles, manager)
    ensures manager != DefaultManager ==> LockFile(manager) in lockFiles
    ensures (forall m :: m in Managers ==> LockFile(m) !in lockFiles) ==> manager == DefaultManager
    ensures manager == DefaultManager && LockFile(DefaultManager) !in lockFiles ==>
      forall m :: m in Managers ==> LockFile(m) !in lockFiles
    ensures forall m :: m in Managers && LockFile(m) in lockFiles ==> PossibleManager(lockFiles, m)
    ensures forall only :: LoneLockFile(lockFiles, only) ==> manager == only
  {
  }

  /** Whatever `GetPackageManager` answers, the install command is that
      manager's own: its answers and the fallback agree. */
  lemma PossibleManagerCommand(lockFiles: set<string>, manager: string)
    requires PossibleManager(lockFiles, manager)
    ensures manager in Managers
    ensures GetInstallationCommand(manager) == InstallCommand(manager)
  {
  }
}

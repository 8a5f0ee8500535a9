/** The settings file (`settings.json`) as the program sees it through
    `jmod.getvalue(key, default)` and `jmod.setvalue(key, value)`: one optional
    value per key the core reads, and the record shapes stored under them. */
module Settings {
  import opened Wrappers
  import opened Dicts

  /** A user record is a JSON object of string fields. The server reads
      `username`, `password`, `home_dir` and `perm`; the editor writes
      `permissions` as well. */
  type Record = map<string, string>

  const UsernameField := "username"
  const PasswordField := "password"
  const HomeDirField := "home_dir"
  const PermField := "perm"
  const PermissionsField := "permissions"

  /** The user directory stored under `PyTrain_users`, keyed by username. */
  type Directory = Dict<Record>

  /** A saved permission set, stored under `permission_sets` by its name. */
  datatype PermissionSet = PermissionSet(name: string, description: string, permissions: string)

  type PermissionSets = Dict<PermissionSet>

  /** The keys of `settings.json` the core reads; `None` is an absent key. */
  datatype Store = Store(
    rootPassword: Option<string>,            // "RootPassword"
    users: Option<Directory>,                // "PyTrain_users"
    anonAllowed: Option<bool>,               // "AnonAllowed"
    port: Option<int>,                       // "port"
    permissionSets: Option<PermissionSets>   // "permission_sets"
  )

  const DefaultRootPassword := "password"
  const DefaultPort := 6464

  /** `jmod.getvalue('RootPassword', default='password')`. */
  function RootPassword(s: Store): (r: string)
    ensures s.rootPassword.Some? ==> r == s.rootPassword.value
    ensures s.rootPassword.None? ==> r == DefaultRootPassword
  {
    s.rootPassword.GetOr(DefaultRootPassword)
  }

  /** `jmod.getvalue('PyTrain_users', default={})`. */
  function Users(s: Store): (r: Directory)
    ensures s.users.Some? ==> r == s.users.value
    ensures s.users.None? ==> r == []
  {
    s.users.GetOr([])
  }

  /** `jmod.getvalue('AnonAllowed', default=False)`. */
  function AnonAllowed(s: Store): (r: bool)
    ensures s.anonAllowed.Some? ==> r == s.anonAllowed.value
    ensures s.anonAllowed.None? ==> !r
  {
    s.anonAllowed.GetOr(false)
  }

  /** `jmod.getvalue('port', default=6464)`: the listening port, read once. */
  function Port(s: Store): (r: int)
    ensures s.port.Some? ==> r == s.port.value
    ensures s.port.None? ==> r == DefaultPort
  {
    s.port.GetOr(DefaultPort)
  }

  /** `jmod.getvalue('permission_sets', default={})`. */
  function SavedSets(s: Store): (r: PermissionSets)
    ensures s.permissionSets.Some? ==> r == s.permissionSets.value
    ensures s.permissionSets.None? ==> r == []
  {
    s.permissionSets.GetOr([])
  }

  /** `jmod.setvalue('PyTrain_users', users)`. */
  function SetUsers(s: Store, users: Directory): (r: Store)
    ensures Users(r) == users
  {
    s.(users := Some(users))
  }

  /** `jmod.setvalue('permission_sets', sets)`. */
  function SetSavedSets(s: Store, sets: PermissionSets): (r: Store)
    ensures SavedSets(r) == sets
  {
    s.(permissionSets := Some(sets))
  }

  /** Every record is stored under its own `username` field. The user
      manager keeps this; the server's removal guard depends on it. */
  predicate KeysMatch(d: Directory) {
    forall p :: p in d ==> UsernameField in p.1 && p.1[UsernameField] == p.0
  }
}

/** The server's user table (`DummyAuthorizer.user_table`) and the three
    operations the core calls on it: `add_user`, `add_anonymous` and
    `remove_user`. The authorizer refuses a name it already holds, a home
    directory that is not a directory, and a permission letter outside
    `elradfmwMT`, each by raising `ValueError`. */
module Authorizer {
  import opened Wrappers
  import opened Errors

  datatype Entry = Entry(password: string, homeDir: string, perm: string)

  type Table = map<string, Entry>

  const ReadPerms := "elr"
  const WritePerms := "adfmwMT"

  predicate IsPermLetter(c: char) {
    c in ReadPerms + WritePerms
  }

  /** All letters of `perm` are known permissions. */
  predicate ValidPerm(perm: string) {
    forall i :: 0 <= i < |perm| ==> IsPermLetter(perm[i])
  }

  /** The first letter `_check_permissions` rejects, if any. */
  function FirstBadLetter(perm: string): (r: Option<char>)
    ensures r.None? <==> ValidPerm(perm)
    ensures r.Some? ==> r.value in perm && !IsPermLetter(r.value)
  {
    if |perm| == 0 then None
    else if !IsPermLetter(perm[0]) then Some(perm[0])
    else
      var r := FirstBadLetter(perm[1..]);
      assert r.Some? ==> r.value in perm[1..];
      r
  }

  /** `add_user(name, password, homedir, perm)`; `dirs` are the paths for
      which `os.path.isdir` holds. */
  function AddUser(t: Table, dirs: set<string>, name: string, password: string, homeDir: string, perm: string): (r: Result<Table, Error>)
    ensures r.Success? <==> name !in t && homeDir in dirs && ValidPerm(perm)
    ensures name in t ==> r == Failure(UserExists(name))
    ensures r.Success? ==> r.value.Keys == t.Keys + {name}
    ensures r.Success? ==> r.value[name] == Entry(password, homeDir, perm)
    ensures r.Success? ==> forall k :: k in t ==> r.value[k] == t[k]
  {
    if name in t then Failure(UserExists(name))
    else if homeDir !in dirs then Failure(NoSuchDirectory(homeDir))
    else match FirstBadLetter(perm)
      case Some(c) => Failure(NoSuchPermission(c))
      case None => Success(t[name := Entry(password, homeDir, perm)])
  }

  const Anonymous := "anonymous"

  /** `add_anonymous(homedir, perm)`: the user `anonymous` with an empty password. */
  function AddAnonymous(t: Table, dirs: set<string>, homeDir: string, perm: string): (r: Result<Table, Error>)
    ensures r.Success? <==> Anonymous !in t && homeDir in dirs && ValidPerm(perm)
    ensures r.Success? ==> r.value == t[Anonymous := Entry("", homeDir, perm)]
  {
    AddUser(t, dirs, Anonymous, "", homeDir, perm)
  }

  /** `remove_user(name)`: `del user_table[name]`. */
  function RemoveUser(t: Table, name: string): (r: Result<Table, Error>)
    ensures r.Failure? <==> name !in t
    ensures r.Success? ==> r.value.Keys == t.Keys - {name}
    ensures r.Success? ==> forall k :: k in r.value ==> r.value[k] == t[k]
  {
    if name in t then Success(t - {name}) else Failure(KeyError(name))
  }
}

/** `ftps.main` without the network: seeding the authorizer from the settings
    file, and the pass that runs after every `serve_forever(blocking=False)`
    to pick up users added to the settings file since. Any exception here
    leaves `main` (only `KeyboardInterrupt` is caught), so each operation
    either yields the new table or the error that ends the server. */
module Server {
  import opened Wrappers
  import opened Dicts
  import opened Settings
  import opened Errors
  import opened Authorizer
  import Host

  const Root := "root"
  const RootHome := "."
  const RootPerms := "elradfmw"
  const AnonHome := "."
  const AnonPerms := "elr"

  /** `user[f]` on a record; a missing field raises `KeyError`. */
  function Field(rec: Record, f: string): Result<string, Error> {
    if f in rec then Success(rec[f]) else Failure(KeyError(f))
  }

  /** The record holds the three fields passed to `add_user` after the name. */
  predicate HasEntryFields(rec: Record) {
    PasswordField in rec && HomeDirField in rec && PermField in rec
  }

  /** The authorizer accepts the record's home directory and permissions. */
  predicate Addable(rec: Record, dirs: set<string>) {
    HasEntryFields(rec) && rec[HomeDirField] in dirs && ValidPerm(rec[PermField])
  }

  /** The entry the server makes of a record: it reads `perm`, never
      `permissions`. */
  function EntryOf(rec: Record): Entry
    requires HasEntryFields(rec)
  {
    Entry(rec[PasswordField], rec[HomeDirField], rec[PermField])
  }

  /** `authorizer.add_user(name, user['password'], homedir=user['home_dir'],
      perm=user['perm'])`, the arguments read left to right. */
  function AddRecord(t: Table, dirs: set<string>, name: string, rec: Record): (r: Result<Table, Error>)
    ensures r.Success? <==> name !in t && Addable(rec, dirs)
    ensures r.Success? ==> r.value == t[name := EntryOf(rec)]
  {
    var password :- Field(rec, PasswordField);
    var homeDir :- Field(rec, HomeDirField);
    var perm :- Field(rec, PermField);
    AddUser(t, dirs, name, password, homeDir, perm)
  }

  /** The `username` fields of a directory's records. */
  function Usernames(d: Directory): set<string> {
    if |d| == 0 then {}
    else (if UsernameField in d[0].1 then {d[0].1[UsernameField]} else {}) + Usernames(d[1..])
  }

  // ---------------------------------------------------------------- seeding

  /** The loop in `ftps.main` that adds every stored user to the authorizer,
      starting from table `t`. */
  function SeedUsers(rest: Directory, t: Table, dirs: set<string>): (r: Result<Table, Error>)
    ensures r.Success? <==> Seedable(rest, t, dirs)
    ensures r.Success? ==> AllSeeded(rest, t, r.value, dirs)
    ensures r.Success? ==> UsernamesDistinct(rest)
    ensures r.Success? ==> r.value.Keys == t.Keys + Usernames(rest)
    ensures r.Success? ==> forall k :: k in t ==> r.value[k] == t[k]
    decreases |rest|
  {
    if |rest| == 0 then Success(t)
    else
      SeedableHead(rest, t, dirs);
      var name :- Field(rest[0].1, UsernameField);
      var t1 :- AddRecord(t, dirs, name, rest[0].1);
      var r := SeedUsers(rest[1..], t1, dirs);
      if r.Success? then
        SeedUsersStep(rest, t, t1, r.value, dirs);
        UsernamesStep(rest, t, t1, r.value);
        r
      else r
  }

  /** What the loop needs to get through `rest` from table `t`: every record
      has a `username` not yet in `t` and fields the authorizer accepts, and
      no two records share a username. */
  ghost predicate Seedable(rest: Directory, t: Table, dirs: set<string>) {
    && UsernamesDistinct(rest)
    && forall p :: p in rest ==> UsernameField in p.1 && p.1[UsernameField] !in t && Addable(p.1, dirs)
  }

  /** A seedable list starts with a record the authorizer takes, and the rest
      is seedable from the table holding it. */
  lemma SeedableHead(rest: Directory, t: Table, dirs: set<string>)
    requires |rest| > 0
    ensures Seedable(rest, t, dirs) ==>
      && UsernameField in rest[0].1 && rest[0].1[UsernameField] !in t && Addable(rest[0].1, dirs)
      && Seedable(rest[1..], t[rest[0].1[UsernameField] := EntryOf(rest[0].1)], dirs)
  {
    if Seedable(rest, t, dirs) {
      assert rest[0] in rest;
      var name := rest[0].1[UsernameField];
      forall p | p in rest[1..]
        ensures p in rest && UsernameField in p.1 && p.1[UsernameField] != name
      {
        var j :| 0 <= j < |rest[1..]| && rest[1..][j] == p;
        assert rest[j + 1] == p;
      }
      forall i, j | 0 <= i < j < |rest[1..]|
        ensures rest[1..][i] == rest[i + 1] && rest[1..][j] == rest[j + 1]
      {
      }
    }
  }

  /** Every record of `rest` has a `username` absent from `t`, is accepted by
      the authorizer, and is in `t2` with its own entry. */
  ghost predicate AllSeeded(rest: Directory, t: Table, t2: Table, dirs: set<string>) {
    forall p :: p in rest ==>
      UsernameField in p.1 && Addable(p.1, dirs) && p.1[UsernameField] !in t
        && p.1[UsernameField] in t2 && t2[p.1[UsernameField]] == EntryOf(p.1)
  }

  /** No two records share a `username`. */
  ghost predicate UsernamesDistinct(d: Directory) {
    forall i, j :: 0 <= i < j < |d| ==>
      UsernameField in d[i].1 && UsernameField in d[j].1 && d[i].1[UsernameField] != d[j].1[UsernameField]
  }

  /** The step of `SeedUsers` for the records. */
  lemma SeedUsersStep(rest: Directory, t: Table, t1: Table, t2: Table, dirs: set<string>)
    requires |rest| > 0 && UsernameField in rest[0].1
    requires rest[0].1[UsernameField] !in t && Addable(rest[0].1, dirs)
    requires t1 == t[rest[0].1[UsernameField] := EntryOf(rest[0].1)]
    requires AllSeeded(rest[1..], t1, t2, dirs) && UsernamesDistinct(rest[1..])
    requires forall k :: k in t1 ==> k in t2 && t2[k] == t1[k]
    ensures AllSeeded(rest, t, t2, dirs) && UsernamesDistinct(rest)
  {
    assert forall p :: p in rest ==> p == rest[0] || p in rest[1..];
    forall j | 0 < j < |rest|
      ensures UsernameField in rest[j].1 && rest[j].1[UsernameField] != rest[0].1[UsernameField]
    {
      assert rest[1..][j - 1] == rest[j];
    }
    forall i, j | 1 <= i < j < |rest|
      ensures rest[1..][i - 1] == rest[i] && rest[1..][j - 1] == rest[j]
    {
    }
  }

  /** The step of `SeedUsers` for the names and the entries kept. */
  lemma UsernamesStep(rest: Directory, t: Table, t1: Table, t2: Table)
    requires |rest| > 0 && UsernameField in rest[0].1
    requires t1.Keys == t.Keys + {rest[0].1[UsernameField]} && rest[0].1[UsernameField] !in t
    requires forall k :: k in t ==> t1[k] == t[k]
    requires t2.Keys == t1.Keys + Usernames(rest[1..])
    requires forall k :: k in t1 ==> t2[k] == t1[k]
    ensures t2.Keys == t.Keys + Usernames(rest)
    ensures forall k :: k in t ==> t2[k] == t[k]
  {
  }

  /** The authorizer `ftps.main` builds before serving: `root` with the stored
      root password, every stored user, and `anonymous` when allowed. */
  function Seed(rootPassword: string, snap: Directory, anonAllowed: bool, dirs: set<string>): (r: Result<Table, Error>)
    ensures r.Success? <==>
      && RootHome in dirs
      && Seedable(snap, RootOnly(rootPassword), dirs)
      && (anonAllowed ==> Anonymous !in Usernames(snap))
  {
    var t0 :- AddUser(map[], dirs, Root, rootPassword, RootHome, RootPerms);
    var t1 :- SeedUsers(snap, t0, dirs);
    if anonAllowed then AddAnonymous(t1, dirs, AnonHome, AnonPerms) else Success(t1)
  }

  /** `ftps.main` reading its settings and the host's directories: it
      starts iff "." is a directory, the stored users can be seeded after
      `root`, and no stored user is `anonymous` when anonymous access is on;
      `root` then has the stored password, or "password" when none is
      stored. */
  function Startup(s: Store, host: Host.Host): (r: Result<Table, Error>)
    ensures r.Success? <==>
      && RootHome in host.dirs
      && Seedable(Users(s), RootOnly(RootPassword(s)), host.dirs)
      && (AnonAllowed(s) ==> Anonymous !in Usernames(Users(s)))
    ensures r.Success? ==> Root in r.value && r.value[Root] == Entry(RootPassword(s), RootHome, RootPerms)
  {
    SeedContents(RootPassword(s), Users(s), AnonAllowed(s), host.dirs);
    Seed(RootPassword(s), Users(s), AnonAllowed(s), host.dirs)
  }

  /** With nothing stored, the server starts with `root` alone, whose
      password is "password", provided "." is a directory. */
  lemma FreshStartup(host: Host.Host)
    ensures Startup(Store(None, None, None, None, None), host)
         == if RootHome in host.dirs then Success(RootOnly(DefaultRootPassword))
            else Failure(NoSuchDirectory(RootHome))
  {
    var s := Store(None, None, None, None, None);
    assert Users(s) == [] && !AnonAllowed(s) && RootPassword(s) == DefaultRootPassword;
    if RootHome in host.dirs {
      assert AddUser(map[], host.dirs, Root, DefaultRootPassword, RootHome, RootPerms) == Success(RootOnly(DefaultRootPassword));
    }
  }

  /** What a successful seeding holds for the stored users: `root` with the
      stored root password, home "." and `elradfmw`, and every stored user
      under its `username` field with its own password, home and `perm`. A
      stored user named `root` or two records sharing a username make
      seeding fail. */
  lemma SeedContents(rootPassword: string, snap: Directory, anonAllowed: bool, dirs: set<string>)
    ensures var r := Seed(rootPassword, snap, anonAllowed, dirs);
      r.Success? ==> Root in r.value && r.value[Root] == Entry(rootPassword, RootHome, RootPerms)
    ensures var r := Seed(rootPassword, snap, anonAllowed, dirs);
      r.Success? ==> forall p :: p in snap ==>
        UsernameField in p.1 && p.1[UsernameField] != Root && Addable(p.1, dirs)
          && p.1[UsernameField] in r.value && r.value[p.1[UsernameField]] == EntryOf(p.1)
    ensures Seed(rootPassword, snap, anonAllowed, dirs).Success? ==> UsernamesDistinct(snap)
  {
    SeedUnfolds(rootPassword, snap, anonAllowed, dirs);
  }

  /** The names a successful seeding holds: `root`, the stored usernames, and
      `anonymous` (home ".", `elr`) exactly when allowed or stored. A stored
      user called `anonymous` while anonymous access is allowed makes seeding
      fail. */
  lemma SeedKeys(rootPassword: string, snap: Directory, anonAllowed: bool, dirs: set<string>)
    ensures var r := Seed(rootPassword, snap, anonAllowed, dirs);
      r.Success? && anonAllowed ==>
        Anonymous !in Usernames(snap) && Anonymous in r.value && r.value[Anonymous] == Entry("", AnonHome, AnonPerms)
    ensures var r := Seed(rootPassword, snap, anonAllowed, dirs);
      r.Success? ==> r.value.Keys == {Root} + Usernames(snap) + (if anonAllowed then {Anonymous} else {})
  {
    SeedUnfolds(rootPassword, snap, anonAllowed, dirs);
  }

  /** The table holding only `root`, as `ftps.main` first builds it. */
  function RootOnly(rootPassword: string): Table {
    map[Root := Entry(rootPassword, RootHome, RootPerms)]
  }

  /** A successful seeding is the stored users added after `root`, then
      `anonymous` when allowed. */
  lemma SeedUnfolds(rootPassword: string, snap: Directory, anonAllowed: bool, dirs: set<string>)
    ensures Seed(rootPassword, snap, anonAllowed, dirs).Success? ==> SeedUsers(snap, RootOnly(rootPassword), dirs).Success?
    ensures Seed(rootPassword, snap, anonAllowed, dirs).Success? ==>
      var t1 := SeedUsers(snap, RootOnly(rootPassword), dirs).value;
      && (anonAllowed ==> Anonymous !in t1)
      && Seed(rootPassword, snap, anonAllowed, dirs).value
           == if anonAllowed then t1[Anonymous := Entry("", AnonHome, AnonPerms)] else t1
  {
    if Seed(rootPassword, snap, anonAllowed, dirs).Success? {
      assert AddUser(map[], dirs, Root, rootPassword, RootHome, RootPerms) == Success(RootOnly(rootPassword));
    }
  }

  // ---------------------------------------------------------------- reconciliation, as written

  /** One iteration of the loop over the re-read user list: add the user if
      its name is not in the table; then remove it if its name is in the table
      but not a key of the list. */
  function Visit(snap: Directory, rec: Record, t: Table, dirs: set<string>): (r: Result<Table, Error>)
    ensures r.Failure? <==> UsernameField !in rec || (rec[UsernameField] !in t && !Addable(rec, dirs))
    ensures UsernameField !in rec ==> r == Failure(KeyError(UsernameField))
    ensures r.Success? ==>
      var name := rec[UsernameField];
      var added := if name in t then t else t[name := EntryOf(rec)];
      r.value == if HasKey(snap, name) then added else added - {name}
  {
    var name :- Field(rec, UsernameField);
    var t1 :- (if name in t then Success(t) else AddRecord(t, dirs, name, rec));
    if name in t1 && !HasKey(snap, name) then RemoveUser(t1, name) else Success(t1)
  }

  /** The loop over the records `rest` of the re-read list `snap`. */
  function PassOver(rest: Directory, snap: Directory, t: Table, dirs: set<string>): Result<Table, Error>
    decreases |rest|
  {
    if |rest| == 0 then Success(t)
    else
      var t1 :- Visit(snap, rest[0].1, t, dirs);
      PassOver(rest[1..], snap, t1, dirs)
  }

  /** The reconciliation pass of `ftps.main` over the re-read list `snap`.
      Whatever the keys of the list, a name ends up in the table iff it was
      there and no record carries it as `username`, or some record carries it
      and it is a key of the list; an entry that stays is never changed. */
  function Pass(snap: Directory, t: Table, dirs: set<string>): (r: Result<Table, Error>)
    ensures r.Success? ==> forall k :: k in r.value <==>
      (k in t && k !in Usernames(snap)) || (k in Usernames(snap) && HasKey(snap, k))
    ensures r.Success? ==> forall k :: k in t && k in r.value ==> r.value[k] == t[k]
  {
    PassOverFrame(snap, snap, t, dirs);
    PassOver(snap, snap, t, dirs)
  }

  /** The names and entries any part of a pass leaves, as stated for `Pass`. */
  lemma {:induction false} PassOverFrame(rest: Directory, snap: Directory, t: Table, dirs: set<string>)
    ensures var r := PassOver(rest, snap, t, dirs);
      r.Success? ==> forall k :: k in r.value <==>
        (k in t && k !in Usernames(rest)) || (k in Usernames(rest) && HasKey(snap, k))
    ensures var r := PassOver(rest, snap, t, dirs);
      r.Success? ==> forall k :: k in t && k in r.value ==> r.value[k] == t[k]
    decreases |rest|
  {
    if |rest| > 0 && PassOver(rest, snap, t, dirs).Success? {
      var t1 := Visit(snap, rest[0].1, t, dirs).value;
      PassOverFrame(rest[1..], snap, t1, dirs);
      PassFrameStep(snap, rest, t, t1, PassOver(rest[1..], snap, t1, dirs).value);
    }
  }

  /** One step of `PassOverFrame`: a visit followed by the rest of the pass. */
  lemma PassFrameStep(snap: Directory, rest: Directory, t: Table, t1: Table, t2: Table)
    requires |rest| > 0 && UsernameField in rest[0].1
    requires var name := rest[0].1[UsernameField];
      forall k :: k in t1 <==> (k in t && k != name) || (k == name && HasKey(snap, name))
    requires forall k :: k in t && k in t1 ==> t1[k] == t[k]
    requires forall k :: k in t2 <==>
      (k in t1 && k !in Usernames(rest[1..])) || (k in Usernames(rest[1..]) && HasKey(snap, k))
    requires forall k :: k in t1 && k in t2 ==> t2[k] == t1[k]
    ensures forall k :: k in t2 <==>
      (k in t && k !in Usernames(rest)) || (k in Usernames(rest) && HasKey(snap, k))
    ensures forall k :: k in t && k in t2 ==> t2[k] == t[k]
  {
    assert Usernames(rest) == {rest[0].1[UsernameField]} + Usernames(rest[1..]);
  }

  /** Every pair of a dict has its key among the dict's keys. */
  lemma PairKeyIsKey(d: Directory, p: (string, Record))
    requires p in d
    ensures HasKey(d, p.0)
  {
    var i :| 0 <= i < |d| && d[i] == p;
    assert Keys(d)[i] == p.0;
  }

  /** When every record is stored under its own `username`, the removal guard
      can never hold: the name it tests is the key being visited. */
  lemma RemovalGuardNeverFires(snap: Directory, p: (string, Record), t: Table, dirs: set<string>)
    requires KeysMatch(snap) && p in snap
    ensures Visit(snap, p.1, t, dirs) == (if p.0 in t then Success(t) else AddRecord(t, dirs, p.0, p.1))
  {
    PairKeyIsKey(snap, p);
  }

  /** What a pass that only adds makes of table `t` with the records `d`:
      the names in `t` or among the keys of `d`, the entries of `t`
      unchanged, and each new name with its record's entry. */
  ghost predicate OnlyAdds(t: Table, t2: Table, d: Directory, dirs: set<string>) {
    && (forall k :: k in t2 <==> k in t || HasKey(d, k))
    && (forall k :: k in t ==> t2[k] == t[k])
    && (forall k :: k in t2 && k !in t ==>
          HasKey(d, k) && Addable(Get(d, k), dirs) && t2[k] == EntryOf(Get(d, k)))
  }

  /** With matching keys, a pass only adds: it adds exactly the names absent
      from the table, each with its record's entry, and never changes or
      drops an entry it found. */
  lemma {:induction false} PassOverOnlyAdds(rest: Directory, snap: Directory, t: Table, dirs: set<string>)
    requires KeysMatch(snap)
    requires forall p :: p in rest ==> p in snap
    ensures PassOver(rest, snap, t, dirs).Success? ==> OnlyAdds(t, PassOver(rest, snap, t, dirs).value, rest, dirs)
    decreases |rest|
  {
    if |rest| > 0 {
      var p := rest[0];
      assert p in snap;
      RemovalGuardNeverFires(snap, p, t, dirs);
      var v := Visit(snap, p.1, t, dirs);
      if v.Success? {
        assert forall q :: q in rest[1..] ==> q in rest;
        PassOverOnlyAdds(rest[1..], snap, v.value, dirs);
        var r := PassOver(rest, snap, t, dirs);
        assert r == PassOver(rest[1..], snap, v.value, dirs);
        if r.Success? {
          OnlyAddsStep(rest, t, v.value, r.value, dirs);
        }
      }
    }
  }

  /** The inductive step of `PassOverOnlyAdds`: the first record's visit
      followed by the pass over the others. */
  lemma OnlyAddsStep(rest: Directory, t: Table, t1: Table, t2: Table, dirs: set<string>)
    requires |rest| > 0
    requires rest[0].0 !in t ==> Addable(rest[0].1, dirs)
    requires t1 == (if rest[0].0 in t then t else t[rest[0].0 := EntryOf(rest[0].1)])
    requires OnlyAdds(t1, t2, rest[1..], dirs)
    ensures OnlyAdds(t, t2, rest, dirs)
  {
    forall k
      ensures k in t2 <==> k in t || HasKey(rest, k)
    {
      HeadOrTail(rest, k);
    }
    forall k | k in t2 && k !in t
      ensures HasKey(rest, k) && Addable(Get(rest, k), dirs) && t2[k] == EntryOf(Get(rest, k))
    {
      HeadOrTail(rest, k);
    }
  }

  /** The pass, as written, under matching keys. */
  lemma PassOnlyAdds(snap: Directory, t: Table, dirs: set<string>)
    requires KeysMatch(snap)
    ensures Pass(snap, t, dirs).Success? ==> OnlyAdds(t, Pass(snap, t, dirs).value, snap, dirs)
  {
    PassOverOnlyAdds(snap, snap, t, dirs);
  }

  /** A pass over records already all in the table changes nothing. */
  lemma {:induction false} PassOverNoop(rest: Directory, snap: Directory, t: Table, dirs: set<string>)
    requires KeysMatch(snap)
    requires forall p :: p in rest ==> p in snap && p.0 in t
    ensures PassOver(rest, snap, t, dirs) == Success(t)
    decreases |rest|
  {
    if |rest| > 0 {
      RemovalGuardNeverFires(snap, rest[0], t, dirs);
      assert forall q :: q in rest[1..] ==> q in rest;
      PassOverNoop(rest[1..], snap, t, dirs);
    }
  }

  /** Running the pass again over an unchanged list leaves the table as the
      first run left it. */
  lemma PassIdempotent(snap: Directory, t: Table, dirs: set<string>)
    requires KeysMatch(snap)
    requires Pass(snap, t, dirs).Success?
    ensures Pass(snap, Pass(snap, t, dirs).value, dirs) == Pass(snap, t, dirs)
  {
    var t1 := Pass(snap, t, dirs).value;
    PassOnlyAdds(snap, t, dirs);
    forall p | p in snap
      ensures p.0 in t1
    {
      PairKeyIsKey(snap, p);
    }
    PassOverNoop(snap, snap, t1, dirs);
  }

  /** With matching, distinct keys, the pass raises exactly when some record
      whose name is not yet in the table lacks a field or is refused by the
      authorizer. */
  lemma {:induction false} PassOverFails(rest: Directory, snap: Directory, t: Table, dirs: set<string>)
    requires KeysMatch(snap) && Distinct(rest)
    requires forall p :: p in rest ==> p in snap
    ensures PassOver(rest, snap, t, dirs).Failure? <==>
      exists p :: p in rest && p.0 !in t && !Addable(p.1, dirs)
    decreases |rest|
  {
    if |rest| > 0 {
      var p := rest[0];
      RemovalGuardNeverFires(snap, p, t, dirs);
      var v := Visit(snap, p.1, t, dirs);
      if v.Success? {
        var t1 := v.value;
        DistinctTail(rest);
        assert forall q :: q in rest[1..] ==> q in rest;
        PassOverFails(rest[1..], snap, t1, dirs);
      }
    }
  }

  /** The pass over a whole list, as in `PassOverFails`. */
  lemma PassFails(snap: Directory, t: Table, dirs: set<string>)
    requires KeysMatch(snap) && Distinct(snap)
    ensures Pass(snap, t, dirs).Failure? <==> exists p :: p in snap && p.0 !in t && !Addable(p.1, dirs)
  {
    PassOverFails(snap, snap, t, dirs);
  }

  /** A user deleted from the settings file stays in the table with its old
      entry: the removal step at the end of the loop body never reaches it. */
  lemma DeletedUserNeverRemoved(snap: Directory, t: Table, dirs: set<string>, name: string)
    requires KeysMatch(snap)
    requires name in t && !HasKey(snap, name)
    requires Pass(snap, t, dirs).Success?
    ensures name in Pass(snap, t, dirs).value && Pass(snap, t, dirs).value[name] == t[name]
  {
    PassOnlyAdds(snap, t, dirs);
  }

  /** A user whose stored record changed keeps its old password, home and
      permissions: the pass never updates an entry. */
  lemma ChangedUserNotUpdated(snap: Directory, t: Table, dirs: set<string>, name: string)
    requires name in t && HasKey(snap, name)
    requires Pass(snap, t, dirs).Success?
    ensures name in Pass(snap, t, dirs).value && Pass(snap, t, dirs).value[name] == t[name]
  {
  }

  /** A record stored under another key than its `username` can remove even
      `root`: its name is in the table but not a key of the list. */
  lemma MismatchedRecordRemovesRoot(e: Entry, dirs: set<string>)
    ensures Pass([("x", map[UsernameField := Root])], map[Root := e], dirs) == Success(map[])
  {
    var snap := [("x", map[UsernameField := Root])];
    assert Keys(snap) == ["x"];
    assert !HasKey(snap, Root);
    assert Visit(snap, snap[0].1, map[Root := e], dirs) == Success(map[]);
    assert snap[1..] == [];
    assert PassOver(snap, snap, map[Root := e], dirs) == PassOver(snap[1..], snap, map[], dirs);
  }

  /** Without matching keys the pass is not idempotent: after the pass above
      has removed `root`, the next pass tries to add it back from a record
      with no `password` and raises `KeyError`. */
  lemma MismatchedRecordNotIdempotent(e: Entry, dirs: set<string>)
    ensures var snap := [("x", map[UsernameField := Root])];
      && Pass(snap, map[Root := e], dirs) == Success(map[])
      && Pass(snap, Pass(snap, map[Root := e], dirs).value, dirs) == Failure(KeyError(PasswordField))
  {
    var snap := [("x", map[UsernameField := Root])];
    MismatchedRecordRemovesRoot(e, dirs);
    assert Visit(snap, snap[0].1, map[], dirs) == Failure(KeyError(PasswordField));
    assert PassOver(snap, snap, map[], dirs) == Failure(KeyError(PasswordField));
  }

  // ---------------------------------------------------------------- reconciliation, corrected

  /** The accounts the server adds itself and no settings change should drop. */
  const Builtin := {Root, Anonymous}

  /** The removal the comment at the end of the loop body describes: drop
      every entry whose name is neither a key of the list nor built in. */
  function Prune(t: Table, snap: Directory): (r: Table)
    ensures r.Keys == set k | k in t && (HasKey(snap, k) || k in Builtin)
    ensures forall k :: k in r ==> r[k] == t[k]
  {
    map k | k in t && (HasKey(snap, k) || k in Builtin) :: t[k]
  }

  /** The pass with the intended removal: the as-written pass, then `Prune`. */
  function PassWithRemoval(snap: Directory, t: Table, dirs: set<string>): (r: Result<Table, Error>)
    ensures KeysMatch(snap) && r.Success? ==>
      && r.value.Keys == ToMap(snap).Keys + (t.Keys * Builtin)
      && (forall k :: k in t && k in r.value ==> r.value[k] == t[k])
    ensures r.Failure? <==> Pass(snap, t, dirs).Failure?
  {
    var t1 :- Pass(snap, t, dirs);
    if KeysMatch(snap) then PassOnlyAdds(snap, t, dirs); Success(Prune(t1, snap))
    else Success(Prune(t1, snap))
  }

  /** The corrected pass drops a deleted user and is idempotent too. */
  lemma PassWithRemovalDropsDeleted(snap: Directory, t: Table, dirs: set<string>, name: string)
    requires KeysMatch(snap)
    requires PassWithRemoval(snap, t, dirs).Success?
    requires !HasKey(snap, name) && name !in Builtin
    ensures name !in PassWithRemoval(snap, t, dirs).value
    ensures PassWithRemoval(snap, PassWithRemoval(snap, t, dirs).value, dirs) == PassWithRemoval(snap, t, dirs)
  {
    var t1 := PassWithRemoval(snap, t, dirs).value;
    forall p | p in snap
      ensures p.0 in t1
    {
      PairKeyIsKey(snap, p);
    }
    PassOverNoop(snap, snap, t1, dirs);
    assert Prune(t1, snap) == t1;
  }

  // ---------------------------------------------------------------- edited permissions

  /** Two directories the server cannot tell apart: the same keys in the same
      order, and records that agree on every field the server reads. */
  predicate SameServerView(d: Directory, e: Directory) {
    && |d| == |e|
    && forall i :: 0 <= i < |d| ==>
         && d[i].0 == e[i].0
         && forall f :: f in {UsernameField, PasswordField, HomeDirField, PermField} ==>
              (f in d[i].1 <==> f in e[i].1) && (f in d[i].1 ==> d[i].1[f] == e[i].1[f])
  }

  /** The server's pass gives the same outcome on directories it cannot tell apart. */
  lemma {:induction false} PassOverSameView(rest: Directory, rest': Directory, snap: Directory, snap': Directory, t: Table, dirs: set<string>)
    requires SameServerView(rest, rest') && SameServerView(snap, snap')
    ensures PassOver(rest, snap, t, dirs) == PassOver(rest', snap', t, dirs)
    decreases |rest|
  {
    if |rest| > 0 {
      assert Keys(snap) == Keys(snap');
      var r0 := rest[0].1;
      var r1 := rest'[0].1;
      assert UsernameField in r0 <==> UsernameField in r1;
      assert PasswordField in r0 <==> PasswordField in r1;
      assert HomeDirField in r0 <==> HomeDirField in r1;
      assert PermField in r0 <==> PermField in r1;
      assert Visit(snap, r0, t, dirs) == Visit(snap', r1, t, dirs);
      var v := Visit(snap, r0, t, dirs);
      if v.Success? {
        assert SameServerView(rest[1..], rest'[1..]) by {
          forall i | 0 <= i < |rest[1..]|
            ensures rest[1..][i] == rest[i + 1] && rest'[1..][i] == rest'[i + 1]
          {
          }
        }
        PassOverSameView(rest[1..], rest'[1..], snap, snap', v.value, dirs);
      }
    }
  }
}

/** Where the user manager and the server meet: the server reads the
    `perm` field of each record, while the editor's permission change writes
    `permissions`; and the home the user manager stores for "local" is a
    sentinel the server takes as a literal path. */
module EditView {
  import opened Dicts
  import opened Settings
  import opened Authorizer
  import UserMan
  import Prompts
  import Host
  import Server

  /** A permission change made in the editor is invisible to the server: the
      editor accepts it exactly when the record already has `home_dir` and
      `permissions`, and then the reconciliation pass over the edited list
      gives exactly what it gives over the list before the edit, whatever
      table it starts from. */
  lemma PermissionEditInvisibleToServer(d: Directory, name: string, perm: string, t: Table, dirs: set<string>)
    requires HasKey(d, name)
    ensures UserMan.EditUser(d, name, UserMan.NewPermissions(perm)).Success?
        <==> HomeDirField in Get(d, name) && PermissionsField in Get(d, name)
    ensures UserMan.EditUser(d, name, UserMan.NewPermissions(perm)).Success? ==>
      Server.Pass(UserMan.EditUser(d, name, UserMan.NewPermissions(perm)).value.0, t, dirs)
         == Server.Pass(d, t, dirs)
  {
    UserMan.PermissionEditIsAssignment(d, name, perm);
    if !UserMan.EditUser(d, name, UserMan.NewPermissions(perm)).Success? {
      return;
    }
    var rec := Get(d, name)[PermissionsField := perm];
    var d' := Set(d, name, rec);
    SetInPlace(d, name, rec, 0);
    forall i | 0 <= i < |d|
      ensures d[i].0 == d'[i].0
      ensures forall f :: f in {UsernameField, PasswordField, HomeDirField, PermField} ==>
        (f in d[i].1 <==> f in d'[i].1) && (f in d[i].1 ==> d[i].1[f] == d'[i].1[f])
    {
      SetInPlace(d, name, rec, i);
    }
    assert Server.SameServerView(d, d');
    Server.PassOverSameView(d, d', d, d', t, dirs);
  }

  /** A user created with the home "local" stores the literal sentinel, and
      the server hands that to `add_user` as a path. Unless a directory of
      that name exists, startup fails, and so does a pass that meets the
      record while its name is absent from the table. */
  lemma LocalHomeBlocksServer(host: Host.Host, rootPassword: string, snap: Directory, anonAllowed: bool,
                              p: (string, Record), t: Table)
    requires p in snap && HomeDirField in p.1 && p.1[HomeDirField] == Prompts.LocalUser
    requires Prompts.LocalUser !in host.dirs
    ensures Prompts.HomedirAttempt("local", host) == Prompts.Accepted(Prompts.LocalUser)
    ensures Server.Seed(rootPassword, snap, anonAllowed, host.dirs).Failure?
    ensures KeysMatch(snap) && Distinct(snap) && p.0 !in t ==> Server.Pass(snap, t, host.dirs).Failure?
  {
    assert !Server.Addable(p.1, host.dirs);
    if KeysMatch(snap) && Distinct(snap) && p.0 !in t {
      Server.PassFails(snap, t, host.dirs);
    }
  }
}

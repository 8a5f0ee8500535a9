/** The user manager's changes to the settings file: adding and removing a
    user, editing one (including renaming), and saving a permission set. Each
    is a single-key change of a stored dict. */
module UserMan {
  import opened Wrappers
  import opened Errors
  import opened Text
  import opened Dicts
  import opened Settings
  import Prompts

  /** The record `data_tables.NEW_USER_DT(username, password, perm, homedir)`
      stores: the fields the server reads. */
  function NewUserRecord(username: string, password: string, perm: string, homeDir: string): (r: Record)
    ensures UsernameField in r && r[UsernameField] == username
    ensures PasswordField in r && r[PasswordField] == password
    ensures PermField in r && r[PermField] == perm
    ensures HomeDirField in r && r[HomeDirField] == homeDir
    ensures r.Keys == {UsernameField, PasswordField, PermField, HomeDirField}
  {
    map[UsernameField := username, PasswordField := password, PermField := perm, HomeDirField := homeDir]
  }

  /** `userman.add_user`: store the new record under `username`, replacing any
      record already there, and leave every other key and setting alone. */
  function AddUser(s: Store, username: string, password: string, homeDir: string, perm: string): (r: Store)
    ensures ToMap(Users(r)) == ToMap(Users(s))[username := NewUserRecord(username, password, perm, homeDir)]
    ensures HasKey(Users(s), username) ==> Keys(Users(r)) == Keys(Users(s))
    ensures !HasKey(Users(s), username) ==> Keys(Users(r)) == Keys(Users(s)) + [username]
    ensures r.(users := s.users) == s
    ensures KeysMatch(Users(s)) ==> KeysMatch(Users(r))
    ensures Distinct(Users(s)) ==> Distinct(Users(r))
  {
    var rec := NewUserRecord(username, password, perm, homeDir);
    var users := Set(Users(s), username, rec);
    SetIsMapUpdate(Users(s), username, rec);
    if Distinct(Users(s)) then SetKeepsDistinct(Users(s), username, rec); SetUsers(s, users)
    else SetUsers(s, users)
  }

  /** `userman.remove_user`: delete exactly the key `username`; a missing key
      raises `KeyError`. */
  function RemoveUser(s: Store, username: string): (r: Result<Store, Error>)
    ensures r.Failure? <==> !HasKey(Users(s), username)
    ensures r.Failure? ==> r.error == KeyError(username)
    ensures r.Success? ==> ToMap(Users(r.value)) == ToMap(Users(s)) - {username}
    ensures r.Success? && Distinct(Users(s)) ==>
      exists i :: 0 <= i < |Users(s)| && Users(s)[i].0 == username
        && Users(r.value) == Users(s)[..i] + Users(s)[i + 1..]
    ensures r.Success? ==> r.value.(users := s.users) == s
    ensures r.Success? && KeysMatch(Users(s)) ==> KeysMatch(Users(r.value))
    ensures r.Success? && Distinct(Users(s)) ==> Distinct(Users(r.value))
  {
    var d := Users(s);
    if !HasKey(d, username) then Failure(KeyError(username))
    else
      var users := Delete(d, username);
      DeleteIsMapRemoval(d, username);
      DeleteKeepsOrder(d, username);
      if Distinct(d) then DeleteKeepsDistinct(d, username); Success(SetUsers(s, users))
      else Success(SetUsers(s, users))
  }

  /** One field choice in `userman.edit_user`'s loop. `KeepPassword` is the
      "password" choice answered without a `y`, which shows the password and
      changes nothing; `AbortedRename` is the "username" choice whose
      new-name prompt was cancelled. */
  datatype Edit =
    | NewPassword(password: string)
    | KeepPassword
    | NewHomeDir(homeDir: string)
    | NewPermissions(perm: string)
    | Rename(newName: string)
    | AbortedRename

  /** The record holds every field the editor reads before acting on `e`:
      `home_dir` when the session starts, `permissions` on every pass of the
      loop before a field is chosen, and `password` whenever the "password"
      field is chosen, before the change is offered. A missing one raises `KeyError`, which the loop's
      `except KeyboardInterrupt` does not catch, so the session ends unsaved.
      No edit removes a field, so checking `home_dir` on every step is the
      same as checking it once. */
  predicate EditorCanRead(user: Record, e: Edit) {
    HomeDirField in user && PermissionsField in user && (e.NewPassword? || e.KeepPassword? ==> PasswordField in user)
  }

  /** The editor's in-memory user list after applying one edit to the user
      currently called `name`, and that user's name afterwards. The list is
      saved only when the session ends with a yes (`SaveEdits`); a failure
      ends the session with nothing saved. */
  function EditUser(d: Directory, name: string, e: Edit): (r: Result<(Directory, string), Error>)
    ensures r.Failure? <==> !HasKey(d, name) || !EditorCanRead(Get(d, name), e)
    ensures !HasKey(d, name) ==> r == Failure(KeyError(name))
    ensures HasKey(d, name) && HomeDirField !in Get(d, name) ==> r == Failure(KeyError(HomeDirField))
    ensures HasKey(d, name) && HomeDirField in Get(d, name) && PermissionsField !in Get(d, name) ==>
      r == Failure(KeyError(PermissionsField))
    ensures (HasKey(d, name) && HomeDirField in Get(d, name) && PermissionsField in Get(d, name)
             && (e.NewPassword? || e.KeepPassword?) && PasswordField !in Get(d, name)) ==>
      r == Failure(KeyError(PasswordField))
    ensures r.Success? && e.KeepPassword? ==> r.value == (d, name)
    ensures r.Success? && (e.NewPassword? || e.NewHomeDir? || e.NewPermissions?) ==>
      r.value.1 == name && Keys(r.value.0) == Keys(d)
    ensures r.Success? && e.NewPassword? ==>
      ToMap(r.value.0) == ToMap(d)[name := ToMap(d)[name][PasswordField := e.password]]
    ensures r.Success? && e.NewHomeDir? ==>
      ToMap(r.value.0) == ToMap(d)[name := ToMap(d)[name][HomeDirField := e.homeDir]]
    ensures r.Success? && e.NewPermissions? ==>
      ToMap(r.value.0) == ToMap(d)[name := ToMap(d)[name][PermissionsField := e.perm]]
    ensures r.Success? && e.Rename? ==>
      && r.value.1 == e.newName
      && ToMap(r.value.0) == (ToMap(d) - {name})[e.newName := ToMap(d)[name][UsernameField := e.newName]]
      && Keys(r.value.0) == Keys(Delete(d, name)) + (if HasKey(Delete(d, name), e.newName) then [] else [e.newName])
    ensures r.Success? && e.AbortedRename? ==> ToMap(r.value.0) == ToMap(d) - {name}
    ensures r.Success? && e.AbortedRename? && Distinct(d) ==>
      exists i :: 0 <= i < |d| && d[i].0 == name && r.value.0 == d[..i] + d[i + 1..]
    ensures r.Success? && KeysMatch(d) ==> KeysMatch(r.value.0)
  {
    if !HasKey(d, name) then Failure(KeyError(name))
    else if HomeDirField !in Get(d, name) then Failure(KeyError(HomeDirField))
    else if PermissionsField !in Get(d, name) then Failure(KeyError(PermissionsField))
    else if (e.NewPassword? || e.KeepPassword?) && PasswordField !in Get(d, name) then Failure(KeyError(PasswordField))
    else
      var user := Get(d, name);
      ToMapAgreesWithLookup(d, name);
      match e
      case NewPassword(p) => Success((UpdateRecord(d, name, user[PasswordField := p]), name))
      case KeepPassword => Success((d, name))
      case NewHomeDir(h) => Success((UpdateRecord(d, name, user[HomeDirField := h]), name))
      case NewPermissions(p) => Success((UpdateRecord(d, name, user[PermissionsField := p]), name))
      case Rename(n) => Success((RenameRecord(d, name, n), n))
      case AbortedRename => Success((RemoveRecord(d, name), name))
  }

  /** A permission edit that succeeds is the assignment of the updated
      record under the same key. */
  lemma PermissionEditIsAssignment(d: Directory, name: string, perm: string)
    requires HasKey(d, name)
    ensures EditUser(d, name, NewPermissions(perm)).Success?
        <==> HomeDirField in Get(d, name) && PermissionsField in Get(d, name)
    ensures EditUser(d, name, NewPermissions(perm)).Success? ==>
      EditUser(d, name, NewPermissions(perm)).value.0 == Set(d, name, Get(d, name)[PermissionsField := perm])
  {
  }

  /** The same editor with the cancelled rename corrected: the user list is
      left as it was when the new-name prompt is abandoned. The reads before
      the choice, and their errors, are as before. */
  function EditUserFixed(d: Directory, name: string, e: Edit): (r: Result<(Directory, string), Error>)
    ensures r.Failure? <==> !HasKey(d, name) || !EditorCanRead(Get(d, name), e)
    ensures r.Failure? ==> r == EditUser(d, name, e)
    ensures r.Success? && e.AbortedRename? ==> r.value == (d, name)
    ensures !e.AbortedRename? ==> r == EditUser(d, name, e)
    ensures r.Success? ==>
      ToMap(r.value.0).Keys == (if e.Rename? then ToMap(d).Keys - {name} + {e.newName} else ToMap(d).Keys)
  {
    if e.AbortedRename? then
      var edited :- EditUser(d, name, e);
      Success((d, name))
    else EditUser(d, name, e)
  }

  /** Replacing a user's fields in place, without touching its key. */
  function UpdateRecord(d: Directory, name: string, rec: Record): (r: Directory)
    requires HasKey(d, name)
    requires UsernameField in Get(d, name) && UsernameField in rec ==> rec[UsernameField] == Get(d, name)[UsernameField]
    requires UsernameField in rec <==> UsernameField in Get(d, name)
    ensures Keys(r) == Keys(d)
    ensures ToMap(r) == ToMap(d)[name := rec]
    ensures KeysMatch(d) ==> KeysMatch(r)
  {
    var r := Set(d, name, rec);
    SetIsMapUpdate(d, name, rec);
    assert KeysMatch(d) ==> KeysMatch(r) by {
      if KeysMatch(d) {
        var i :| 0 <= i < |d| && d[i] == (name, Get(d, name));
        assert d[i] in d;
      }
    }
    r
  }

  /** The rename branch: delete the old key, then store the same record under
      the new key with its `username` field updated. */
  function RenameRecord(d: Directory, name: string, newName: string): (r: Directory)
    requires HasKey(d, name)
    ensures ToMap(r) == (ToMap(d) - {name})[newName := ToMap(d)[name][UsernameField := newName]]
    ensures Keys(r) == Keys(Delete(d, name)) + (if HasKey(Delete(d, name), newName) then [] else [newName])
    ensures KeysMatch(d) ==> KeysMatch(r)
  {
    var user := Get(d, name);
    var rest := Delete(d, name);
    var r := Set(rest, newName, user[UsernameField := newName]);
    ToMapAgreesWithLookup(d, name);
    DeleteIsMapRemoval(d, name);
    SetIsMapUpdate(rest, newName, user[UsernameField := newName]);
    r
  }

  /** The `del` that the rename branch performs before asking for the new name. */
  function RemoveRecord(d: Directory, name: string): (r: Directory)
    ensures ToMap(r) == ToMap(d) - {name}
    ensures Distinct(d) && HasKey(d, name) ==> exists i :: 0 <= i < |d| && d[i].0 == name && r == d[..i] + d[i + 1..]
    ensures KeysMatch(d) ==> KeysMatch(r)
  {
    DeleteIsMapRemoval(d, name);
    DeleteKeepsOrder(d, name);
    Delete(d, name)
  }

  /** The end of an editing session: "y", "yes" or an empty answer writes the
      edited list back; anything else discards it. */
  function SaveEdits(s: Store, edited: Directory, answer: string): (r: Store)
    ensures Lower(answer) in {"y", "yes", ""} ==> Users(r) == edited
    ensures Lower(answer) !in {"y", "yes", ""} ==> r == s
    ensures r.(users := s.users) == s
  {
    if Lower(answer) in {"y", "yes", ""} then SetUsers(s, edited) else s
  }

  /** Saving a permission set: insert it under its name, replacing any set
      of that name, and leave everything else alone. */
  function SavePermissionSet(s: Store, name: string, description: string, perm: string): (r: Store)
    ensures ToMap(SavedSets(r)) == ToMap(SavedSets(s))[name := Settings.PermissionSet(name, description, perm)]
    ensures r.(permissionSets := s.permissionSets) == s
  {
    var sets := Set(SavedSets(s), name, Settings.PermissionSet(name, description, perm));
    SetIsMapUpdate(SavedSets(s), name, Settings.PermissionSet(name, description, perm));
    SetSavedSets(s, sets)
  }

  /** A set saved under a name without upper-case letters is then chosen by
      typing that name in brackets, in any letter case, and yields exactly the
      saved permissions, with no further save question. */
  lemma SavedSetResolves(s: Store, name: string, description: string, perm: string, line: string, confirm: string, ask: bool)
    requires forall i :: 0 <= i < |name| ==> !IsUpperAscii(name[i])
    requires Lower(line) == Prompts.Bracket(name)
    ensures Prompts.CustomAttempt(line, confirm, ask, SavedSets(SavePermissionSet(s, name, description, perm)))
         == Prompts.Accepted(Prompts.PermChoice(perm, false))
  {
    var sets := SavedSets(SavePermissionSet(s, name, description, perm));
    var ps := Settings.PermissionSet(name, description, perm);
    assert sets == Set(SavedSets(s), name, ps);
    assert HasKey(sets, name);
    ToMapAgreesWithLookup(sets, name);
    assert Get(sets, name) == ps;
  }

  /** As written, cancelling the new-name prompt and then answering the save
      question with yes (the default) writes back a list without the user
      being renamed: the old key was deleted before the prompt. */
  lemma AbortedRenameLosesUser(s: Store, name: string, answer: string)
    requires HasKey(Users(s), name) && EditorCanRead(Get(Users(s), name), AbortedRename)
    requires Lower(answer) in {"y", "yes", ""}
    ensures var r := EditUser(Users(s), name, AbortedRename);
      && r.Success?
      && !HasKey(Users(SaveEdits(s, r.value.0, answer)), name)
      && ToMap(Users(SaveEdits(s, r.value.0, answer))) == ToMap(Users(s)) - {name}
  {
    var edited := EditUser(Users(s), name, AbortedRename).value.0;
    assert name !in ToMap(edited);
  }

  /** With the corrected editor, the same cancelled rename saved with yes
      leaves the stored users exactly as they were. */
  lemma AbortedRenameFixedKeepsUser(s: Store, name: string, answer: string)
    requires HasKey(Users(s), name) && EditorCanRead(Get(Users(s), name), AbortedRename)
    ensures var r := EditUserFixed(Users(s), name, AbortedRename);
      && r.Success?
      && SaveEdits(s, r.value.0, answer).(users := s.users) == s
      && Users(SaveEdits(s, r.value.0, answer)) == Users(s)
  {
  }

  /** A user stored by `AddUser` cannot be edited: its record has no
      `permissions` field, so the editor raises `KeyError` before any field
      is chosen, whatever the edit. */
  lemma EditingAddedUserFails(s: Store, username: string, password: string, homeDir: string, perm: string, e: Edit)
    ensures EditUser(Users(AddUser(s, username, password, homeDir, perm)), username, e)
         == Failure(KeyError(PermissionsField))
  {
    var d := Users(AddUser(s, username, password, homeDir, perm));
    var rec := NewUserRecord(username, password, perm, homeDir);
    assert ToMap(d) == ToMap(Users(s))[username := rec];
    assert HasKey(d, username) by {
      assert username in ToMap(d);
    }
    ToMapAgreesWithLookup(d, username);
    assert HomeDirField in Get(d, username) && PermissionsField !in Get(d, username);
  }
}

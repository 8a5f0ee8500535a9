# PyTrain user management and FTP authorization, in Dafny

PyTrain runs a pyftpdlib FTP server whose accounts live in the settings file
(`settings.json`, read and written through `jmod`). This project models the
part of it with real logic:

- the acceptance rules of the user manager's prompts (`userman.get_data`):
  username, password, home directory, and permissions (presets, custom
  strings, saved `<name>` sets);
- the user manager's changes to the settings file: `add_user`,
  `remove_user`, `edit_user` (including the rename branch) and saving a
  permission set;
- the server's authorizer: seeding it in `ftps.main` (root, every stored
  user, optionally anonymous) and the reconciliation pass that runs after
  every `serve_forever(blocking=False)` tick;
- the handler's connected-user list (`on_login`, `on_logout`,
  `get_connected_users`).

Modules, one concept each:

- `Wrappers`: `Option` and `Result`.
- `Errors`: the Python exceptions the core raises (`KeyError` and the
  authorizer's `ValueError`s), defined once for every module.
- `Text`: ASCII lower-casing, substring tests, and Python's `re.match` with
  `^...$` anchors. Python's `$` also matches before a final newline.
- `Dicts`: Python's insertion-ordered `dict` as a sequence of pairs. It has
  an unordered `ToMap` view and lemmas that assignment and `del` are
  single-key map updates.
- `Settings`: the settings keys the core reads, with their defaults
  (`RootPassword` "password", `PyTrain_users` {}, `AnonAllowed` false,
  `port` 6464, `permission_sets` {}), and the shape of a user record.
- `Host`: the working directory and which paths exist or are directories.
  These are uninterpreted sets. `Join` is POSIX `os.path.join` of two parts.
- `Prompts`: each `get_data` prompt loop is a single attempt. An attempt is
  `Accepted(value)`, `Retry(reason)`, or `Cancelled` (the raised
  `KeyboardInterrupt`).
- `UserMan`: the user manager's settings-file operations.
- `Authorizer`: the authorizer's table and the three calls the server makes
  on it.
- `Server`: seeding and the reconciliation pass. It has two versions: the
  pass as written, and a corrected pass that performs the removal its
  comment describes.
- `EditView`: where the editor and the server meet. The editor writes a
  user's `permissions` field; the server reads `perm`. The editor stores
  the "local" home as a sentinel; the server takes it as a literal path.
- `Sessions`: the connected-user list.

Exceptions that end an operation become `Failure` values. In the server a
`KeyError` from a missing record field, or a `ValueError` from the
authorizer, ends `ftps.main`: only `KeyboardInterrupt` is caught there.

## Model

| member | source | states |
|---|---|---|
| Prompts.UsernameAttempt | library/userman.py:234-263 | A line is accepted iff it is not "cancel", matches `^[a-zA-Z0-9_.]{3,20}$`, and is a stored key exactly when only existing users are wanted. The value is the line itself, never "cancel" or "". The prompt cancels iff the line is "cancel" and the confirmation contains a `y`. |
| Prompts.SpaceCheckUnreachable | library/userman.py:245-251 | The "cannot contain spaces" refusal never happens, because the pattern check before it already rules out spaces. |
| Prompts.AcceptedUsernameShape | library/userman.py:245-247 | An accepted username typed as a line is 3 to 20 letters, digits, underscores or periods, and has no space. |
| Prompts.PasswordAttempt | library/userman.py:265-277 | A password is accepted iff it is not "cancel" and has at least 4 characters (the message says 6). "cancel" cancels. An empty line is refused as empty. |
| Prompts.HomedirAttempt | library/userman.py:279-301 | "cancel" cancels. "local" yields `<>local_user<>`. An empty line is refused. A line starting with `~` becomes the working directory joined with the rest, and is accepted iff that path exists. Any other line is accepted iff it exists as given. With an absolute working directory, "" and "cancel" are never returned. |
| Host.Join | library/userman.py:294 | `os.path.join(a, b)`: an absolute `b` wins. Otherwise the result starts with `a`, ends with `b`, and is absolute when `a` is. |
| Prompts.PermKindAttempt | library/userman.py:314-322 | The lowered answer "preset" or "custom" selects that branch, "cancel" cancels, and anything else asks again. |
| Prompts.PresetAttempt | library/userman.py:342-365 | The presets resolve to exactly `elr` ("1" or "read only"), `elradfmw` ("2" or "read write") and `elradfmwMT` ("3" or "admin"), and a preset is never offered for saving. The lowered answer "cancel" cancels. |
| Prompts.CompareSets | library/userman.py:377-379 | The compare table maps `<k>` to the saved set's permissions for every saved name `k`, and holds no other token. |
| Prompts.CustomAttempt | library/userman.py:402-436 | On the lowered line, "cancel" cancels. A `<...>` token is accepted iff it is the bracketed name of a saved set: it yields that set's permissions with no save question, and an unknown token is refused, never defaulted. Any other line is accepted iff it matches `^[elradfmw]{1,7}$` and the confirmation contains a `y`, and is then the chosen string. A line that fails the pattern is refused as invalid; an unconfirmed one is asked again. |
| Prompts.CustomStringShape | library/userman.py:416 | A typed custom string is 1 to 7 letters of `elradfmw`, so it never grants `M` or `T`. |
| Prompts.UpperCaseSetUnreachable | library/userman.py:402-407 | A saved set whose name has an upper-case letter can never be chosen, because the typed token is lowered and the table keys are not. |
| Prompts.SaveAnswerAttempt | library/userman.py:437-452 | The save question takes a `y` anywhere as yes, even when an `n` is also present. It takes an `n` without a `y` as no, and asks again otherwise. |
| Prompts.SetTextAttempt | library/userman.py:457-483 | A set's name or description is accepted iff it is neither "cancel" (which cancels) nor empty. |
| UserMan.NewUserRecord | library/userman.py:76 | A new record carries exactly the username, password, `perm` and `home_dir` fields the server reads. |
| UserMan.AddUser | library/userman.py:76-85 | The stored users map `username` to the new record, overwriting any previous one; every other key is unchanged. An existing key keeps its position and a new one is appended. No other setting changes. Matching keys and distinct keys are preserved. |
| UserMan.RemoveUser | library/userman.py:102-110 | Fails with `KeyError` iff the name is not stored. Otherwise exactly that key is deleted and nothing else changes. In a list with distinct keys, the other users keep their order. |
| Dicts.DeleteKeepsOrder | library/userman.py:103-104 | `del` on a dict with distinct keys removes exactly the pair holding the key, and the pairs before and after it keep their order. |
| UserMan.EditUser | library/userman.py:127-168 | Fails with `KeyError` iff the user is not stored, or its record lacks `home_dir` (line 130) or `permissions` (line 141, read before every choice), or, whenever the "password" field is chosen, `password` (line 150, read before the change is offered). Each error names the first missing key in that order, and a failure ends the session unsaved. Declining the password change leaves the list as it was. Otherwise a password, home or permission edit changes only that field of that record: `password`, `home_dir`, or `permissions` (not `perm`). A rename deletes the old key and maps the new one to the same record with `username` updated. The new key is appended after the remaining keys unless it is already present. A cancelled rename has already deleted the old key, and in a list with distinct keys the other users keep their order. Matching keys are preserved. |
| UserMan.EditUserFixed | library/userman.py:127-168 | With the cancelled rename corrected, a cancelled rename leaves the list as it was. It fails exactly when, and with the same error as, the written editor. Every edit keeps the set of names, except that a rename swaps the old name for the new. |
| UserMan.SaveEdits | library/userman.py:172-186 | The edited list is written back iff the lowered answer is "y", "yes" or empty. Otherwise the settings are unchanged. |
| UserMan.SavePermissionSet | library/userman.py:485-500 | The saved sets map the set's name to the new set, overwriting any set of that name. Nothing else changes. |
| UserMan.SavedSetResolves | library/userman.py:402-411 | After saving a set under a lower-case name, typing `<name>` in any letter case selects exactly its permissions, with no further save question. |
| UserMan.AbortedRenameLosesUser | library/userman.py:127-176 | As written, for a record that has `home_dir` and `permissions`, cancelling the new-name prompt and then saving (the default answer) drops the user from the settings file. |
| UserMan.AbortedRenameFixedKeepsUser | library/userman.py:127-176 | With the corrected editor, the same sequence leaves the stored users exactly as they were. |
| UserMan.EditingAddedUserFails | library/userman.py:76-141 | A user stored by `add_user` cannot be edited. Its record has no `permissions` field, so every edit fails with `KeyError("permissions")` before a field is chosen. |
| Settings.RootPassword | library/server.py:90-95 | The root password defaults to "password". |
| Settings.Port | library/server.py:168-173 | The stored port, or 6464 when the key is absent. |
| Authorizer.AddUser | library/server.py:110-115 | The authorizer accepts a user iff the name is new, the home is a directory, and every permission letter is one of `elradfmwMT`. A duplicate name is refused as such. The table gains exactly that entry. |
| Authorizer.AddAnonymous | library/server.py:124 | `add_anonymous` is `add_user` of "anonymous" with an empty password. |
| Authorizer.RemoveUser | library/server.py:203 | Removing fails iff the name is absent. Otherwise exactly that entry goes. |
| Server.AddRecord | library/server.py:110-115 | Adding a stored record succeeds iff its name is new and it has `password`, `home_dir` and `perm` the authorizer accepts. The entry is built from `perm`. |
| Server.SeedUsers | library/server.py:106-115 | The startup loop succeeds iff every record has a `username` not yet in the table and a `password`, `home_dir` and `perm` that the authorizer accepts, and no two records share a username. After the loop, every stored record has a `username` that was not yet in the table and is in it with its own entry. No two records share a username. The names are the old ones plus the usernames, and old entries are kept. |
| Server.Startup | library/server.py:90-124 | The server starts iff "." is a directory, the stored users can be seeded after `root`, and no stored user is `anonymous` when anonymous access is allowed. `root` then holds the stored root password, or "password" when none is stored. |
| Server.FreshStartup | library/server.py:90-124 | With nothing stored, the server starts with `root` alone, whose password is "password", if "." is a directory. Otherwise `add_user` refuses the home. |
| Server.Seed | library/server.py:90-124 | Startup succeeds iff "." is a directory, every stored record can be seeded after `root` (so no stored user is `root`), and, when anonymous access is allowed, no stored user is `anonymous`. |
| Server.SeedContents | library/server.py:90-115 | A successful startup holds `root` (home ".", `elradfmw`, the stored root password) and every stored user with its own password, home and `perm`. A stored `root` or a duplicate username makes startup fail. |
| Server.SeedKeys | library/server.py:117-124 | The startup table holds exactly `root`, the stored usernames, and `anonymous` (home ".", `elr`) when anonymous access is allowed. A stored user called `anonymous` makes an anonymous-enabled startup fail. |
| Server.Visit | library/server.py:190-203 | One loop iteration reads `username` and fails with `KeyError` if it is missing. If the name is absent from the table, it adds the entry built from `password`, `home_dir` and `perm`, and fails if that add fails. It then removes the name when it is in the table but not a key of the list. |
| Server.Pass | library/server.py:181-203 | Whatever the keys of the list, after a pass a name is in the table iff it was there and no record carries it as `username`, or some record carries it and it is a key of the list. An entry that stays is never changed. |
| Server.RemovalGuardNeverFires | library/server.py:201-203 | When every record is stored under its own `username`, the removal test is always false, so a loop iteration only adds. |
| Server.PassOverOnlyAdds | library/server.py:189-203 | With matching keys, a pass over any part of the list keeps every entry it found unchanged. It adds exactly the listed names that were absent, each with its record's entry. |
| Server.PassOnlyAdds | library/server.py:189-203 | With matching keys (every record stored under its own `username`), after one whole pass, every stored username is in the table. Only previously absent names are added, and nothing is removed or changed. |
| Server.PassIdempotent | library/server.py:178-203 | With matching keys (every record stored under its own `username`), a second pass over an unchanged list leaves the table as the first pass left it. |
| Server.PassFails | library/server.py:189-200 | With matching, distinct keys, a pass raises exactly when some record whose name is not yet in the table lacks a field or is refused by the authorizer. |
| Server.ChangedUserNotUpdated | library/server.py:193 | Whatever the keys of the list, a user already in the table and still a key of the list keeps its old password, home and permissions even when its stored record changed. |
| Server.DeletedUserNeverRemoved | library/server.py:201-203 | With matching keys (every record stored under its own `username`), a user deleted from the settings file stays in the table with its old entry. |
| Server.MismatchedRecordRemovesRoot | library/server.py:201-203 | The guard does fire for a record stored under a key other than its `username`, and then it can remove even `root`. |
| Server.MismatchedRecordNotIdempotent | library/server.py:193-203 | Without matching keys the pass is not idempotent. After the pass removes `root`, the next pass over the same list tries to add it from a record with no `password` and raises `KeyError`. |
| Server.PassWithRemoval | library/server.py:201-203 | The pass the comment describes: it fails exactly when the written pass fails. With matching keys (every record stored under its own `username`), it then keeps only the stored names plus any `root`/`anonymous` already present, and leaves their entries unchanged. |
| Server.PassWithRemovalDropsDeleted | library/server.py:201-203 | With matching keys, the corrected pass drops a user deleted from the settings file and is idempotent. |
| Server.PassOverSameView | library/server.py:189-203 | The pass reads only `username`, `password`, `home_dir` and `perm` of each record, and the list's keys. Lists that agree on these give the same outcome. |
| EditView.LocalHomeBlocksServer | library/userman.py:287-288 | The home "local" is stored as the literal `<>local_user<>`. Unless a directory with that name exists, startup fails. With matching, distinct keys, a pass that finds the user absent from the table fails too. |
| EditView.PermissionEditInvisibleToServer | library/userman.py:160-162 | The editor accepts a permission change iff the record has `home_dir` and `permissions`. An accepted change does not change what the server's pass does, from any starting table. The editor writes `permissions`, which the server never reads. |
| Sessions.OnLogin | library/server.py:147-148 | A login appends the name after every other session. |
| Sessions.OnLogout | library/server.py:150-151 | A logout fails (`ValueError`) iff the name has no session. Otherwise it removes the first occurrence of the name and keeps the rest in order. |
| Sessions.LogoutEndsOneSession | library/server.py:150-151 | A logout of a connected name ends exactly one of its sessions. |
| Sessions.ConnectedUsers | library/server.py:153-154 | `get_connected_users` returns the names in session order. |
| Sessions.LoginLogoutRoundTrip | library/server.py:147-151 | A login followed by a logout of a name with no other session restores the list. |
| Sessions.LoginLogoutRemovesOldest | library/server.py:147-151 | With an earlier session of the name open, login then logout removes the earlier session, so the new one moves to the end. |
| Sessions.SessionCounts | library/server.py:147-154 | Each login adds one session of that name to the reported list, and each successful logout removes one. |

## Left out

- The `input()`/`print` loops, colours and help text: each prompt is one attempt, and looping is the caller asking again.
- `edit_user`'s printing of the current home (with `~/` put before a relative one) and of the current permissions (library/userman.py:130-141) is left out. The field reads behind that printing are modelled: they are `UserMan.EditUser`'s `KeyError` cases.
- `jmod` persistence and `data_tables`: these are not part of this model. A new user record is taken to carry exactly `username`, `password`, `perm` and `home_dir`. The server reads exactly these fields. `UserMan.EditingAddedUserFails` depends on this shape: it would not hold if `NEW_USER_DT` also stored `permissions`.
- The pyftpdlib `DummyAuthorizer` is not part of this model. Its `add_user` is taken to refuse a duplicate name, a home that is not a directory, and any permission letter outside `elradfmwMT`. The real-path normalisation of the home directory is not modelled: the home is stored as given.
- `os.path.exists`, `os.path.isdir` and `os.getcwd` become the sets and the working directory of `Host`. `os.path.isabs` is used only for display.
- `Text.Lower`: lower-cases ASCII letters only; Python's `str.lower` also maps non-ASCII letters.
- `Prompts.CompareSets`: for a dict with a repeated key, the first pair wins. Real dicts never repeat keys.
- SSL certificate generation and context setup (library/server.py:20-57, library/server.py:159-166): cryptography and file writes.
- `ThreadedFTPServer`, `serve_forever`, `multiprocessing`, `time.sleep` and the `KeyboardInterrupt` shutdown: networking and concurrency. A pass is modelled as one atomic step between ticks.
- `on_connect` logging, and all of `PyTrain.py`: process plumbing and console loop.
- Behaviour the code does not have, so neither does the model:
  - the server never updates an existing authorizer entry when its record changes (`Server.ChangedUserNotUpdated`);
  - the server never turns the `<>local_user<>` home into a per-user path: it passes the sentinel to `add_user` as a literal directory (library/server.py:113, library/server.py:198), so `add_user` refuses it unless a directory of that name exists (`EditView.LocalHomeBlocksServer`);
  - the server binds the stored port and does not search for a free one (library/server.py:168-173);
  - a logout of a name not in the list raises `ValueError` and is not ignored (`Sessions.OnLogout`);
  - a typed custom permission string is at most seven letters of `elradfmw`, and `M` and `T` come only from presets or saved sets (`Prompts.CustomStringShape`).

## Findings

| source | as written | input that shows it | evidently intended | confidence | as-written member | corrected member |
|---|---|---|---|---|---|---|
| library/server.py:201-203 | The removal test checks the visited record's own `username` against the keys of the list that record came from. | Any settings file whose records are stored under their own usernames, with a user deleted since the previous tick. | A user deleted from the settings file is removed from the authorizer, as the comment says. | high that the deleted user stays; not executed | Server.DeletedUserNeverRemoved | Server.PassWithRemovalDropsDeleted |
| library/userman.py:163-176 | The rename branch deletes the old key before asking for the new name. Cancelling that prompt reaches the save question with the user already gone. | Edit user "alice", whose record has `home_dir` and `permissions` (without them, line 141 raises `KeyError` first). Choose "username", type "cancel", confirm with "y", then press Enter at "save the changes?". | A cancelled rename leaves the user as it was. | high; not executed | UserMan.AbortedRenameLosesUser | UserMan.EditUserFixed |

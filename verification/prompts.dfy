/** The acceptance rules of `userman.get_data`: each prompt loop reads a line,
    and one pass through its body either returns a value, asks again, or
    raises `KeyboardInterrupt` to cancel. Each function here is one such pass,
    with the answers to any follow-up question passed in as further lines. */
module Prompts {
  import opened Wrappers
  import opened Text
  import opened Dicts
  import opened Settings
  import Host

  /** Why an attempt was refused; the loop then prompts again. */
  datatype Reason =
    | CancelDeclined      // typed "cancel" as a username, then did not confirm
    | Empty
    | InvalidUsername
    | ContainsSpace
    | UnknownUser
    | UserExists
    | TooShort
    | NoSuchPath
    | InvalidChoice
    | UnknownSet
    | InvalidPermissions
    | NotConfirmed

  /** One pass through a prompt loop. `Cancelled` is the raised
      `KeyboardInterrupt` that abandons the surrounding operation. */
  datatype Outcome<T> = Accepted(value: T) | Retry(reason: Reason) | Cancelled

  // ---------------------------------------------------------------- username

  /** The class `[a-zA-Z0-9_.]`. */
  predicate UsernameChar(c: char) {
    'a' <= c <= 'z' || 'A' <= c <= 'Z' || '0' <= c <= '9' || c == '_' || c == '.'
  }

  /** `re.match("^[a-zA-Z0-9_.]{3,20}$", s)`. */
  predicate UsernamePattern(s: string) {
    PyAnchoredMatch(s, UsernameChar, 3, 20)
  }

  /** One attempt of `get_data.username(only_existing)`. `confirm` answers the
      follow-up question asked when the line is "cancel"; `stored` is the user
      directory as currently saved. */
  function UsernameAttempt(line: string, confirm: string, onlyExisting: bool, stored: Directory): (r: Outcome<string>)
    ensures r.Accepted? <==> line != "cancel" && UsernamePattern(line) && (onlyExisting <==> HasKey(stored, line))
    ensures r.Accepted? ==> r.value == line && r.value != "cancel" && r.value != ""
    ensures r.Cancelled? <==> line == "cancel" && SaysYes(confirm)
  {
    if line == "cancel" then
      if SaysYes(confirm) then Cancelled else Retry(CancelDeclined)
    else if line == "" then Retry(Empty)
    else if !UsernamePattern(line) then Retry(InvalidUsername)
    else if Contains(line, ' ') then Retry(ContainsSpace)
    else if onlyExisting then
      if HasKey(stored, line) then Accepted(line) else Retry(UnknownUser)
    else if HasKey(stored, line) then Retry(UserExists)
    else Accepted(line)
  }

  /** No string the username pattern matches holds a space, with or without
      the trailing newline Python's `$` lets through. */
  lemma UsernamePatternHasNoSpace(s: string)
    requires UsernamePattern(s)
    ensures !Contains(s, ' ')
  {
    forall i | 0 <= i < |s|
      ensures s[i] != ' '
    {
      if !Repeats(s, UsernameChar, 3, 20) && i < |s| - 1 {
        assert s[..|s| - 1][i] == s[i];
      }
    }
  }

  /** The space check after the pattern check can never refuse a line. */
  lemma SpaceCheckUnreachable(line: string, confirm: string, onlyExisting: bool, stored: Directory)
    ensures UsernameAttempt(line, confirm, onlyExisting, stored) != Retry(ContainsSpace)
  {
    if line != "cancel" && line != "" && UsernamePattern(line) {
      UsernamePatternHasNoSpace(line);
    }
  }

  /** An accepted username typed as a line is 3 to 20 characters, each a
      letter, digit, underscore or period, and so never holds a space. */
  lemma AcceptedUsernameShape(line: string, confirm: string, onlyExisting: bool, stored: Directory)
    requires IsLine(line)
    requires UsernameAttempt(line, confirm, onlyExisting, stored).Accepted?
    ensures 3 <= |line| <= 20
    ensures forall i :: 0 <= i < |line| ==> UsernameChar(line[i])
    ensures !Contains(line, ' ')
  {
    LineMatch(line, UsernameChar, 3, 20);
    UsernamePatternHasNoSpace(line);
  }

  // ---------------------------------------------------------------- password

  /** The shortest password accepted; the refusal message claims six. */
  const MinPasswordLength := 4

  /** One attempt of `get_data.password()`. */
  function PasswordAttempt(line: string): (r: Outcome<string>)
    ensures r.Accepted? <==> line != "cancel" && |line| >= MinPasswordLength
    ensures r.Accepted? ==> r.value == line
    ensures r.Cancelled? <==> line == "cancel"
    ensures line == "" ==> r == Retry(Empty)
  {
    if line == "cancel" then Cancelled
    else if line == "" then Retry(Empty)
    else if |line| < MinPasswordLength then Retry(TooShort)
    else Accepted(line)
  }

  // ---------------------------------------------------------------- home directory

  /** The value stored for "a home directory named after the user". */
  const LocalUser := "<>local_user<>"

  /** One attempt of `get_data.homedir()` on `host`. */
  function HomedirAttempt(line: string, host: Host.Host): (r: Outcome<string>)
    ensures r.Cancelled? <==> line == "cancel"
    ensures line == "local" ==> r == Accepted(LocalUser)
    ensures line == "" ==> r == Retry(Empty)
    ensures line != "local" && StartsWith(line, "~") ==>
      var path := Host.Join(host.cwd, line[1..]);
      (r.Accepted? <==> path in host.paths) && (r.Accepted? ==> r.value == path)
    ensures line !in {"cancel", "local", ""} && !StartsWith(line, "~") ==>
      (r.Accepted? <==> line in host.paths) && (r.Accepted? ==> r.value == line)
    ensures Host.Valid(host) && r.Accepted? ==> r.value != "" && r.value != "cancel"
  {
    if line == "cancel" then
      assert line[0] == 'c' && line[..1] == [line[0]];
      Cancelled
    else if line == "local" then Accepted(LocalUser)
    else if line == "" then Retry(Empty)
    else
      var path := if StartsWith(line, "~") then Host.Join(host.cwd, line[1..]) else line;
      assert Host.Valid(host) ==> path != "" && path != "cancel" by {
        if Host.Valid(host) && StartsWith(line, "~") {
          assert path[0] == '/' && "cancel"[0] == 'c';
        }
      }
      if path in host.paths then Accepted(path) else Retry(NoSuchPath)
  }

  // ---------------------------------------------------------------- permissions

  datatype PermKind = Preset | Custom

  /** The first question of `get_data.perms()`: preset or custom. */
  function PermKindAttempt(line: string): (r: Outcome<PermKind>)
    ensures r == Accepted(Preset) <==> Lower(line) == "preset"
    ensures r == Accepted(Custom) <==> Lower(line) == "custom"
    ensures r.Cancelled? <==> Lower(line) == "cancel"
  {
    var choice := Lower(line);
    if choice == "cancel" then Cancelled
    else if choice == "preset" then Accepted(Preset)
    else if choice == "custom" then Accepted(Custom)
    else Retry(InvalidChoice)
  }

  const ReadOnlyPerms := "elr"
  const ReadWritePerms := "elradfmw"
  const AdminPerms := "elradfmwMT"

  /** One attempt at choosing a preset. A preset is never offered for saving. */
  function PresetAttempt(line: string): (r: Outcome<PermChoice>)
    ensures r.Accepted? ==> r.value.perm in {ReadOnlyPerms, ReadWritePerms, AdminPerms} && !r.value.askToSave
    ensures r == Accepted(PermChoice(ReadOnlyPerms, false)) <==> Lower(line) in {"1", "read only"}
    ensures r == Accepted(PermChoice(ReadWritePerms, false)) <==> Lower(line) in {"2", "read write"}
    ensures r == Accepted(PermChoice(AdminPerms, false)) <==> Lower(line) in {"3", "admin"}
    ensures r.Cancelled? <==> Lower(line) == "cancel"
  {
    var choice := Lower(line);
    if choice == "1" || choice == "read only" then Accepted(PermChoice(ReadOnlyPerms, false))
    else if choice == "2" || choice == "read write" then Accepted(PermChoice(ReadWritePerms, false))
    else if choice == "3" || choice == "admin" then Accepted(PermChoice(AdminPerms, false))
    else if choice == "cancel" then Cancelled
    else Retry(InvalidChoice)
  }

  /** The class `[elradfmw]`: custom strings cannot grant `M` or `T`. */
  predicate CustomPermChar(c: char) {
    c in "elradfmw"
  }

  /** `re.match("^[elradfmw]{1,7}$", s)`. */
  predicate CustomPattern(s: string) {
    PyAnchoredMatch(s, CustomPermChar, 1, 7)
  }

  /** How a saved set is named at the prompt. */
  function Bracket(name: string): (r: string)
    ensures |r| == |name| + 2 && r[0] == '<' && r[|r| - 1] == '>'
    ensures r[1..|r| - 1] == name
  {
    "<" + name + ">"
  }

  /** A token names at most one set. */
  lemma BracketInjective(a: string, b: string)
    requires Bracket(a) == Bracket(b)
    ensures a == b
  {
    assert a == Bracket(a)[1..|Bracket(a)| - 1];
  }

  /** The table `compare_sets` built from the saved sets: `<key>` mapped to
      that set's permissions. Keys of a dict are distinct, so the order of
      assignment does not matter. */
  function CompareSets(saved: PermissionSets): (m: map<string, string>)
    ensures forall k :: HasKey(saved, k) ==> Bracket(k) in m && m[Bracket(k)] == Get(saved, k).permissions
    ensures forall tok :: tok in m ==> exists k :: HasKey(saved, k) && tok == Bracket(k)
  {
    if |saved| == 0 then map[]
    else
      var rest := CompareSets(saved[1..]);
      var m := rest[Bracket(saved[0].0) := saved[0].1.permissions];
      CompareSetsStep(saved, rest, m);
      CompareSetsTokensStep(saved, rest, m);
      m
  }

  /** The inductive step of `CompareSets`: adding the first saved set keeps
      every saved name's entry. */
  lemma CompareSetsStep(saved: PermissionSets, rest: map<string, string>, m: map<string, string>)
    requires |saved| > 0
    requires forall k :: HasKey(saved[1..], k) ==> Bracket(k) in rest && rest[Bracket(k)] == Get(saved[1..], k).permissions
    requires m == rest[Bracket(saved[0].0) := saved[0].1.permissions]
    ensures forall k :: HasKey(saved, k) ==> Bracket(k) in m && m[Bracket(k)] == Get(saved, k).permissions
  {
    forall k | HasKey(saved, k)
      ensures Bracket(k) in m && m[Bracket(k)] == Get(saved, k).permissions
    {
      HeadOrTail(saved, k);
      if k != saved[0].0 && Bracket(k) == Bracket(saved[0].0) {
        BracketInjective(k, saved[0].0);
      }
    }
  }

  /** The inductive step of `CompareSets`: every token stays a bracketed
      saved name. */
  lemma CompareSetsTokensStep(saved: PermissionSets, rest: map<string, string>, m: map<string, string>)
    requires |saved| > 0
    requires forall tok :: tok in rest ==> exists k :: HasKey(saved[1..], k) && tok == Bracket(k)
    requires m == rest[Bracket(saved[0].0) := saved[0].1.permissions]
    ensures forall tok :: tok in m ==> exists k :: HasKey(saved, k) && tok == Bracket(k)
  {
    forall tok | tok in m
      ensures exists k :: HasKey(saved, k) && tok == Bracket(k)
    {
      if tok != Bracket(saved[0].0) {
        var k :| HasKey(saved[1..], k) && tok == Bracket(k);
        HeadOrTail(saved, k);
      } else {
        HeadOrTail(saved, saved[0].0);
      }
    }
  }

  /** The outcome of the custom branch: the string and whether the save
      question follows. */
  datatype PermChoice = PermChoice(perm: string, askToSave: bool)

  /** A lowered line of the form `<...>` names a saved set. */
  predicate IsSetToken(s: string) {
    StartsWith(s, "<") && EndsWith(s, ">")
  }

  /** One attempt in the custom branch of `get_data.perms(askToSave)`.
      `confirm` answers "Is this correct?"; `saved` is the stored
      `permission_sets`. */
  function CustomAttempt(line: string, confirm: string, askToSave: bool, saved: PermissionSets): (r: Outcome<PermChoice>)
    ensures r.Cancelled? <==> Lower(line) == "cancel"
    ensures IsSetToken(Lower(line)) ==>
      (r.Accepted? <==> exists k :: HasKey(saved, k) && Lower(line) == Bracket(k))
    ensures forall k :: HasKey(saved, k) && Lower(line) == Bracket(k) ==>
      r == Accepted(PermChoice(Get(saved, k).permissions, false))
    ensures IsSetToken(Lower(line)) && !(exists k :: HasKey(saved, k) && Lower(line) == Bracket(k)) ==>
      r == Retry(UnknownSet)
    ensures !IsSetToken(Lower(line)) && r.Accepted? ==>
      r.value == PermChoice(Lower(line), askToSave) && CustomPattern(Lower(line)) && SaysYes(confirm)
    ensures !IsSetToken(Lower(line)) && Lower(line) != "cancel" && CustomPattern(Lower(line)) && SaysYes(confirm) ==>
      r == Accepted(PermChoice(Lower(line), askToSave))
    ensures !IsSetToken(Lower(line)) && Lower(line) != "cancel" && !CustomPattern(Lower(line)) ==>
      r == Retry(InvalidPermissions)
    ensures !IsSetToken(Lower(line)) && Lower(line) != "cancel" && CustomPattern(Lower(line)) && !SaysYes(confirm) ==>
      r == Retry(NotConfirmed)
  {
    var perm := Lower(line);
    if perm == "cancel" then Cancelled
    else if IsSetToken(perm) then
      var compare := CompareSets(saved);
      if perm in compare then Accepted(PermChoice(compare[perm], false)) else Retry(UnknownSet)
    else if !CustomPattern(perm) then Retry(InvalidPermissions)
    else if SaysYes(confirm) then Accepted(PermChoice(perm, askToSave))
    else Retry(NotConfirmed)
  }

  /** A typed custom string is 1 to 7 of `elradfmw`: it never grants `M`
      or `T`, which only a preset or a saved set can. */
  lemma CustomStringShape(line: string, confirm: string, askToSave: bool, saved: PermissionSets)
    requires IsLine(line)
    requires !IsSetToken(Lower(line))
    requires CustomAttempt(line, confirm, askToSave, saved).Accepted?
    ensures 1 <= |Lower(line)| <= 7
    ensures forall i :: 0 <= i < |Lower(line)| ==> Lower(line)[i] in "elradfmw"
    ensures !Contains(Lower(line), 'M') && !Contains(Lower(line), 'T')
  {
    assert IsLine(Lower(line)) by {
      forall i | 0 <= i < |line|
        ensures Lower(line)[i] != '\n'
      {
        assert line[i] != '\n';
      }
    }
    LineMatch(Lower(line), CustomPermChar, 1, 7);
  }

  /** A saved set whose key holds an upper-case letter can never be chosen:
      the typed token is lowered before the lookup, the table keys are not. */
  lemma UpperCaseSetUnreachable(line: string, k: string, i: nat)
    requires i < |k| && IsUpperAscii(k[i])
    ensures Lower(line) != Bracket(k)
  {
    if Lower(line) == Bracket(k) {
      assert Lower(line)[i + 1] == k[i];
      LowerHasNoUpper(line);
    }
  }

  // ---------------------------------------------------------------- saving a set

  /** "Would you like to save this permission set?": a `y` anywhere means
      yes and wins over an `n`. */
  function SaveAnswerAttempt(line: string): (r: Outcome<bool>)
    ensures r == Accepted(true) <==> SaysYes(line)
    ensures r == Accepted(false) <==> !SaysYes(line) && SaysNo(line)
    ensures !r.Cancelled?
  {
    if SaysYes(line) then Accepted(true)
    else if SaysNo(line) then Accepted(false)
    else Retry(InvalidChoice)
  }

  /** One attempt at the name or the description of a set to save. */
  function SetTextAttempt(line: string): (r: Outcome<string>)
    ensures r.Accepted? <==> line != "cancel" && line != ""
    ensures r.Accepted? ==> r.value == line
    ensures r.Cancelled? <==> line == "cancel"
  {
    if line == "cancel" then Cancelled
    else if line == "" then Retry(Empty)
    else Accepted(line)
  }
}

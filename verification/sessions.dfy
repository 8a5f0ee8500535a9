/** The list of connected users that `MyFTPHandler` keeps: a login appends
    the name, a logout removes its first occurrence (Python's `list.remove`,
    which raises `ValueError` when the name is absent), and the server reports
    a copy of the list. A name appears once per open session. */
module Sessions {
  import opened Wrappers

  type Ledger = seq<string>

  /** The `ValueError` of `list.remove` on a name not in the list. */
  datatype LedgerError = NotConnected(name: string)

  /** `on_login(username)`: one more session for `u`, after all others. */
  function OnLogin(l: Ledger, u: string): (r: Ledger)
    ensures |r| == |l| + 1 && r[..|l|] == l && r[|l|] == u
    ensures multiset(r) == multiset(l) + multiset{u}
  {
    l + [u]
  }

  /** The position of the first occurrence of `u` in `l`. */
  function FirstIndex(l: Ledger, u: string): (i: nat)
    requires u in l
    ensures i < |l| && l[i] == u
    ensures u !in l[..i]
  {
    if l[0] == u then 0
    else
      var i := FirstIndex(l[1..], u);
      assert l[..i + 1] == [l[0]] + l[1..][..i];
      i + 1
  }

  /** `on_logout(username)`: drop the first occurrence of `u`, scanning from
      the oldest session. */
  function OnLogout(l: Ledger, u: string): (r: Result<Ledger, LedgerError>)
    ensures r.Failure? <==> u !in l
    ensures r.Failure? ==> r.error == NotConnected(u)
    ensures r.Success? ==> r.value == l[..FirstIndex(l, u)] + l[FirstIndex(l, u) + 1..]
  {
    if |l| == 0 then Failure(NotConnected(u))
    else if l[0] == u then Success(l[1..])
    else
      var rest :- OnLogout(l[1..], u);
      DropPastHead(l, u);
      Success([l[0]] + rest)
  }

  /** Dropping the first `u` from a list that does not start with it keeps
      the head and drops the first `u` from the tail. */
  lemma DropPastHead(l: Ledger, u: string)
    requires u in l && l[0] != u
    ensures u in l[1..]
    ensures var i := FirstIndex(l[1..], u);
      FirstIndex(l, u) == i + 1 && l[..i + 1] + l[i + 2..] == [l[0]] + (l[1..][..i] + l[1..][i + 1..])
  {
    var i := FirstIndex(l[1..], u);
    assert l[..i + 1] == [l[0]] + l[1..][..i];
    assert l[i + 2..] == l[1..][i + 1..];
  }

  /** A logout of a connected name ends exactly one session of that name. */
  lemma {:induction false} LogoutEndsOneSession(l: Ledger, u: string)
    requires u in l
    ensures OnLogout(l, u).Success?
    ensures multiset(OnLogout(l, u).value) == multiset(l) - multiset{u}
  {
    assert l == [l[0]] + l[1..];
    if l[0] != u {
      LogoutEndsOneSession(l[1..], u);
      assert OnLogout(l, u).value == [l[0]] + OnLogout(l[1..], u).value;
    }
  }

  /** `get_connected_users()`: a fresh list holding the same names in the
      same order. */
  function ConnectedUsers(l: Ledger): (r: seq<string>)
    ensures |r| == |l| && forall i :: 0 <= i < |l| ==> r[i] == l[i]
  {
    l[..]
  }

  /** A login followed by a logout of the same name restores the list when
      that name had no other session open. */
  lemma LoginLogoutRoundTrip(l: Ledger, u: string)
    requires u !in l
    ensures OnLogout(OnLogin(l, u), u) == Success(l)
  {
    var l' := OnLogin(l, u);
    assert FirstIndex(l', u) == |l|;
    assert l'[|l| + 1..] == [];
    assert l'[..|l|] + l'[|l| + 1..] == l;
  }

  /** With an earlier session open, the logout removes that earlier one, so
      the new session moves to the end of the list. */
  lemma LoginLogoutRemovesOldest(l: Ledger, u: string)
    requires u in l
    ensures OnLogout(l, u).Success?
    ensures OnLogout(OnLogin(l, u), u) == Success(OnLogout(l, u).value + [u])
  {
    var i := FirstIndex(l, u);
    FirstIndexOfExtension(l, [u], u);
    DropOfExtension(l, [u], i);
    var before := OnLogout(l, u);
    var after := OnLogout(l + [u], u);
    assert before.Success? && before.value == l[..i] + l[i + 1..];
    assert after.Success? && after.value == (l + [u])[..i] + (l + [u])[i + 1..];
  }

  /** Dropping a position of `l` from `l + m` is dropping it from `l`, then appending `m`. */
  lemma DropOfExtension(l: Ledger, m: Ledger, i: nat)
    requires i < |l|
    ensures (l + m)[..i] + (l + m)[i + 1..] == (l[..i] + l[i + 1..]) + m
  {
    assert (l + m)[..i] == l[..i];
    assert (l + m)[i + 1..] == l[i + 1..] + m;
  }

  /** Appending to a list does not move the first occurrence of a name already in it. */
  lemma FirstIndexOfExtension(l: Ledger, m: Ledger, u: string)
    requires u in l
    ensures u in l + m && FirstIndex(l + m, u) == FirstIndex(l, u)
  {
    var i := FirstIndex(l, u);
    assert (l + m)[..i] == l[..i];
    FirstIndexUnique(l + m, u, i);
  }

  /** The first occurrence is the one position holding `u` with no `u` before it. */
  lemma {:induction false} FirstIndexUnique(l: Ledger, u: string, i: nat)
    requires i < |l| && l[i] == u && u !in l[..i]
    ensures FirstIndex(l, u) == i
  {
    if i > 0 {
      assert l[0] == l[..i][0];
      assert l[1..][..i - 1] == l[1..i];
      assert forall x :: x in l[1..i] ==> x in l[..i];
      FirstIndexUnique(l[1..], u, i - 1);
    }
  }

  /** Each login shows up as one more session of that name among the
      connected users; each successful logout as one fewer. */
  lemma SessionCounts(l: Ledger, u: string)
    ensures multiset(ConnectedUsers(OnLogin(l, u)))[u] == multiset(ConnectedUsers(l))[u] + 1
    ensures OnLogout(l, u).Success? ==>
      multiset(ConnectedUsers(OnLogout(l, u).value))[u] + 1 == multiset(ConnectedUsers(l))[u]
  {
    assert ConnectedUsers(l) == l;
    assert ConnectedUsers(OnLogin(l, u)) == OnLogin(l, u);
    if u in l {
      LogoutEndsOneSession(l, u);
      assert ConnectedUsers(OnLogout(l, u).value) == OnLogout(l, u).value;
    }
  }
}

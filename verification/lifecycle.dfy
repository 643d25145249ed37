/** Properties that relate several actions: the referential invariant the
    actions keep, and the account and todo workflows run end to end. */
module Lifecycle {
  import opened Wrappers
  import opened Store
  import opened Http
  import opened Auth
  import opened Todos

  /** The schema's constraints as the actions rely on them: unique emails,
      every token row and todo pointing at an existing user, and every
      verification row carrying its user's email. */
  predicate Valid(s: State) {
    && EmailsUnique(s.users)
    && (forall i :: 0 <= i < |s.verifications| ==>
          s.verifications[i].userId in s.users &&
          s.users[s.verifications[i].userId].email == s.verifications[i].email)
    && (forall i :: 0 <= i < |s.resets| ==> s.resets[i].userId in s.users)
    && (forall id :: id in s.todos ==> s.todos[id].userId in s.users)
  }

  // ----- account lifecycle -----

  lemma RegisterPreservesValid(s: State, p: Registration, newId: UserId, token: string, fault: WriteFault)
    requires Valid(s)
    ensures Valid(Register(s, p, newId, token, fault).state)
  {
    var r := Register(s, p, newId, token, fault);
    if r.response.Reply? {
      var t := r.state;
      assert forall id :: id in s.users ==> s.users[id].email != p.email;
      forall a, b | a in t.users && b in t.users && t.users[a].email == t.users[b].email
        ensures a == b
      {
        if a != newId && b != newId {
          assert t.users[a] == s.users[a] && t.users[b] == s.users[b];
        }
      }
      forall i | 0 <= i < |t.verifications|
        ensures t.verifications[i].userId in t.users
        ensures t.users[t.verifications[i].userId].email == t.verifications[i].email
      {
        if i < |s.verifications| {
          assert t.verifications[i] == t.verifications[..|s.verifications|][i] == s.verifications[i];
        }
      }
    }
  }

  /** A fresh registration can be verified with the token it issued: no older
      verification row carries the new email, so the new row is the one found. */
  lemma RegisterThenVerify(s: State, p: Registration, newId: UserId, token: string, now: Timestamp)
    requires Valid(s)
    requires Register(s, p, newId, token, NoFault).response.Reply?
    ensures var t := Register(s, p, newId, token, NoFault).state;
            var v := VerifyEmail(t, p.email, token, now);
            && v.response.status == StatusOk
            && v.state.verifications[|s.verifications|].isVerified
            && v.state.verifications[|s.verifications|].userId == newId
            && v.state.verifications[|s.verifications|].verifiedAt == Some(now)
  {
    var t := Register(s, p, newId, token, NoFault).state;
    var n := |s.verifications|;
    assert forall id :: id in s.users ==> s.users[id].email != p.email;
    forall j | 0 <= j < n
      ensures t.verifications[j].email != p.email
    {
      assert t.verifications[j] == t.verifications[..n][j] == s.verifications[j];
      assert s.users[s.verifications[j].userId].email == s.verifications[j].email;
    }
    assert FirstVerificationFor(t.verifications, p.email, n);
  }

  lemma VerifyEmailPreservesValid(s: State, email: string, candidate: string, now: Timestamp)
    requires Valid(s)
    ensures Valid(VerifyEmail(s, email, candidate, now).state)
  {
    var r := VerifyEmail(s, email, candidate, now);
    if r.response.status == StatusOk {
      var i := VerificationByEmail(s.verifications, email).value;
      assert FirstVerificationFor(s.verifications, email, i);
      forall j | 0 <= j < |r.state.verifications|
        ensures r.state.verifications[j].userId in r.state.users
        ensures r.state.users[r.state.verifications[j].userId].email == r.state.verifications[j].email
      {
        if j != i {
          assert r.state.verifications[j] == s.verifications[j];
        }
      }
    }
  }

  /** There is no already-verified guard: verifying with the first row's token
      succeeds, and doing it again succeeds too, only re-stamping `verifiedAt`
      on that row. */
  lemma VerifyEmailRepeatable(s: State, email: string, i: nat, first: Timestamp, again: Timestamp)
    requires FirstVerificationFor(s.verifications, email, i)
    ensures var candidate := s.verifications[i].verificationToken;
            var t := VerifyEmail(s, email, candidate, first).state;
            var u := VerifyEmail(t, email, candidate, again);
            && VerifyEmail(s, email, candidate, first).response.status == StatusOk
            && u.response.status == StatusOk
            && |u.state.verifications| == |t.verifications|
            && u.state.verifications[i] == t.verifications[i].(verifiedAt := Some(again))
            && forall j :: 0 <= j < |t.verifications| && j != i ==>
                 u.state.verifications[j] == t.verifications[j]
  {
    var candidate := s.verifications[i].verificationToken;
    var t := VerifyEmail(s, email, candidate, first).state;
    assert FirstVerificationFor(t.verifications, email, i) by {
      forall j | 0 <= j < i ensures t.verifications[j].email != email {
        assert t.verifications[j] == s.verifications[j];
      }
    }
  }

  lemma ForgotPasswordPreservesValid(s: State, email: string, token: string)
    requires Valid(s)
    ensures Valid(ForgotPassword(s, email, token).state)
  {
    var r := ForgotPassword(s, email, token);
    forall i | 0 <= i < |r.state.resets| ensures r.state.resets[i].userId in r.state.users {
      if i < |s.resets| {
        assert r.state.resets[i] == r.state.resets[..|s.resets|][i] == s.resets[i];
      }
    }
  }

  lemma ResetPasswordPreservesValid(s: State, token: string, newPassword: string)
    requires Valid(s)
    ensures Valid(ResetPassword(s, token, newPassword).state)
  {
    var r := ResetPassword(s, token, newPassword);
    if r.response.status == StatusOk {
      var i := ResetByToken(s.resets, token).value;
      assert FirstResetFor(s.resets, token, i);
      var id := s.resets[i].userId;
      assert PasswordChanged(s.users, r.state.users, id, newPassword);
      forall a | a in r.state.users ensures r.state.users[a].email == s.users[a].email {
        if a != id {
          assert r.state.users[a] == s.users[a];
        }
      }
    }
  }

  /** Every reset row points at an existing user, so the 400 branch of the
      reset is unreachable from a valid state. */
  lemma ResetPasswordNeverOrphaned(s: State, token: string, newPassword: string)
    requires Valid(s)
    ensures ResetPassword(s, token, newPassword).response.status != StatusBadRequest
  {
    match ResetByToken(s.resets, token)
    case None =>
    case Some(i) =>
      assert FirstResetFor(s.resets, token, i);
  }

  /** A reset token just issued for an email, when it is new to the table,
      resets that user's password. */
  lemma ForgotThenReset(s: State, email: string, token: string, newPassword: string)
    requires ForgotPassword(s, email, token).response.status == StatusOk
    requires forall i :: 0 <= i < |s.resets| ==> s.resets[i].token != token
    ensures var t := ForgotPassword(s, email, token).state;
            var u := ResetPassword(t, token, newPassword);
            && u.response.status == StatusOk
            && exists id :: id in s.users && s.users[id].email == email &&
                             PasswordChanged(t.users, u.state.users, id, newPassword)
  {
    var t := ForgotPassword(s, email, token).state;
    var n := |s.resets|;
    forall j | 0 <= j < n ensures t.resets[j].token != token {
      assert t.resets[j] == t.resets[..n][j] == s.resets[j];
    }
    assert FirstResetFor(t.resets, token, n);
    var id := t.resets[n].userId;
    var u := ResetPassword(t, token, newPassword);
    assert PasswordChanged(t.users, u.state.users, id, newPassword);
  }

  /** The reset row survives a reset: the same token works again. */
  lemma ResetTokenReusable(s: State, token: string, first: string, second: string)
    requires ResetPassword(s, token, first).response.status == StatusOk
    ensures var t := ResetPassword(s, token, first).state;
            var u := ResetPassword(t, token, second);
            && u.response.status == StatusOk
            && exists id :: PasswordChanged(t.users, u.state.users, id, second)
  {
    var t := ResetPassword(s, token, first).state;
    var i := ResetByToken(s.resets, token).value;
    assert FirstResetFor(s.resets, token, i);
    var id := s.resets[i].userId;
    assert PasswordChanged(s.users, t.users, id, first);
    assert FirstResetFor(t.resets, token, i);
    var u := ResetPassword(t, token, second);
    assert PasswordChanged(t.users, u.state.users, id, second);
  }

  /** Login answers do not reveal why a login failed. */
  lemma LoginFailureIndistinguishable(s: State, m1: Option<bool>, m2: Option<bool>, a1: AttemptOutcome, a2: AttemptOutcome)
    requires a1 != Authenticated && a2 != Authenticated
    ensures Login(s, m1, a1) == Login(s, m2, a2)
  {
  }

  // ----- todos -----

  /** A create by one caller leaves every other user's listing as it was. */
  lemma CreateTodoIsolated(s: State, caller: UserId, payload: TodoPayload, newId: TodoId, other: UserId)
    requires other != caller
    ensures OwnedBy(CreateTodo(s, caller, payload, newId).state.todos, other) == OwnedBy(s.todos, other)
  {
    var t := CreateTodo(s, caller, payload, newId).state.todos;
    assert OwnedBy(t, other).Keys == OwnedBy(s.todos, other).Keys;
  }

  /** An update by one caller leaves every other user's listing as it was. */
  lemma UpdateTodoIsolated(s: State, caller: UserId, id: TodoId, payload: TodoPayload, other: UserId)
    requires other != caller
    ensures OwnedBy(UpdateTodo(s, caller, id, payload).state.todos, other) == OwnedBy(s.todos, other)
  {
    var t := UpdateTodo(s, caller, id, payload).state.todos;
    assert OwnedBy(t, other).Keys == OwnedBy(s.todos, other).Keys;
  }

  /** A delete by one caller leaves every other user's listing as it was. */
  lemma DeleteTodoIsolated(s: State, caller: UserId, id: TodoId, other: UserId)
    requires other != caller
    ensures OwnedBy(DeleteTodo(s, caller, id).state.todos, other) == OwnedBy(s.todos, other)
  {
    var t := DeleteTodo(s, caller, id).state.todos;
    assert OwnedBy(t, other).Keys == OwnedBy(s.todos, other).Keys;
  }

  /** A created todo shows up in its creator's listing, whatever owner the
      payload claimed. */
  lemma CreateThenList(s: State, caller: UserId, payload: TodoPayload, newId: TodoId)
    requires newId !in s.todos
    ensures var t := CreateTodo(s, caller, payload, newId).state;
            && newId in OwnedBy(t.todos, caller)
            && OwnedBy(t.todos, caller)[newId].title == payload.title
            && OwnedBy(t.todos, caller).Keys == OwnedBy(s.todos, caller).Keys + {newId}
  {
    var t := CreateTodo(s, caller, payload, newId).state;
    assert OwnedBy(t.todos, caller).Keys == OwnedBy(s.todos, caller).Keys + {newId};
  }

  /** After the owner deletes a todo it is gone from their listing, and the
      listing has lost nothing else. */
  lemma DeleteThenList(s: State, caller: UserId, id: TodoId)
    requires DeleteTodo(s, caller, id).response.status == StatusOk
    ensures OwnedBy(DeleteTodo(s, caller, id).state.todos, caller) == OwnedBy(s.todos, caller) - {id}
  {
    var t := DeleteTodo(s, caller, id).state;
    assert OwnedBy(t.todos, caller).Keys == OwnedBy(s.todos, caller).Keys - {id};
  }

  /** The todo actions of an existing caller keep the invariant. */
  lemma TodoWritesPreserveValid(s: State, caller: UserId, payload: TodoPayload, id: TodoId, newId: TodoId)
    requires Valid(s) && caller in s.users
    ensures Valid(CreateTodo(s, caller, payload, newId).state)
    ensures Valid(UpdateTodo(s, caller, id, payload).state)
    ensures Valid(DeleteTodo(s, caller, id).state)
  {
  }
}

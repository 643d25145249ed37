/** The account actions of the authentication controller, each a step from a
    persistence state (plus the request's validated inputs, and the fresh
    token values and clock reading the action would draw) to a response and
    the state after it. */
module Auth {
  import opened Wrappers
  import opened Store
  import opened Http

  /** The validated registration payload (the confirmation field is consumed
      by the validator and not stored). */
  datatype Registration = Registration(email: string, username: string, password: string)

  /** A database failure reported for one of the two registration inserts. */
  datatype WriteFault = NoFault | UserInsertFault | TokenInsertFault

  /** What the external authenticator's `attempt` reports. */
  datatype AttemptOutcome = Authenticated | UnknownEmail | WrongPassword

  /** The verification row as it is saved by a successful verification. */
  function MarkVerified(row: VerificationRow, now: Timestamp): (v: VerificationRow)
    ensures v.isVerified && v.verifiedAt == Some(now)
    ensures v.userId == row.userId && v.email == row.email
    ensures v.verificationToken == row.verificationToken
  {
    row.(isVerified := true, verifiedAt := Some(now))
  }

  /** Registration: the user row and its verification-token row are inserted
      in one transaction. The users insert is refused when the database
      reports a fault, the primary key is taken or the email violates the
      unique constraint; a failing token insert rolls the user row back. The
      exception is not caught, so every failure is `Raised` with nothing
      written. */
  function Register(s: State, p: Registration, newId: UserId, token: string, fault: WriteFault): (r: Step)
    ensures r.response.Raised? <==>
              fault != NoFault || newId in s.users || EmailTaken(s.users, p.email)
    ensures r.response.Raised? ==> r.state == s
    ensures r.response.Reply? ==>
              r.response == Reply(StatusCreated, Success(Account(newId, p.email, p.username)))
    ensures r.response.Reply? ==>
              && newId !in s.users
              && r.state.users.Keys == s.users.Keys + {newId}
              && (forall id :: id in s.users ==> r.state.users[id] == s.users[id])
              && r.state.users[newId] == User(p.email, p.username, p.password)
    ensures r.response.Reply? ==>
              && |r.state.verifications| == |s.verifications| + 1
              && r.state.verifications[..|s.verifications|] == s.verifications
              && var row := r.state.verifications[|s.verifications|];
                 && row.userId == newId
                 && row.email == r.state.users[row.userId].email
                 && row.verificationToken == token
                 && !row.isVerified && row.verifiedAt == None
    ensures r.state.resets == s.resets && r.state.todos == s.todos
  {
    if fault == UserInsertFault || newId in s.users || EmailTaken(s.users, p.email) then
      Step(Raised, s)
    else
      var user := User(p.email, p.username, p.password);
      var afterUser := s.(users := s.users[newId := user]);
      if fault == TokenInsertFault then
        // the rollback discards `afterUser`
        Step(Raised, s)
      else
        assert fault == NoFault;
        var row := VerificationRow(newId, user.email, token, false, None);
        Step(Reply(StatusCreated, Success(Account(newId, user.email, user.username))),
             afterUser.(verifications := afterUser.verifications + [row]))
  }

  /** The expiry requested for the access token: a truthy remember-me flag
      asks for seven days, anything else (false or absent) for one. */
  function TokenDuration(rememberMe: Option<bool>): (d: string)
    ensures d == "7day" <==> rememberMe == Some(true)
    ensures d == "7day" || d == "1days"
  {
    if rememberMe == Some(true) then "7day" else "1days"
  }

  /** Login: the credential check and token issuance belong to the
      authenticator, whose verdict is `attempt`. Every failure collapses to
      the same 401 reply, whatever its cause and whatever the flag. */
  function Login(s: State, rememberMe: Option<bool>, attempt: AttemptOutcome): (r: Step)
    ensures r.state == s
    ensures attempt == Authenticated ==>
              r.response == Reply(StatusOk, Success(AccessToken(TokenDuration(rememberMe))))
    ensures attempt != Authenticated ==>
              r.response == Reply(StatusUnauthorized, Fail(InvalidCredentials))
  {
    var duration := TokenDuration(rememberMe);
    match attempt
    case Authenticated => Step(Reply(StatusOk, Success(AccessToken(duration))), s)
    case _ => Step(Reply(StatusUnauthorized, Fail(InvalidCredentials)), s)
  }

  /** Logout: revoking the presented token is the authenticator's business;
      the action always reports success and touches no table. */
  function Logout(s: State): (r: Step)
    ensures r.state == s
    ensures r.response == Reply(StatusOk, Success(Revoked(true)))
  {
    Step(Reply(StatusOk, Success(Revoked(true))), s)
  }

  /** Email verification against the first token row recorded for the email. */
  function VerifyEmail(s: State, email: string, candidate: string, now: Timestamp): (r: Step)
    ensures r.response.Reply?
    ensures r.response.status in {StatusOk, StatusBadRequest, StatusNotFound}
    ensures r.response.status == StatusNotFound <==>
              forall i :: 0 <= i < |s.verifications| ==> s.verifications[i].email != email
    ensures r.response.status == StatusNotFound ==> r.response.body == Fail(OrmNotFound)
    ensures r.response.status == StatusBadRequest ==> r.response.body == Fail(InvalidVerificationToken)
    ensures r.response.status != StatusOk ==> r.state == s
    ensures forall i :: FirstVerificationFor(s.verifications, email, i) ==>
              (r.response.status == StatusBadRequest <==> s.verifications[i].verificationToken != candidate)
    ensures forall i :: FirstVerificationFor(s.verifications, email, i) && r.response.status == StatusOk ==>
              && |r.state.verifications| == |s.verifications|
              && r.state.verifications[i].isVerified
              && r.state.verifications[i].verifiedAt == Some(now)
              && r.state.verifications[i].userId == s.verifications[i].userId
              && r.state.verifications[i].email == email
              && r.state.verifications[i].verificationToken == candidate
              && (forall j :: 0 <= j < |s.verifications| && j != i ==>
                    r.state.verifications[j] == s.verifications[j])
              && r.response.body == Success(VerifiedRecord(r.state.verifications[i]))
    ensures r.state.users == s.users && r.state.resets == s.resets && r.state.todos == s.todos
  {
    match VerificationByEmail(s.verifications, email)
    case None => Step(Reply(StatusNotFound, Fail(OrmNotFound)), s)
    case Some(i) =>
      var row := s.verifications[i];
      if candidate != row.verificationToken then
        Step(Reply(StatusBadRequest, Fail(InvalidVerificationToken)), s)
      else
        var saved := MarkVerified(row, now);
        Step(Reply(StatusOk, Success(VerifiedRecord(saved))),
             s.(verifications := s.verifications[i := saved]))
  }

  /** Forgot password: issue one more reset token for the user with that
      email. Earlier tokens of that user are kept. */
  function ForgotPassword(s: State, email: string, token: string): (r: Step)
    ensures r.response.Reply?
    ensures r.response.status == StatusNotFound <==> !EmailTaken(s.users, email)
    ensures r.response.status == StatusNotFound ==>
              r.response.body == Fail(OrmNotFound) && r.state == s
    ensures r.response.status != StatusNotFound ==>
              && r.response == Reply(StatusOk, Success(Persisted(true)))
              && |r.state.resets| == |s.resets| + 1
              && r.state.resets[..|s.resets|] == s.resets
              && var row := r.state.resets[|s.resets|];
                 && row.token == token
                 && row.userId in s.users && s.users[row.userId].email == email
    ensures r.state.users == s.users && r.state.verifications == s.verifications
    ensures r.state.todos == s.todos
  {
    match UserByEmail(s.users, email)
    case None => Step(Reply(StatusNotFound, Fail(OrmNotFound)), s)
    case Some(id) =>
      Step(Reply(StatusOk, Success(Persisted(true))),
           s.(resets := s.resets + [ResetRow(id, token)]))
  }

  /** The users table after `id`'s password is overwritten: same keys, every
      other user as before, and `id` keeping its email and username. */
  predicate PasswordChanged(before: map<UserId, User>, after: map<UserId, User>, id: UserId, password: string) {
    && id in before
    && after.Keys == before.Keys
    && after[id] == before[id].(password := password)
    && forall other :: other in before && other != id ==> after[other] == before[other]
  }

  /** Reset password with the first reset row carrying the token. The row is
      left in place. */
  function ResetPassword(s: State, token: string, newPassword: string): (r: Step)
    ensures r.response.Reply?
    ensures r.response.status in {StatusOk, StatusBadRequest, StatusNotFound}
    ensures r.response.status == StatusNotFound <==>
              forall i :: 0 <= i < |s.resets| ==> s.resets[i].token != token
    ensures r.response.status != StatusOk ==>
              r.response.body == Fail(OrmNotFound) && r.state == s
    ensures forall i :: FirstResetFor(s.resets, token, i) ==>
              (r.response.status == StatusBadRequest <==> s.resets[i].userId !in s.users)
    ensures forall i :: FirstResetFor(s.resets, token, i) && r.response.status == StatusOk ==>
              PasswordChanged(s.users, r.state.users, s.resets[i].userId, newPassword)
    ensures r.response.status == StatusOk ==>
              r.response.body == Success(NewPasswordSet(true))
    ensures r.state.resets == s.resets && r.state.verifications == s.verifications
    ensures r.state.todos == s.todos
  {
    match ResetByToken(s.resets, token)
    case None => Step(Reply(StatusNotFound, Fail(OrmNotFound)), s)
    case Some(i) =>
      var id := s.resets[i].userId;
      if id !in s.users then
        Step(Reply(StatusBadRequest, Fail(OrmNotFound)), s)
      else
        var user := s.users[id].(password := newPassword);
        Step(Reply(StatusOk, Success(NewPasswordSet(true))),
             s.(users := s.users[id := user]))
  }
}

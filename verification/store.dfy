/** The persistence state the controllers read and write, as immutable values:
    the users table keyed by primary key, the two token tables as sequences of
    rows in insertion order, and the todos table keyed by primary key. */
module Store {
  import opened Wrappers

  type UserId = nat
  type TodoId = nat

  /** An instant supplied by the caller's clock. */
  type Timestamp = int

  /** A row of the users table. The password is held as given: the hashing the
      model layer applies before saving is not part of this model. */
  datatype User = User(email: string, username: string, password: string)

  /** A row of the email_verification_tokens table. */
  datatype VerificationRow = VerificationRow(
    userId: UserId,
    email: string,
    verificationToken: string,
    isVerified: bool,
    verifiedAt: Option<Timestamp>)

  /** A row of the password_reset_tokens table. */
  datatype ResetRow = ResetRow(userId: UserId, token: string)

  /** A row of the todos table (slug and timestamps left out). */
  datatype Todo = Todo(userId: UserId, title: string, content: Option<string>)

  datatype State = State(
    users: map<UserId, User>,
    verifications: seq<VerificationRow>,
    resets: seq<ResetRow>,
    todos: map<TodoId, Todo>)

  /** Index of the first row satisfying `p`. A `findBy…OrFail` query returns
      one matching row; taking the first in insertion order is this model's
      choice, since the query fixes no order. */
  function FirstMatch<T>(rows: seq<T>, p: T -> bool): (r: Option<nat>)
    ensures r.Some? ==> r.value < |rows| && p(rows[r.value])
    ensures r.Some? ==> forall j :: 0 <= j < r.value ==> !p(rows[j])
    ensures r.None? <==> forall j :: 0 <= j < |rows| ==> !p(rows[j])
  {
    if |rows| == 0 then None
    else if p(rows[0]) then Some(0)
    else
      match FirstMatch(rows[1..], p)
      case None => None
      case Some(i) => Some(i + 1)
  }

  /** Row `i` is the first verification row recorded for `email`. */
  predicate FirstVerificationFor(rows: seq<VerificationRow>, email: string, i: int) {
    0 <= i < |rows| && rows[i].email == email &&
    forall j :: 0 <= j < i ==> rows[j].email != email
  }

  /** Row `i` is the first reset row carrying `token`. */
  predicate FirstResetFor(rows: seq<ResetRow>, token: string, i: int) {
    0 <= i < |rows| && rows[i].token == token &&
    forall j :: 0 <= j < i ==> rows[j].token != token
  }

  /** `findByOrFail("email", email)` on the verification token table. */
  function VerificationByEmail(rows: seq<VerificationRow>, email: string): (r: Option<nat>)
    ensures r.None? <==> forall j :: 0 <= j < |rows| ==> rows[j].email != email
    ensures forall i :: FirstVerificationFor(rows, email, i) <==> r == Some(i)
  {
    FirstMatch(rows, (row: VerificationRow) => row.email == email)
  }

  /** `findByOrFail("token", token)` on the password reset token table. */
  function ResetByToken(rows: seq<ResetRow>, token: string): (r: Option<nat>)
    ensures r.None? <==> forall j :: 0 <= j < |rows| ==> rows[j].token != token
    ensures forall i :: FirstResetFor(rows, token, i) <==> r == Some(i)
  {
    FirstMatch(rows, (row: ResetRow) => row.token == token)
  }

  predicate EmailTaken(users: map<UserId, User>, email: string) {
    exists id :: id in users && users[id].email == email
  }

  /** The schema's unique constraint on users.email. */
  predicate EmailsUnique(users: map<UserId, User>) {
    forall a, b :: a in users && b in users && users[a].email == users[b].email ==> a == b
  }

  /** The user a lookup by email finds: the matching row with the least
      primary key (under `EmailsUnique` the only matching row). */
  function UserByEmail(users: map<UserId, User>, email: string): (r: Option<UserId>)
    ensures r.None? <==> !EmailTaken(users, email)
    ensures r.Some? ==> r.value in users && users[r.value].email == email
    ensures r.Some? ==> forall id :: id in users && users[id].email == email ==> r.value <= id
  {
    var ids := set id | id in users && users[id].email == email;
    if ids == {} then
      assert forall id :: id in users && users[id].email == email ==> id in ids;
      None
    else
      assert forall id :: id in users && users[id].email == email ==> id in ids;
      Some(Least(ids))
  }

  /** `m` is the least element of `ids`. */
  predicate IsLeast(m: nat, ids: set<nat>) {
    m in ids && forall x :: x in ids ==> m <= x
  }

  function Least(ids: set<nat>): (m: nat)
    requires ids != {}
    ensures m in ids && forall x :: x in ids ==> m <= x
  {
    LeastExists(ids);
    var m :| IsLeast(m, ids);
    m
  }

  lemma {:induction false} LeastExists(ids: set<nat>)
    requires ids != {}
    ensures exists m :: IsLeast(m, ids)
    decreases ids
  {
    var y :| y in ids;
    var rest := ids - {y};
    if rest == {} {
      assert ids == {y};
      assert IsLeast(y, ids);
    } else {
      LeastExists(rest);
      var m :| IsLeast(m, rest);
      assert ids == rest + {y};
      if y <= m {
        assert IsLeast(y, ids);
      } else {
        assert IsLeast(m, ids);
      }
    }
  }
}

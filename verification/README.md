# adonis-todo: account lifecycle and todo ownership, modelled in Dafny

This project models the decision logic of the two controllers of a small
Adonis REST backend: the authentication controller (register, login, logout,
email verification, forgot password, reset password) and the todos
controller (list, create, update, delete with an ownership check). Each
action is a pure step function from a persistence state and its validated
inputs to a response (a status code with a success or fail envelope, or an
uncaught exception) and the state after it.

The persistence state (`Store.State`) has four parts:

- `users`: primary key to `{email, username, password}`;
- `verifications`: email-verification token rows in insertion order,
  `{userId, email, verificationToken, isVerified, verifiedAt}`;
- `resets`: password-reset token rows in insertion order, `{userId, token}`;
- `todos`: primary key to `{userId, title, content}`.

The ORM calls become operations on these values. `findByOrFail` on a token
table is a first-match search over the rows (`Store.FirstMatch`). A user
lookup by email finds the matching user with the least primary key; under
the unique-email constraint that is the only match. `findOrFail` is map
membership, `create` is an append or an insert, `save` is a field update and
`delete` is a map removal. The registration transaction is one step that
writes both rows or neither.

The inputs the actions would draw from outside are parameters:

- the fresh uuid token values;
- the clock reading `now`;
- the primary keys the database assigns;
- a database fault injected into a registration insert;
- the external authenticator's verdict on a login.

Files:

- `wrappers.dfy`: `Option`.
- `store.dfy`: rows, state and lookups.
- `http.dfy`: status codes, messages and responses.
- `auth.dfy`: the authentication controller.
- `todos.dfy`: the todos controller.
- `lifecycle.dfy`: the state invariant `Valid` and the properties that span
  several actions.

Behaviour of the code that the model keeps as written:

- A failed registration is not caught by the controller. The rollback's
  exception propagates to the framework (`Raised`); the controller reports no
  message of its own.
- No verification email is sent by the code; none is modelled.
- Re-verification succeeds again and re-stamps `verifiedAt`.
- Earlier reset tokens stay valid when a new one is issued.
- A used reset token stays valid.

## Model

| member | source | states |
|---|---|---|
| Store.FirstMatch | app/Controllers/Http/AuthController.ts:76 | the index found satisfies the predicate and no earlier row does; none is found exactly when no row matches |
| Store.VerificationByEmail | app/Controllers/Http/AuthController.ts:76 | finds the first verification row for the email, or nothing exactly when no row carries that email |
| Store.ResetByToken | app/Controllers/Http/AuthController.ts:142 | finds the first reset row carrying the token, or nothing exactly when no row carries it |
| Store.UserByEmail | app/Controllers/Http/AuthController.ts:113 | finds an existing user with that email (the least id among matches), or nothing exactly when the email is not taken |
| Auth.MarkVerified | app/Controllers/Http/AuthController.ts:96-98 | the saved row is verified and stamped with `now`, with its owner, email and token kept |
| Auth.Register | app/Controllers/Http/AuthController.ts:14-36 | all-or-nothing. Failure happens exactly on a database fault, a taken primary key or a taken email, and then nothing is written. Success answers 201 with the serialized user (no password). It adds exactly one user and exactly one unverified token row. That row carries the new user's id and email and the fresh token. Every earlier user and row is kept. |
| Auth.TokenDuration | app/Controllers/Http/AuthController.ts:42 | expiry is "7day" exactly when the remember-me flag is true; otherwise (false or absent) "1days" |
| Auth.Login | app/Controllers/Http/AuthController.ts:38-59 | state unchanged. Success answers 200 with a token of the chosen duration. Every failure cause gives the same 401 "Invalid credentials". |
| Auth.Logout | app/Controllers/Http/AuthController.ts:61-68 | always answers 200 with revoked = true and changes no table |
| Auth.VerifyEmail | app/Controllers/Http/AuthController.ts:70-107 | 404 exactly when no row carries the email. 400 exactly when the first such row's token differs from the candidate. In both cases the state is unchanged. Otherwise 200: that row alone becomes verified with `verifiedAt = now`; every other row and table is kept. |
| Auth.ForgotPassword | app/Controllers/Http/AuthController.ts:109-132 | 404 with no change exactly when no user has the email. Otherwise 200: exactly one reset row is appended, with that user's id and the fresh token. Every earlier reset row is kept. |
| Auth.ResetPassword | app/Controllers/Http/AuthController.ts:134-166 | 404 exactly when no row carries the token. 400 exactly when the first such row's user is missing. In both cases the state is unchanged. Otherwise 200: only that user's password changes, and the reset rows are untouched. |
| Todos.OwnedBy | app/Controllers/Http/TodosController.ts:11-15 | exactly the todos whose owner is the caller, with their stored contents |
| Todos.GetTodos | app/Controllers/Http/TodosController.ts:8-21 | answers 200 with exactly the caller's todos; state unchanged |
| Todos.CreateTodo | app/Controllers/Http/TodosController.ts:23-36 | adds exactly one todo, owned by the caller whatever owner the payload claims, with the payload's title and content. Existing todos are unchanged. A taken key raises with no change. |
| Todos.UpdateTodo | app/Controllers/Http/TodosController.ts:38-70 | 404 exactly when the id is missing. 401 exactly when it exists but the caller is not the owner. In both cases nothing changes. Otherwise that todo's title is replaced, and its content is replaced when the payload has one and kept when it does not. Its owner and every other todo are kept. The reply carries the updated instance with the payload's content. |
| Todos.DeleteTodo | app/Controllers/Http/TodosController.ts:72-104 | 404 for a missing id and 401 for a non-owner, with nothing changed. Otherwise exactly that todo is removed, every other todo is kept, and the answer reports `isDeleted` true. |
| Lifecycle.RegisterPreservesValid | app/Controllers/Http/AuthController.ts:18-30 | registration keeps emails unique and every token row pointing at its user with the user's email |
| Lifecycle.RegisterThenVerify | app/Controllers/Http/AuthController.ts:18-106 | from a valid state, the token a successful registration issued verifies the new email, and the new row becomes verified |
| Lifecycle.VerifyEmailPreservesValid | app/Controllers/Http/AuthController.ts:96-99 | verification keeps the invariant |
| Lifecycle.VerifyEmailRepeatable | app/Controllers/Http/AuthController.ts:86-106 | verifying with the first row's token succeeds, and repeating it succeeds again (there is no already-verified guard). The repeat only re-stamps that row's `verifiedAt`; every other row is kept. |
| Lifecycle.ForgotPasswordPreservesValid | app/Controllers/Http/AuthController.ts:121-126 | issuing a reset token keeps every reset row pointing at an existing user |
| Lifecycle.ResetPasswordPreservesValid | app/Controllers/Http/AuthController.ts:159-160 | a reset keeps the invariant: emails and keys are unchanged |
| Lifecycle.ResetPasswordNeverOrphaned | app/Controllers/Http/AuthController.ts:150-157 | from a valid state the 400 (missing user) branch of reset is unreachable |
| Lifecycle.ForgotThenReset | app/Controllers/Http/AuthController.ts:109-165 | a token just issued for an email, when new to the table, resets that user's password |
| Lifecycle.ResetTokenReusable | app/Controllers/Http/AuthController.ts:141-165 | after a successful reset the same token succeeds again: the row is not invalidated |
| Lifecycle.LoginFailureIndistinguishable | app/Controllers/Http/AuthController.ts:52-58 | any two failed logins get identical answers and states, whatever the cause and the flag |
| Lifecycle.CreateTodoIsolated | app/Controllers/Http/TodosController.ts:23-36 | a create by one caller leaves every other user's listing unchanged |
| Lifecycle.UpdateTodoIsolated | app/Controllers/Http/TodosController.ts:53-62 | an update by one caller leaves every other user's listing unchanged |
| Lifecycle.DeleteTodoIsolated | app/Controllers/Http/TodosController.ts:87-94 | a delete by one caller leaves every other user's listing unchanged |
| Lifecycle.CreateThenList | app/Controllers/Http/TodosController.ts:23-29 | a created todo appears in its creator's listing, which gains exactly that id |
| Lifecycle.DeleteThenList | app/Controllers/Http/TodosController.ts:94-101 | after the owner deletes a todo, their listing is the old one minus exactly that id |
| Lifecycle.TodoWritesPreserveValid | app/Controllers/Http/TodosController.ts:23-104 | todo writes by an existing caller keep every todo owned by an existing user |

## Left out

- HTTP plumbing is not modelled: the request context, response envelopes beyond status and success/fail, and JSON serialisation.
- Pagination (`paginate(page, per_page)`) is not modelled. The listing is the owner filter only.
- The request validators are not part of this model. Their outputs are taken as the actions' typed inputs. A validation failure is answered before the action runs.
- Authentication internals are replaced by an oracle verdict (`AttemptOutcome`): the credential check, password hashing, bearer-token issuance and revocation are foreign library calls. Logout is modelled only as its 200 answer.
- Password hashing is not modelled. The stored password is the value given.
- Randomness and time are parameters: `uuidv4()` token values and `DateTime.now()` are passed in. Their uniqueness is not modelled; `Lifecycle.ForgotThenReset` assumes the new token is new to the table.
- Auto-increment primary keys are parameters. A key already in use makes the insert raise, as a primary-key violation would.
- The status and body of an uncaught exception (`Raised`) are not modelled. The framework's exception handler produces them.
- The text of the ORM's row-not-found message is not modelled (`OrmNotFound`). It is passed through unchanged in the source.
- Todo slug generation and the auto timestamps are not modelled. They are decorator behaviour of the todo model.
- A missing `email` query parameter to forgot password is not modelled. The email is taken as a string.
- The `emailVerificationTokenRecord !== undefined` conjunct is not modelled separately: it always holds once the row is found.
- Database faults are modelled only for the two registration inserts. The other writes are taken to succeed: the `save` calls at AuthController.ts:99 and :160, the `create` at AuthController.ts:126, and the `create`, `save` and `delete` at TodosController.ts:29, :62 and :94. In the source a fault in any of them raises.
- Lookup faults are not modelled. Each `try` around a lookup (AuthController.ts:75-83, :112-119, :141-157; TodosController.ts:44-51, :78-85) catches any exception, so a lookup failing for another reason also answers 404 (400 at AuthController.ts:150-157). The model's "404 exactly when no row matches" holds only when the database does not fault.
- String matching is exact equality. The `email` and `token` lookups and the unique-email constraint follow the database's collation, which may for example ignore case; that is not modelled.
- Row order is insertion order. A token lookup returns the first matching row, standing in for `findBy`'s `LIMIT 1` with no `ORDER BY`, whose row order the database does not fix.
- The `updatedAt` re-stamp that `save()` applies to users and verification rows is not modelled; those rows carry no timestamps here.
- Concurrency is not modelled: transaction isolation and races between requests. Each action is one atomic step.
- Routing, the health check and the functional tests are not modelled. The route grouping only justifies the authenticated `caller` parameter of logout and the todo actions.

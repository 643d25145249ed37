/** What a controller action answers: a status code with a success or fail
    envelope, or an exception it does not catch. */
module Http {
  import opened Store

  const StatusOk := 200
  const StatusCreated := 201
  const StatusBadRequest := 400
  const StatusUnauthorized := 401
  const StatusNotFound := 404

  /** The `message` of a fail envelope: a text the controller writes itself,
      or the message of the ORM's row-not-found exception, passed through. */
  datatype Message = Literal(text: string) | OrmNotFound

  const InvalidCredentials := Literal("Invalid credentials")
  const InvalidVerificationToken := Literal("email verification failed due to invalid token")
  const NotOwner := Literal("todo does not belong to logged-in user")

  /** The `data` of a success envelope. */
  datatype Data =
    | Account(id: UserId, email: string, username: string)  // serialized user, password hidden
    | AccessToken(expiresIn: string)
    | Revoked(revoked: bool)
    | VerifiedRecord(row: VerificationRow)
    | Persisted(isPersisted: bool)
    | NewPasswordSet(isPersisted: bool)
    | TodoPage(todos: map<TodoId, Todo>)
    | TodoRecord(id: TodoId, todo: Todo)
    | IsDeleted(isDeleted: bool)

  datatype Body = Success(data: Data) | Fail(message: Message)

  /** `Raised` is an exception escaping the action; the framework's exception
      handler answers it, which is not part of this model. */
  datatype Response = Reply(status: int, body: Body) | Raised

  /** One controller action: its response and the persistence state after it. */
  datatype Step = Step(response: Response, state: State)
}

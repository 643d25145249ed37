/** The todo actions. Each runs for an authenticated caller (the routes put
    them behind the auth middleware), whose user id is `caller`. */
module Todos {
  import opened Wrappers
  import opened Store
  import opened Http

  /** The validated todo payload. `claimedOwner` is whatever owner the request
      body names; the controller overwrites it. */
  datatype TodoPayload = TodoPayload(title: string, content: Option<string>, claimedOwner: Option<UserId>)

  /** The todos owned by `caller`. */
  function OwnedBy(todos: map<TodoId, Todo>, caller: UserId): (page: map<TodoId, Todo>)
    ensures forall id :: id in page <==> id in todos && todos[id].userId == caller
    ensures forall id :: id in page ==> page[id] == todos[id]
  {
    map id | id in todos && todos[id].userId == caller :: todos[id]
  }

  /** List the caller's todos (pagination left out). */
  function GetTodos(s: State, caller: UserId): (r: Step)
    ensures r.state == s
    ensures r.response.Reply? && r.response.status == StatusOk
    ensures r.response.body.Success? && r.response.body.data.TodoPage?
    ensures forall id :: id in r.response.body.data.todos <==>
              id in s.todos && s.todos[id].userId == caller
    ensures forall id :: id in r.response.body.data.todos ==>
              r.response.body.data.todos[id] == s.todos[id]
  {
    Step(Reply(StatusOk, Success(TodoPage(OwnedBy(s.todos, caller)))), s)
  }

  /** Create a todo owned by the caller under the primary key `newId` the
      database assigns; a key already in use makes the insert throw. */
  function CreateTodo(s: State, caller: UserId, payload: TodoPayload, newId: TodoId): (r: Step)
    ensures r.response.Raised? <==> newId in s.todos
    ensures r.response.Raised? ==> r.state == s
    ensures r.response.Reply? ==>
              && r.state.todos.Keys == s.todos.Keys + {newId}
              && (forall id :: id in s.todos ==> r.state.todos[id] == s.todos[id])
              && r.state.todos[newId].userId == caller
              && r.state.todos[newId].title == payload.title
              && r.state.todos[newId].content == payload.content
              && r.response == Reply(StatusCreated, Success(TodoRecord(newId, r.state.todos[newId])))
    ensures r.state.users == s.users && r.state.verifications == s.verifications
    ensures r.state.resets == s.resets
  {
    if newId in s.todos then Step(Raised, s)
    else
      var todo := Todo(caller, payload.title, payload.content);
      Step(Reply(StatusCreated, Success(TodoRecord(newId, todo))),
           s.(todos := s.todos[newId := todo]))
  }

  /** Update title and content of a todo the caller owns. An absent content
      leaves the stored column alone (the ORM omits an undefined attribute from
      the UPDATE), while the instance returned in the reply carries it absent. */
  function UpdateTodo(s: State, caller: UserId, id: TodoId, payload: TodoPayload): (r: Step)
    ensures r.response.Reply?
    ensures r.response.status in {StatusOk, StatusUnauthorized, StatusNotFound}
    ensures r.response.status == StatusNotFound <==> id !in s.todos
    ensures r.response.status == StatusUnauthorized <==> id in s.todos && s.todos[id].userId != caller
    ensures r.response.status == StatusNotFound ==> r.response.body == Fail(OrmNotFound)
    ensures r.response.status == StatusUnauthorized ==> r.response.body == Fail(NotOwner)
    ensures r.response.status != StatusOk ==> r.state == s
    ensures r.response.status == StatusOk ==>
              && r.state.todos.Keys == s.todos.Keys
              && (forall other :: other in s.todos && other != id ==> r.state.todos[other] == s.todos[other])
              && r.state.todos[id].userId == s.todos[id].userId
              && r.state.todos[id].title == payload.title
              && (payload.content.Some? ==> r.state.todos[id].content == payload.content)
              && (payload.content.None? ==> r.state.todos[id].content == s.todos[id].content)
              && r.response.body == Success(TodoRecord(id, Todo(s.todos[id].userId, payload.title, payload.content)))
    ensures r.state.users == s.users && r.state.verifications == s.verifications
    ensures r.state.resets == s.resets
  {
    if id !in s.todos then Step(Reply(StatusNotFound, Fail(OrmNotFound)), s)
    else if s.todos[id].userId != caller then Step(Reply(StatusUnauthorized, Fail(NotOwner)), s)
    else
      var instance := s.todos[id].(title := payload.title, content := payload.content);
      var stored := if payload.content.None? then instance.(content := s.todos[id].content) else instance;
      Step(Reply(StatusOk, Success(TodoRecord(id, instance))), s.(todos := s.todos[id := stored]))
  }

  /** Delete a todo the caller owns. */
  function DeleteTodo(s: State, caller: UserId, id: TodoId): (r: Step)
    ensures r.response.Reply?
    ensures r.response.status in {StatusOk, StatusUnauthorized, StatusNotFound}
    ensures r.response.status == StatusNotFound <==> id !in s.todos
    ensures r.response.status == StatusUnauthorized <==> id in s.todos && s.todos[id].userId != caller
    ensures r.response.status == StatusNotFound ==> r.response.body == Fail(OrmNotFound)
    ensures r.response.status == StatusUnauthorized ==> r.response.body == Fail(NotOwner)
    ensures r.response.status != StatusOk ==> r.state == s
    ensures r.response.status == StatusOk ==>
              && r.state.todos.Keys == s.todos.Keys - {id}
              && (forall other :: other in r.state.todos ==> r.state.todos[other] == s.todos[other])
              && r.response.body == Success(IsDeleted(true))
    ensures r.state.users == s.users && r.state.verifications == s.verifications
    ensures r.state.resets == s.resets
  {
    if id !in s.todos then Step(Reply(StatusNotFound, Fail(OrmNotFound)), s)
    else if s.todos[id].userId != caller then Step(Reply(StatusUnauthorized, Fail(NotOwner)), s)
    else Step(Reply(StatusOk, Success(IsDeleted(true))), s.(todos := s.todos - {id}))
  }
}

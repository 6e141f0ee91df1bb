/** The four handlers of routes/todos.js over an in-memory table of todo
    documents. The caller's user id is the one the authentication middleware
    resolved; every handler is scoped to it. */
module TodoRoutes {
  import opened TodoModel
  import opened TodoQuery

  const TitleRequired := "Title is required"
  const TodoNotFound := "Todo not found"

  /** What a handler answers: the success bodies and the two client errors. */
  datatype Reply =
    | Created(todo: Todo)
    | Updated(todo: Todo)
    | Deleted(todo: Todo)
    | Listed(listing: Listing)
    | BadRequest(message: string)
    | NotFound(message: string)
  {
    function Status(): nat {
      if Created? then 201
      else if BadRequest? then 400
      else if NotFound? then 404
      else 200
    }

    function Message(): Option<string> {
      match this
      case Created(_) => Some("Todo created successfully")
      case Updated(_) => Some("Todo updated successfully")
      case Deleted(_) => Some("Todo deleted successfully")
      case Listed(_) => None
      case BadRequest(m) => Some(m)
      case NotFound(m) => Some(m)
    }
  }

  /** The todo collection. `nextId` and `clock` stand in for the database's id and
      timestamp assignment; `issued` records every id ever handed out. */
  class TodoStore {
    var todos: seq<Todo>
    var nextId: TodoId
    var clock: nat
    ghost var issued: set<TodoId>
    /** The `completed` value the document schema gives a new record. */
    const completedDefault: bool

    /** Ids are unique and never handed out twice; records are stored in creation order. */
    ghost predicate Valid()
      reads this
    {
      && (forall x :: x in issued ==> x < nextId)
      && (forall i :: 0 <= i < |todos| ==> todos[i].id in issued && todos[i].createdAt < clock)
      && UniqueIds(todos)
      && CreationOrdered(todos)
    }

    constructor (completedDefault: bool)
      ensures Valid()
      ensures todos == [] && issued == {}
      ensures this.completedDefault == completedDefault
    {
      todos := [];
      nextId := 0;
      clock := 0;
      issued := {};
      this.completedDefault := completedDefault;
    }

    /** `POST /api/todos`. */
    method Create(user: UserId, body: NewTodo) returns (r: Reply)
      requires Valid()
      modifies this
      ensures Valid()
      ensures MissingTitle(body.title) ==> r == BadRequest(TitleRequired) && unchanged(this)
      ensures r.Status() == (if MissingTitle(body.title) then 400 else 201)
      ensures !MissingTitle(body.title) ==> r.Message() == Some("Todo created successfully")
      ensures !MissingTitle(body.title) ==>
        && r.Created?
        && r.todo.userId == user
        && r.todo.title == body.title.value
        && r.todo.description == body.description
        && r.todo.priority == body.priority
        && r.todo.dueDate == body.dueDate
        && r.todo.completed == completedDefault
        && r.todo.id !in old(issued)
        && (forall t :: t in old(todos) ==> t.createdAt < r.todo.createdAt)
        && todos == old(todos) + [r.todo]
        && issued == old(issued) + {r.todo.id}
    {
      if MissingTitle(body.title) {
        r := BadRequest(TitleRequired);
        return;
      }
      var todo := Todo(nextId, user, body.title.value, body.description, body.priority,
                       body.dueDate, completedDefault, clock);
      todos := todos + [todo];
      issued := issued + {nextId};
      nextId := nextId + 1;
      clock := clock + 1;
      r := Created(todo);
    }

    /** `GET /api/todos`: reads the table and changes nothing. */
    method List(user: UserId, q: Query) returns (r: Reply)
      requires Valid()
      ensures r == Listed(TodoQuery.List(todos, user, q))
      ensures forall t :: t in r.listing.todos ==> t in todos && t.userId == user
      ensures r.listing.pagination.count == |r.listing.todos| <= LimitParam(q)
      ensures StrictlyNewestFirst(r.listing.todos)
      ensures r.Status() == 200
    {
      r := Listed(TodoQuery.List(todos, user, q));
      ListStrictlyNewestFirst(todos, user, q);
    }

    /** `PUT /api/todos/:id`: the fields present in the patch are assigned one by one. */
    method Update(user: UserId, id: TodoId, patch: Patch) returns (r: Reply)
      requires Valid()
      modifies this
      ensures Valid()
      ensures (forall i :: 0 <= i < |old(todos)| ==> !Owned(old(todos)[i], id, user)) ==>
        r == NotFound(TodoNotFound) && unchanged(this)
      ensures forall k :: 0 <= k < |old(todos)| && Owned(old(todos)[k], id, user) ==>
        r == Updated(ApplyPatch(old(todos)[k], patch)) && todos == old(todos)[k := r.todo]
      ensures r.Status() == 404 || (r.Status() == 200 && r.Message() == Some("Todo updated successfully"))
      ensures |todos| == |old(todos)|
      ensures forall i :: 0 <= i < |todos| && old(todos)[i].userId != user ==> todos[i] == old(todos)[i]
      ensures nextId == old(nextId) && clock == old(clock) && issued == old(issued)
    {
      var found := Find(todos, id, user);
      if found.None? {
        r := NotFound(TodoNotFound);
        return;
      }
      var k := found.value;
      var todo := AssignPresent(todos[k], patch);
      ReplaceKeepsOrder(todos, k, todo);
      todos := todos[k := todo];
      r := Updated(todo);
      forall k' | 0 <= k' < |old(todos)| && Owned(old(todos)[k'], id, user) ensures k' == k {
        FindUnique(old(todos), id, user, k');
      }
    }

    /** `DELETE /api/todos/:id`: find and remove in one step. */
    method Delete(user: UserId, id: TodoId) returns (r: Reply)
      requires Valid()
      modifies this
      ensures Valid()
      ensures (forall i :: 0 <= i < |old(todos)| ==> !Owned(old(todos)[i], id, user)) ==>
        r == NotFound(TodoNotFound) && unchanged(this)
      ensures forall k :: 0 <= k < |old(todos)| && Owned(old(todos)[k], id, user) ==>
        r == Deleted(old(todos)[k]) && todos == old(todos)[..k] + old(todos)[k + 1..]
      ensures r.Status() == 404 || (r.Status() == 200 && r.Message() == Some("Todo deleted successfully"))
      ensures r.Deleted? ==> forall i :: 0 <= i < |todos| ==> todos[i].id != id
      ensures forall t :: t in old(todos) && t.userId != user ==> t in todos
      ensures nextId == old(nextId) && clock == old(clock) && issued == old(issued)
    {
      var found := Find(todos, id, user);
      if found.None? {
        r := NotFound(TodoNotFound);
        return;
      }
      var k := found.value;
      var todo := todos[k];
      ghost var before := todos;
      RemoveKeepsOrder(todos, k);
      todos := todos[..k] + todos[k + 1..];
      r := Deleted(todo);
      assert r.Status() == 200 && r.Message() == Some("Todo deleted successfully");
      forall k' | 0 <= k' < |before| && Owned(before[k'], id, user) ensures k' == k {
        FindUnique(before, id, user, k');
      }
    }
  }

  /** The handler's field-by-field assignment of the update body to the found document. */
  method AssignPresent(t: Todo, patch: Patch) returns (r: Todo)
    ensures r == ApplyPatch(t, patch)
  {
    r := t;
    if patch.title.Some? { r := r.(title := patch.title.value); }
    if patch.description.Some? { r := r.(description := patch.description.value); }
    if patch.completed.Some? { r := r.(completed := patch.completed.value); }
    if patch.priority.Some? { r := r.(priority := patch.priority.value); }
    if patch.dueDate.Some? { r := r.(dueDate := patch.dueDate.value); }
  }

  /** For any valid store: once a record is deleted, its owner's update and delete on
      that id find nothing, and a later create does not hand the id out again. */
  method DeleteIsFinal(store: TodoStore, user: UserId, id: TodoId, patch: Patch, body: NewTodo)
    returns (deleted: Reply, updated: Reply, again: Reply, created: Reply)
    requires store.Valid()
    modifies store
    ensures store.Valid()
    ensures deleted.Deleted? ==> updated == NotFound(TodoNotFound) && again == NotFound(TodoNotFound)
    ensures deleted.Deleted? && created.Created? ==> created.todo.id != id
  {
    deleted := store.Delete(user, id);
    updated := store.Update(user, id, patch);
    again := store.Delete(user, id);
    created := store.Create(user, body);
  }

  /** A new record is listed to its owner and to nobody else. */
  method ScenarioList() {
    var store := new TodoStore(false);
    var u1, u2 := 1, 2;
    var c := store.Create(u1, NewTodo(Some("Buy milk"), None, None, None));
    assert c.Created? && !c.todo.completed;
    var milk := c.todo;
    assert store.todos == [milk];

    var noFilter := Query(None, None, None, None);
    var l1 := store.List(u1, noFilter);
    MatchingMembers(store.todos, u1, noFilter);
    assert milk in Matching(store.todos, u1, noFilter);
    ListCoversEveryMatch(store.todos, u1, noFilter, 0);
    assert milk in l1.listing.todos;

    var l2 := store.List(u2, noFilter);
    assert milk !in l2.listing.todos;
  }

  /** Another user cannot touch a record; its owner can mark it completed. */
  method ScenarioUpdate() {
    var store := new TodoStore(false);
    var u1, u2 := 1, 2;
    var c := store.Create(u1, NewTodo(Some("Buy milk"), None, None, None));
    var milk := c.todo;
    assert store.todos == [milk] && Owned(store.todos[0], milk.id, u1);

    var done := Patch(None, None, Some(true), None, None);
    var up := store.Update(u2, milk.id, done);
    assert up == NotFound(TodoNotFound) && store.todos == [milk];

    up := store.Update(u1, milk.id, done);
    assert up == Updated(ApplyPatch(milk, done));
    assert up.todo.completed && up.todo.title == "Buy milk" && up.Status() == 200;
  }

  /** The owner deletes a record and gets it back, and the table is empty again. */
  method ScenarioDelete() {
    var store := new TodoStore(false);
    var u1 := 1;
    var c := store.Create(u1, NewTodo(Some("Buy milk"), None, None, None));
    var milk := c.todo;
    ghost var before := store.todos;
    assert |before| == 1 && before[0] == milk && Owned(before[0], milk.id, u1);

    var del := store.Delete(u1, milk.id);
    assert del == Deleted(milk);
    assert |store.todos| == 0;
  }
}

/** The todo record, the bodies of the create and update requests, the
    partial-update rule and the owner-scoped lookup behind `findOne` and
    `findOneAndDelete` (routes/todos.js). */
module TodoModel {

  datatype Option<+T> = None | Some(value: T)

  /** Identifiers are opaque: the store hands out fresh ones, callers only compare them. */
  type TodoId = nat
  type UserId = nat
  /** A due date is carried as given; no date arithmetic happens in the routes. */
  type DueDate = string

  /** A stored todo document. `None` in an optional field means the field was never
      set (or was set to null). */
  datatype Todo = Todo(
    id: TodoId,
    userId: UserId,
    title: string,
    description: Option<string>,
    priority: Option<string>,
    dueDate: Option<DueDate>,
    completed: bool,
    createdAt: nat)

  /** The body of a create request: every field may be missing. */
  datatype NewTodo = NewTodo(
    title: Option<string>,
    description: Option<string>,
    priority: Option<string>,
    dueDate: Option<DueDate>)

  /** `!title` in JavaScript: an absent title and the empty string are both rejected. */
  predicate MissingTitle(title: Option<string>) {
    title.None? || title.value == ""
  }

  /** The body of an update request. An outer `None` means "absent, leave unchanged";
      for the optional fields `Some(None)` is an explicit null, which clears the field. */
  datatype Patch = Patch(
    title: Option<string>,
    description: Option<Option<string>>,
    completed: Option<bool>,
    priority: Option<Option<string>>,
    dueDate: Option<Option<DueDate>>)

  const EmptyPatch := Patch(None, None, None, None, None)

  function Pick<T>(field: Option<T>, current: T): T {
    if field.Some? then field.value else current
  }

  /** The record after an update: each field present in the patch is replaced, every
      other field, and the id, owner and creation stamp in particular, is kept. */
  function ApplyPatch(t: Todo, p: Patch): (r: Todo)
    ensures r.id == t.id && r.userId == t.userId && r.createdAt == t.createdAt
    ensures p.title.Some? ==> r.title == p.title.value
    ensures p.title.None? ==> r.title == t.title
    ensures p.description.Some? ==> r.description == p.description.value
    ensures p.description.None? ==> r.description == t.description
    ensures p.completed.Some? ==> r.completed == p.completed.value
    ensures p.completed.None? ==> r.completed == t.completed
    ensures p.priority.Some? ==> r.priority == p.priority.value
    ensures p.priority.None? ==> r.priority == t.priority
    ensures p.dueDate.Some? ==> r.dueDate == p.dueDate.value
    ensures p.dueDate.None? ==> r.dueDate == t.dueDate
  {
    t.(title := Pick(p.title, t.title),
       description := Pick(p.description, t.description),
       completed := Pick(p.completed, t.completed),
       priority := Pick(p.priority, t.priority),
       dueDate := Pick(p.dueDate, t.dueDate))
  }

  /** Two updates in a row: the later one wins on every field it carries. */
  function Then(p: Patch, q: Patch): Patch {
    Patch(if q.title.Some? then q.title else p.title,
          if q.description.Some? then q.description else p.description,
          if q.completed.Some? then q.completed else p.completed,
          if q.priority.Some? then q.priority else p.priority,
          if q.dueDate.Some? then q.dueDate else p.dueDate)
  }

  lemma EmptyPatchChangesNothing(t: Todo)
    ensures ApplyPatch(t, EmptyPatch) == t
  {
  }

  lemma PatchIdempotent(t: Todo, p: Patch)
    ensures ApplyPatch(ApplyPatch(t, p), p) == ApplyPatch(t, p)
  {
  }

  lemma PatchesCompose(t: Todo, p: Patch, q: Patch)
    ensures ApplyPatch(ApplyPatch(t, p), q) == ApplyPatch(t, Then(p, q))
  {
  }

  /** The query `{ _id: id, userId: user }`: the record has that id and that owner. */
  predicate Owned(t: Todo, id: TodoId, user: UserId) {
    t.id == id && t.userId == user
  }

  /** The position of the first record matching `(id, user)`, or `None` when no record
      has that id with that owner, which includes a record of that id owned by someone else. */
  function Find(s: seq<Todo>, id: TodoId, user: UserId): (r: Option<nat>)
    ensures r.Some? ==> r.value < |s| && Owned(s[r.value], id, user)
    ensures r.Some? ==> forall j :: 0 <= j < r.value ==> !Owned(s[j], id, user)
    ensures r.None? <==> forall j :: 0 <= j < |s| ==> !Owned(s[j], id, user)
  {
    if s == [] then None
    else if Owned(s[0], id, user) then Some(0)
    else match Find(s[1..], id, user)
      case None => None
      case Some(k) => Some(k + 1)
  }

  /** No two stored records share an id. */
  predicate UniqueIds(s: seq<Todo>) {
    forall i, j :: 0 <= i < j < |s| ==> s[i].id != s[j].id
  }

  /** With unique ids, at most one record matches `(id, user)`, so the lookup finds
      exactly that one. */
  lemma FindUnique(s: seq<Todo>, id: TodoId, user: UserId, k: nat)
    requires UniqueIds(s)
    requires k < |s| && Owned(s[k], id, user)
    ensures Find(s, id, user) == Some(k)
  {
    var f := Find(s, id, user);
    assert f.Some?;
    assert s[f.value].id == s[k].id;
  }

  /** Records are kept in creation order: the stamps strictly increase along the table. */
  predicate CreationOrdered(s: seq<Todo>) {
    forall i, j :: 0 <= i < j < |s| ==> s[i].createdAt < s[j].createdAt
  }

  /** Replacing a record by one with the same id and stamp keeps both table invariants. */
  lemma ReplaceKeepsOrder(s: seq<Todo>, k: nat, t: Todo)
    requires UniqueIds(s) && CreationOrdered(s)
    requires k < |s| && t.id == s[k].id && t.createdAt == s[k].createdAt
    ensures UniqueIds(s[k := t]) && CreationOrdered(s[k := t])
  {
    var r := s[k := t];
    forall i, j | 0 <= i < j < |r| ensures r[i].id != r[j].id && r[i].createdAt < r[j].createdAt {
      assert r[i].id == s[i].id && r[i].createdAt == s[i].createdAt;
      assert r[j].id == s[j].id && r[j].createdAt == s[j].createdAt;
    }
  }

  /** Removing a record keeps both table invariants, no record with its id is left,
      and every other stored record is still there. */
  lemma RemoveKeepsOrder(s: seq<Todo>, k: nat)
    requires UniqueIds(s) && CreationOrdered(s)
    requires k < |s|
    ensures UniqueIds(s[..k] + s[k + 1..]) && CreationOrdered(s[..k] + s[k + 1..])
    ensures forall t :: t in s[..k] + s[k + 1..] ==> t.id != s[k].id
    ensures forall t :: t in s && t != s[k] ==> t in s[..k] + s[k + 1..]
  {
    var r := s[..k] + s[k + 1..];
    assert forall i :: 0 <= i < |r| ==> r[i] == s[if i < k then i else i + 1];
    forall i, j | 0 <= i < j < |r| ensures r[i].id != r[j].id && r[i].createdAt < r[j].createdAt {
      var i', j' := if i < k then i else i + 1, if j < k then j else j + 1;
      assert r[i] == s[i'] && r[j] == s[j'];
    }
    forall t | t in s && t != s[k] ensures t in r {
      var i :| 0 <= i < |s| && s[i] == t;
      assert t == r[if i < k then i else i - 1];
    }
  }
}

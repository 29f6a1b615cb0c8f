/** The operations of the todo store. Each remote call is an input: the
    operation's request is a value, and the way the request came back is a
    parameter, so every operation is a total function from the store at the
    moment the reply arrives to the store after it. */
module TodoActions {
  import opened Wrappers
  import opened Numbers
  import opened Arrays
  import opened TodoStore

  /** A todo as the remote API sends it; the text travels as `todo`. */
  datatype Record = Record(id: int, todo: string, completed: bool, userId: int)

  /** How an awaited request came back: a decoded body, or a failure (a
      rejected request or a body that could not be read) that the operation
      catches. */
  datatype Reply<T> = Received(body: T) | Failed

  /** How a request whose body the store ignores settled. */
  datatype Settlement = Resolved | Rejected

  /** The request `toggleTodo` sends once it has flipped an item: a PUT of
      the new flag to `todos/{id}`. */
  datatype Request = UpdateCompleted(id: int, completed: bool)

  /** The store's shape of a record: `todo` becomes `text`. */
  function FromRecord(r: Record): (t: Todo)
    ensures t.text == r.todo
    ensures t.id == r.id && t.completed == r.completed && t.userId == r.userId
  {
    Todo(r.id, r.todo, r.completed, r.userId)
  }

  /** The record the API would send for `t`; `FromRecord` undoes it. */
  function ToRecord(t: Todo): (r: Record)
    ensures FromRecord(r) == t
    ensures r.todo == t.text
  {
    Record(t.id, t.text, t.completed, t.userId)
  }

  function FromRecords(rs: seq<Record>): (ts: seq<Todo>)
    ensures |ts| == |rs|
    ensures forall i :: 0 <= i < |rs| ==> ts[i] == FromRecord(rs[i])
  {
    seq(|rs|, i requires 0 <= i < |rs| => FromRecord(rs[i]))
  }

  function Ids(ts: seq<Todo>): (ids: seq<int>)
    ensures |ids| == |ts|
    ensures forall i :: 0 <= i < |ts| ==> ids[i] == ts[i].id
  {
    seq(|ts|, i requires 0 <= i < |ts| => ts[i].id)
  }

  function HasId(id: int): Todo -> bool
  {
    (t: Todo) => t.id == id
  }

  function LacksId(id: int): Todo -> bool
  {
    (t: Todo) => t.id != id
  }

  /** No item carries `id`. */
  predicate Absent(ts: seq<Todo>, id: int)
  {
    forall t :: t in ts ==> t.id != id
  }

  /** `i` is the first position holding an item with `id`: the one `find`
      and `findIndex` pick. */
  ghost predicate FirstWithId(ts: seq<Todo>, id: int, i: int)
  {
    0 <= i < |ts| && ts[i].id == id && forall j :: 0 <= j < i ==> ts[j].id != id
  }

  /** Only the item at `i` may differ between `ts` and `us`. */
  ghost predicate SameExceptAt(ts: seq<Todo>, us: seq<Todo>, i: int)
  {
    |us| == |ts| && forall j :: 0 <= j < |ts| && j != i ==> us[j] == ts[j]
  }

  /** `us` is `ts` with the `completed` flag of the item at `i` inverted
      and everything else as it was. */
  ghost predicate FlippedAt(ts: seq<Todo>, us: seq<Todo>, i: int)
  {
    && 0 <= i < |ts|
    && SameExceptAt(ts, us, i)
    && us[i].completed == !ts[i].completed
    && us[i].(completed := ts[i].completed) == ts[i]
  }

  /** The operations below touch `todos`, `nextId` and `isLoading` only. */
  ghost predicate SameSettings(s: Store, r: Store)
  {
    && r.filter == s.filter
    && r.searchQuery == s.searchQuery
    && r.currentPage == s.currentPage
    && r.itemsPerPage == s.itemsPerPage
  }

  // ---------------------------------------------------------------- fetchTodos

  /** What `fetchTodos` does before it awaits the list. */
  function BeginFetch(s: Store): (r: Store)
    ensures r.isLoading
    ensures r.(isLoading := s.isLoading) == s
  {
    s.(isLoading := true)
  }

  /** What `fetchTodos` does once the list request came back. A received
      list replaces the items wholesale and moves `nextId` past every id in
      it; a failure leaves items and counter alone. Either way loading
      ends. */
  function FetchTodos(s: Store, reply: Reply<seq<Record>>): (r: Store)
    ensures !r.isLoading
    ensures SameSettings(s, r)
    ensures reply.Failed? ==> r.todos == s.todos && r.nextId == s.nextId
    ensures reply.Received? ==>
      && |r.todos| == |reply.body|
      && forall i :: 0 <= i < |reply.body| ==> r.todos[i] == FromRecord(reply.body[i])
    ensures reply.Received? && |reply.body| > 0 ==>
      && r.nextId.Finite?
      && (forall t :: t in r.todos ==> t.id < r.nextId.n)
      && (exists t :: t in r.todos && t.id == r.nextId.n - 1)
    ensures reply.Received? && |reply.body| == 0 ==> r.todos == [] && r.nextId == NegInfinity
  {
    match reply
    case Failed => s.(isLoading := false)
    case Received(records) =>
      var todos := FromRecords(records);
      var top := Max(Ids(todos));
      assert forall i :: 0 <= i < |todos| ==> Ids(todos)[i] in Ids(todos);
      assert top.Finite? ==> exists i :: 0 <= i < |todos| && todos[i].id == top.n;
      s.(todos := todos, nextId := Succ(top), isLoading := false)
  }

  /** A whole `fetchTodos` that fails leaves the store as it found it,
      except that loading is over. */
  lemma FetchFailureKeepsStore(s: Store)
    ensures FetchTodos(BeginFetch(s), Failed) == s.(isLoading := false)
  {
  }

  // ---------------------------------------------------------------- addTodo

  /** What `addTodo` does once the creation request came back: the
      server's record goes to the front; a failure changes nothing. */
  function AddTodo(s: Store, reply: Reply<Record>): (r: Store)
    ensures r.(todos := s.todos) == s
    ensures reply.Failed? ==> r == s
    ensures reply.Received? ==>
      && |r.todos| == |s.todos| + 1
      && r.todos[0] == FromRecord(reply.body)
      && r.todos[0].text == reply.body.todo
      && r.todos[1..] == s.todos
  {
    match reply
    case Failed => s
    case Received(record) => s.(todos := [FromRecord(record)] + s.todos)
  }

  /** The store's own test: one mocked creation on a fresh store leaves one
      item carrying the returned text. */
  lemma AddToFreshStore()
    ensures var s := AddTodo(Initial(), Received(Record(1, "Test Todo", false, 1)));
            |s.todos| == 1 && s.todos[0].text == "Test Todo" && !s.isLoading
  {
  }

  /** Adding a record under an id the store does not hold, then removing
      that id, gives back the store. */
  lemma AddThenRemoveRestores(s: Store, record: Record)
    requires Absent(s.todos, record.id)
    ensures RemoveTodo(AddTodo(s, Received(record)), record.id, Resolved) == s
  {
    var keep := LacksId(record.id);
    FilterCons(FromRecord(record), s.todos, keep);
    FilterKeepsAll(s.todos, keep);
  }

  // ---------------------------------------------------------------- toggleTodo

  /** `ts` with the flag of the item at `i` inverted. */
  function Flip(ts: seq<Todo>, i: int): seq<Todo>
    requires 0 <= i < |ts|
  {
    ts[i := ts[i].(completed := !ts[i].completed)]
  }

  /** The synchronous part of `toggleTodo`: find the first item with `id`,
      invert its flag at once, and send the new flag. An absent id changes
      nothing and sends nothing. */
  function ToggleTodo(s: Store, id: int): (r: (Store, Option<Request>))
    ensures r.0.(todos := s.todos) == s
    ensures Absent(s.todos, id) ==> r == (s, None)
    ensures forall i :: FirstWithId(s.todos, id, i) ==>
      && FlippedAt(s.todos, r.0.todos, i)
      && r.1 == Some(UpdateCompleted(id, !s.todos[i].completed))
  {
    var i := FindIndex(s.todos, HasId(id));
    if i == -1 then (s, None)
    else
      var todos := Flip(s.todos, i);
      (s.(todos := todos), Some(UpdateCompleted(id, todos[i].completed)))
  }

  /** The settling part of `toggleTodo`: a rejected update inverts the
      flag of the same item again; a resolved one changes nothing. */
  function SettleToggle(s: Store, id: int, outcome: Settlement): (r: Store)
    ensures r.(todos := s.todos) == s
    ensures outcome.Resolved? || Absent(s.todos, id) ==> r == s
    ensures outcome.Rejected? ==> forall i :: FirstWithId(s.todos, id, i) ==> FlippedAt(s.todos, r.todos, i)
  {
    match outcome
    case Resolved => s
    case Rejected =>
      var i := FindIndex(s.todos, HasId(id));
      if i == -1 then s else s.(todos := Flip(s.todos, i))
  }

  /** A toggle whose update is rejected leaves the store exactly as it was. */
  lemma ToggleRejectedRestores(s: Store, id: int)
    ensures SettleToggle(ToggleTodo(s, id).0, id, Rejected) == s
  {
    var i := FindIndex(s.todos, HasId(id));
    if i != -1 {
      var t := ToggleTodo(s, id).0;
      assert FirstWithId(s.todos, id, i);
      assert FirstWithId(t.todos, id, i);
      var r := SettleToggle(t, id, Rejected);
      assert r.todos == s.todos;
    }
  }

  /** A toggle whose update resolves leaves the item flipped and every
      other item as it was. */
  lemma ToggleResolvedKeepsFlip(s: Store, id: int, i: int)
    requires FirstWithId(s.todos, id, i)
    ensures var r := SettleToggle(ToggleTodo(s, id).0, id, Resolved);
            FlippedAt(s.todos, r.todos, i) && r.(todos := s.todos) == s
  {
  }

  // ---------------------------------------------------------------- editTodo

  /** What `editTodo` does once the update came back: the server's record
      takes the place of the first item with `id`. A failure, or an id no
      longer present, changes nothing. */
  function EditTodo(s: Store, id: int, reply: Reply<Record>): (r: Store)
    ensures r.(todos := s.todos) == s
    ensures reply.Failed? || Absent(s.todos, id) ==> r == s
    ensures reply.Received? ==> forall i :: FirstWithId(s.todos, id, i) ==>
      SameExceptAt(s.todos, r.todos, i) && r.todos[i] == FromRecord(reply.body)
  {
    match reply
    case Failed => s
    case Received(record) =>
      var i := FindIndex(s.todos, HasId(id));
      if i != -1 then s.(todos := s.todos[i := FromRecord(record)]) else s
  }

  /** An edit whose reply echoes the item being edited leaves the store as
      it was. */
  lemma EditEchoKeepsStore(s: Store, id: int, i: int)
    requires FirstWithId(s.todos, id, i)
    ensures EditTodo(s, id, Received(ToRecord(s.todos[i]))) == s
  {
    var r := EditTodo(s, id, Received(ToRecord(s.todos[i])));
    assert r.todos == s.todos;
  }

  // ---------------------------------------------------------------- removeTodo

  /** What `removeTodo` does once the delete request settled. A resolved
      request, whatever its status, drops every item with `id` and keeps the
      rest; a rejected one removes nothing. */
  function RemoveTodo(s: Store, id: int, outcome: Settlement): (r: Store)
    ensures r.(todos := s.todos) == s
    ensures outcome.Rejected? ==> r == s
    ensures outcome.Resolved? ==>
      && Absent(r.todos, id)
      && (forall t :: t in s.todos && t.id != id ==> t in r.todos)
      && |r.todos| == |s.todos| - Count(s.todos, HasId(id))
  {
    match outcome
    case Rejected => s
    case Resolved =>
      CountComplement(s.todos, HasId(id), LacksId(id));
      s.(todos := Filter(s.todos, LacksId(id)))
  }

  /** A resolved removal keeps the surviving items in their order: they are
      exactly the items without `id`, at increasing positions. */
  lemma RemoveKeepsOrder(s: Store, id: int)
    ensures var r := RemoveTodo(s, id, Resolved);
            SelectedBy(s.todos, LacksId(id), KeptIndices(s.todos, LacksId(id)), r.todos)
  {
    FilterSelects(s.todos, LacksId(id));
  }

  // ---------------------------------------------------------------- clearTodos

  /** `clearTodos`: no items, nothing else touched, no request. */
  function ClearTodos(s: Store): (r: Store)
    ensures r.todos == []
    ensures r.(todos := s.todos) == s
  {
    s.(todos := [])
  }
}

/** The state of the todo store and its derived views: the filtered list,
    the page count and the current page. The views are recomputed from the
    state on every read, so they are plain functions of a `Store`. */
module TodoStore {
  import opened Numbers
  import opened Arrays
  import opened Strings

  /** One todo item as the store keeps it. */
  datatype Todo = Todo(id: int, text: string, completed: bool, userId: int)

  datatype FilterMode = All | Completed | Pending

  /** A page size. The store starts at 9; sizes below 1 are left out. */
  type PageSize = k: int | k >= 1 witness 9

  /** Everything the store holds. `nextId` is an extended integer because a
      refresh that returns no items sets it to `Math.max() + 1`, that is
      `-Infinity`. */
  datatype Store = Store(
    todos: seq<Todo>,
    nextId: ExtInt,
    isLoading: bool,
    filter: FilterMode,
    searchQuery: string,
    currentPage: int,
    itemsPerPage: PageSize)

  /** The store as it is created when no saved state exists: no items,
      nothing loading, the first page of nine. */
  function Initial(): (s: Store)
    ensures s.todos == [] && !s.isLoading && s.nextId == Finite(1)
    ensures s.filter == All && s.searchQuery == [] && s.currentPage == 1 && s.itemsPerPage == 9
    ensures FilteredTodos(s) == [] && TotalPages(s) == 0 && PaginatedTodos(s) == []
  {
    Store([], Finite(1), false, All, "", 1, 9)
  }

  /** The store's own first test: a fresh store lists nothing and is not
      loading. */
  lemma FreshStoreIsEmpty()
    ensures Initial().todos == [] && !Initial().isLoading
  {
  }

  predicate IsCompleted(t: Todo)
  {
    t.completed
  }

  predicate IsPending(t: Todo)
  {
    !t.completed
  }

  /** The search test applied to every item when the query is non-empty. */
  function Matching(query: string): Todo -> bool
  {
    (t: Todo) => IncludesIgnoringCase(t.text, query)
  }

  /** Whether `t` passes the filter mode. */
  predicate ModeAdmits(mode: FilterMode, t: Todo)
  {
    match mode
    case All => true
    case Completed => t.completed
    case Pending => !t.completed
  }

  /** Whether `t` passes the search box. An empty query is falsy and admits
      everything; otherwise the lower-cased text must contain the
      lower-cased query. */
  predicate SearchAdmits(query: string, t: Todo)
  {
    query == [] || IncludesIgnoringCase(t.text, query)
  }

  /** The single test an item must pass to be listed. */
  function Visible(s: Store): Todo -> bool
  {
    (t: Todo) => ModeAdmits(s.filter, t) && SearchAdmits(s.searchQuery, t)
  }

  /** `filteredTodos`: the items narrowed by the filter mode, then by the
      search query. */
  function FilteredTodos(s: Store): (r: seq<Todo>)
    ensures |r| <= |s.todos|
    ensures forall t :: t in r <==> t in s.todos && ModeAdmits(s.filter, t) && SearchAdmits(s.searchQuery, t)
  {
    var byMode :=
      if s.filter == Completed then Filter(s.todos, IsCompleted)
      else if s.filter == Pending then Filter(s.todos, IsPending)
      else s.todos;
    if s.searchQuery != [] then Filter(byMode, Matching(s.searchQuery)) else byMode
  }

  /** The two-stage filter is one filter by `Visible`: it keeps the items'
      order and lists exactly the visible ones. */
  lemma FilteredTodosSelects(s: Store)
    ensures FilteredTodos(s) == Filter(s.todos, Visible(s))
    ensures SelectedBy(s.todos, Visible(s), KeptIndices(s.todos, Visible(s)), FilteredTodos(s))
  {
    var byModeTest: Todo -> bool := (t: Todo) => ModeAdmits(s.filter, t);
    var byMode := Filter(s.todos, byModeTest);
    match s.filter {
      case All => FilterKeepsAll(s.todos, byModeTest);
      case Completed => FilterExt(s.todos, IsCompleted, byModeTest);
      case Pending => FilterExt(s.todos, IsPending, byModeTest);
    }
    if s.searchQuery != [] {
      FilterFuse(s.todos, byModeTest, Matching(s.searchQuery), Visible(s));
    } else {
      FilterExt(s.todos, byModeTest, Visible(s));
    }
    FilterSelects(s.todos, Visible(s));
  }

  /** `totalPages`: how many pages the filtered list fills. */
  function TotalPages(s: Store): (n: nat)
    ensures n * s.itemsPerPage >= |FilteredTodos(s)|
    ensures n > 0 ==> (n - 1) * s.itemsPerPage < |FilteredTodos(s)|
    ensures n == 0 <==> |FilteredTodos(s)| == 0
  {
    CeilDiv(|FilteredTodos(s)|, s.itemsPerPage)
  }

  /** Where the current page starts in the filtered list; negative for pages
      below 1. */
  function PageStart(s: Store): int
  {
    (s.currentPage - 1) * s.itemsPerPage
  }

  /** `paginatedTodos`: the window of the filtered list shown on the current
      page. */
  function PaginatedTodos(s: Store): (r: seq<Todo>)
    ensures |r| <= s.itemsPerPage
    ensures forall t :: t in r ==> t in FilteredTodos(s)
  {
    var start := PageStart(s);
    Slice(FilteredTodos(s), start, start + s.itemsPerPage)
  }

  /** On a page numbered 1 or more the page is the contiguous run of the
      filtered list that starts `PageStart(s)`, i.e.
      `(currentPage - 1) * itemsPerPage`, entries in, and a page past the
      last one is empty. */
  lemma PaginatedWindow(s: Store)
    requires s.currentPage >= 1
    ensures var f := FilteredTodos(s);
            var start := PageStart(s);
            var end := start + s.itemsPerPage;
            && 0 <= start
            && (start <= |f| ==> PaginatedTodos(s) == f[start..if end < |f| then end else |f|])
            && (start >= |f| ==> PaginatedTodos(s) == [])
    ensures s.currentPage > TotalPages(s) ==> PaginatedTodos(s) == []
  {
    var k := s.itemsPerPage;
    MulMonotone(0, s.currentPage - 1, k);
    if s.currentPage > TotalPages(s) {
      PastLastPage(TotalPages(s), s.currentPage, k, |FilteredTodos(s)|);
    }
  }

  /** Below page 1 the window is read from the back of the filtered list,
      as `slice` reads negative indices: page 0 ends at index 0 and is
      empty, and a negative page shows the run that lies `-PageStart(s)`
      entries before the end, cut at the front of the list. */
  lemma PaginatedBelowFirstPage(s: Store)
    requires s.currentPage <= 0
    ensures s.currentPage == 0 ==> PaginatedTodos(s) == []
    ensures var f := FilteredTodos(s);
            var lo := |f| + PageStart(s);
            var hi := lo + s.itemsPerPage;
            s.currentPage < 0 ==>
            && (hi <= 0 ==> PaginatedTodos(s) == [])
            && (0 <= lo ==> hi <= |f| && PaginatedTodos(s) == f[lo..hi])
            && (lo < 0 < hi ==> hi <= |f| && PaginatedTodos(s) == f[..hi])
  {
    var k := s.itemsPerPage;
    var start := PageStart(s);
    if s.currentPage < 0 {
      MulMonotone(s.currentPage, -1, k);
      assert start + k == s.currentPage * k;
      SliceFromBack(FilteredTodos(s), start, start + k);
    } else {
      assert start + k == 0;
    }
  }

  lemma MulMonotone(a: int, b: int, k: int)
    requires a <= b && k >= 0
    ensures a * k <= b * k
  {
  }

  /** A page numbered past the page count starts beyond the last entry. */
  lemma PastLastPage(n: nat, p: int, k: int, len: nat)
    requires k >= 1 && n * k >= len && p > n
    ensures (p - 1) * k >= len
  {
    MulMonotone(n, p - 1, k);
  }

  /** Position `i` lies on the zero-based page `i / k`, at offset `i % k`,
      and that page is below the page count `n`. */
  lemma PositionOnPage(i: int, k: int, n: nat, len: nat)
    requires 0 <= i < len && k >= 1 && n * k >= len
    ensures (i / k) * k + i % k == i
    ensures 0 <= i % k < k
    ensures 0 <= i / k < n
  {
    if i / k >= n {
      MulMonotone(n, i / k, k);
    }
  }

  /** The filtered item at position `i` is entry `offset` of page `page`,
      and that page is one of the `TotalPages(s)` pages. */
  ghost predicate ShownOn(s: Store, i: int, page: int, offset: int)
    requires 0 <= i < |FilteredTodos(s)|
  {
    var shown := PaginatedTodos(s.(currentPage := page));
    && 1 <= page <= TotalPages(s)
    && 0 <= offset < |shown|
    && shown[offset] == FilteredTodos(s)[i]
  }

  /** Every filtered item is shown on exactly the page its position falls
      in: position `i` is entry `i % itemsPerPage` of page
      `i / itemsPerPage + 1`, and that page exists. */
  lemma PageOfPosition(s: Store, i: int)
    requires 0 <= i < |FilteredTodos(s)|
    ensures ShownOn(s, i, i / s.itemsPerPage + 1, i % s.itemsPerPage)
  {
    var k := s.itemsPerPage;
    var p := s.(currentPage := i / k + 1);
    var f := FilteredTodos(s);
    assert FilteredTodos(p) == f;
    PositionOnPage(i, k, TotalPages(s), |f|);
    assert PageStart(p) + i % k == i;
    PaginatedWindow(p);
  }
}

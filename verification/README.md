# Todo store model

A Dafny model of the todo store of a small Vue todo application
(`src/stores/todoStore.ts`). The store holds a list of todo items together with an
id counter, a loading flag, a filter mode, a search query and the pagination
settings. It offers three derived views: the filtered list, the page count and the
current page. It also offers six operations: `fetchTodos`, `addTodo`, `toggleTodo`,
`editTodo`, `removeTodo` and `clearTodos`. All but `clearTodos` talk to a remote
todo API.

In the model:

- the store is an immutable `Store` record holding a `seq<Todo>`;
- each view is a function of the store;
- each operation is a total function from the store, and from the way the remote
  request came back, to the new store.

The way each request came back is a parameter:

- `Reply<T>` is a decoded body or a caught failure;
- `Settlement` is resolved or rejected, for requests whose body the store ignores.

`toggleTodo` updates optimistically. It is modelled as two steps:

- `ToggleTodo` is the synchronous flip, and it yields the `Request` it sends, which carries the new flag;
- `SettleToggle` handles the outcome of that request, reverting the flip on rejection.

Modules:

- `Numbers`: `Math.max` over a spread of ids, where no arguments give `-Infinity`; `Math.ceil` of a quotient.
- `Arrays`: `filter`, `findIndex` and `slice` on sequences, using ECMAScript's clamping of negative indices.
- `Strings`: `toLowerCase`, folded on ASCII only, and `includes`.
- `TodoStore`: the `Todo` and `Store` records and the derived views.
- `TodoActions`: the operations.
- `Wrappers`: `Option`.

Three behaviours of the code to note:

- `addTodo` does not reject blank text. Any text is sent, and whatever the server
  returns is prepended.
- Item ids are not kept unique. A server id is prepended without a check. For this
  reason, toggle and edit act on the first item with the id, as `find` and `findIndex` do.
- `removeTodo` removes locally once the DELETE request resolves. It does not check
  the response status, so a resolved 404 also removes. A rejected request is not
  caught: the rejection propagates to the caller and nothing is removed. In the
  model, `RemoveTodo` returns the store unchanged in that case.

## Model

| member | source | states |
|---|---|---|
| TodoStore.Initial | src/stores/todoStore.ts:12-21 | a fresh store has no items, is not loading, has `nextId` 1, shows all items with no query on page 1 of 9, and so lists nothing, has no pages and shows an empty page |
| TodoStore.FreshStoreIsEmpty | src/stores/todoStore.spec.ts:12-16 | a fresh store has an empty list and is not loading |
| TodoActions.FromRecord | src/stores/todoStore.ts:29-34 | a record maps to an item with the same id, flag and user, and with the record's `todo` as `text` |
| Numbers.Max | src/stores/todoStore.ts:36 | `Math.max(...ids)` is `-Infinity` exactly for no ids; otherwise it is one of the ids and no id exceeds it |
| Numbers.CeilDiv | src/stores/todoStore.ts:129 | the ceiling of `n / k`: `q*k >= n`, `(q-1)*k < n` when `n > 0`, and 0 exactly when `n` is 0 |
| Arrays.Filter | src/stores/todoStore.ts:113-121 | `filter` keeps exactly the elements satisfying the test; its length is the count of those elements |
| Arrays.FilterSelects | src/stores/todoStore.ts:113-121 | `filter` result is the subsequence at the increasing positions whose element passes, and only those positions |
| Arrays.FilterFuse | src/stores/todoStore.ts:110-124 | filtering by the mode and then by the search equals one filter by their conjunction |
| Arrays.FindIndex | src/stores/todoStore.ts:94-95 | `findIndex` is -1 exactly when no element matches; otherwise it is a matching position with no match before it |
| Arrays.RelativeIndex | src/stores/todoStore.ts:136 | `slice` reads an index into `[0, len]`: an in-range index is kept, any index past the end becomes `len`, a negative index counts back from the end as `len + i`, and one reaching before the front becomes 0 |
| Arrays.Slice | src/stores/todoStore.ts:136 | `slice(start, end)` is the contiguous window starting at the read `start`, whose length is the read `end` minus the read `start`, or 0; for `start <= end` it has at most `end - start` entries; for `0 <= start <= len` and `start <= end` it is `xs[start..min(end, len)]`; it is empty from `start >= len` |
| Arrays.SliceFromBack | src/stores/todoStore.ts:136 | with `start <= end < 0` the slice is the run from `len + start` to `len + end`, cut at the front, and empty when `len + end <= 0` |
| Strings.LowerChar | src/stores/todoStore.ts:120 | lower-casing one character leaves no upper-case letter and moves only `A`..`Z` |
| Strings.Lower | src/stores/todoStore.ts:120 | `toLowerCase` keeps the length, leaves no upper-case letter, keeps other characters and lowers each letter by the ASCII offset |
| Strings.LowerIdempotent | src/stores/todoStore.ts:120 | lower-casing twice is lower-casing once |
| Strings.IncludesIff | src/stores/todoStore.ts:120 | `includes` holds exactly when the pattern occurs at some position; so an empty pattern always holds |
| Strings.IgnoresCase | src/stores/todoStore.ts:120 | the search result does not change when either the text or the query is lower-cased first |
| TodoStore.FilteredTodos | src/stores/todoStore.ts:109-125 | an item is listed exactly when it is stored, passes the mode, and passes the search |
| TodoStore.FilteredTodosSelects | src/stores/todoStore.ts:109-125 | the filtered list is the stored list restricted, in order, to exactly the visible positions |
| TodoStore.TotalPages | src/stores/todoStore.ts:128-130 | the page count is the ceiling of the filtered count over the page size, and 0 exactly for an empty filtered list |
| TodoStore.PaginatedTodos | src/stores/todoStore.ts:133-137 | the current page, for any page number, has at most `itemsPerPage` items, all of them filtered items |
| TodoStore.PaginatedWindow | src/stores/todoStore.ts:133-137 | from page 1 up, the page is the contiguous run of the filtered list from `(currentPage-1)*itemsPerPage`; a page past the last one is empty |
| TodoStore.PaginatedBelowFirstPage | src/stores/todoStore.ts:133-137 | page 0 is empty; a negative page shows the run `(currentPage-1)*itemsPerPage` entries before the end of the filtered list, cut at its front, as `slice` reads negative indices |
| TodoStore.PageOfPosition | src/stores/todoStore.ts:128-137 | the filtered item at position `i` is entry `i % k` of page `i / k + 1`, and that page is at most the page count |
| TodoActions.BeginFetch | src/stores/todoStore.ts:24 | `fetchTodos` sets loading before it awaits, and changes nothing else |
| TodoActions.FetchTodos | src/stores/todoStore.ts:23-42 | a received list replaces the items wholesale, mapping `todo` to `text`; a non-empty list makes `nextId` one more than the largest id, so it exceeds every id when ids are exact integers; an empty list gives `-Infinity`; a failure keeps the items and `nextId`; loading ends on every path |
| TodoActions.FetchFailureKeepsStore | src/stores/todoStore.ts:23-42 | a failed fetch, from start to finish, leaves the store unchanged apart from the loading flag |
| TodoActions.AddTodo | src/stores/todoStore.ts:44-61 | a received record is prepended: the length grows by one, the head carries the record's `todo` as `text`, and the tail is the old list; a failure changes nothing |
| TodoActions.AddToFreshStore | src/stores/todoStore.spec.ts:18-29 | one mocked creation on a fresh store leaves one item with text `Test Todo` |
| TodoActions.ToRecord | src/stores/todoStore.ts:29-34 | mapping a record to the store's shape loses nothing: the API record of an item maps back to that item, with `text` travelling as `todo` |
| TodoActions.AddThenRemoveRestores | src/stores/todoStore.ts:44-107 | adding a record whose id the store does not hold, then removing that id with a resolved delete, gives back the original store |
| TodoActions.ToggleTodo | src/stores/todoStore.ts:63-76 | an absent id changes nothing and sends nothing; otherwise only the first item with that id has its flag inverted, its other fields and all other items stay, and the request carries the new flag |
| TodoActions.SettleToggle | src/stores/todoStore.ts:77-81 | a rejected update inverts the flag of the first item with the id again; a resolved one changes nothing |
| TodoActions.ToggleRejectedRestores | src/stores/todoStore.ts:63-82 | a toggle followed by a rejected update restores the store exactly |
| TodoActions.ToggleResolvedKeepsFlip | src/stores/todoStore.ts:63-82 | a toggle followed by a resolved update leaves that item flipped and everything else unchanged |
| TodoActions.EditTodo | src/stores/todoStore.ts:84-101 | a received record replaces only the first item with the id, and the length and every other position stay; a failure or an absent id changes nothing |
| TodoActions.EditEchoKeepsStore | src/stores/todoStore.ts:84-101 | an edit whose reply echoes the first item with the id leaves the store unchanged |
| TodoActions.RemoveTodo | src/stores/todoStore.ts:103-107 | a resolved delete leaves no item with the id and keeps every other item; the length drops by the number of items with that id; a rejected delete removes nothing |
| TodoActions.RemoveKeepsOrder | src/stores/todoStore.ts:106 | the items that survive a removal keep their relative order |
| TodoActions.ClearTodos | src/stores/todoStore.ts:139-141 | clearing empties the list and touches nothing else |

## Left out

- The HTTP calls (`fetch`, `response.json()`) and the endpoint URLs are not modelled. Each call's outcome is a reply parameter.
- The requests of `fetchTodos`, `addTodo`, `editTodo` and `removeTodo` (their URLs and, for add and edit, their bodies) are not modelled, including `addTodo`'s fixed `completed: false` and `userId: 5`. The store's state never depends on them: only the reply does. Only `toggleTodo`'s request is modelled, because its body comes from the store's state.
- Every reply body is taken to be a well-formed todo record. An error body that still decodes, such as a 404 message, is not modelled. Neither is the extra `todo` field that the object spread in `addTodo` and `editTodo` carries along.
- Vue reactivity and the Pinia wiring are not modelled. The derived views are recomputed functions.
- Restoring the saved `todos`, `nextId` and `itemsPerPage` from local storage when the store is created, and saving them after each change, are not modelled. `Initial` is the store when nothing has been saved.
- The `console.error` logging of a caught failure in `fetchTodos`, `addTodo`, `toggleTodo` and `editTodo` is not modelled, because it is output only and leaves the store unchanged.
- The hot-module-replacement hook has no semantics to model.
- The setters for the filter, query, page and page size are plain field writes. They are written as record updates (`s.(filter := m)`) rather than as separate functions.
- Concurrent interleavings of the async operations are not modelled; operations are applied one after another. Two consequences:
  - In the source, `toggleTodo`'s revert mutates the object it captured, which a later refresh may already have detached. In the model, `SettleToggle` flips the first item with the id in the current list, which is the same item when nothing ran in between.
  - `editTodo` looks up the index after its request resolves. The model's store argument is the store at that moment.
- Strings.Lower: folds only the ASCII letters, because `toLowerCase`'s full Unicode case mapping is not modelled.
- TodoStore.TotalPages: assumes a page size of at least 1. In the source, 0 or a negative size gives `Infinity`, `NaN` or negative floating-point quotients.
- Page numbers are modelled as integers. Fractional page numbers are not modelled.
- TodoActions.FetchTodos: ids, `userId`, `nextId` and the page size are modelled as exact integers, not as JavaScript's double-precision numbers. From 2^53 up, the `+ 1` after `Math.max` can be rounded away, so `nextId` can equal the largest id instead of exceeding it. The ensures that `nextId` exceeds every id describes the program only for ids below 2^53.
- TodoActions.FetchTodos: `Math.max` over a very large list can throw a `RangeError` after the items were already replaced. This limit on spread arguments depends on the engine and is not modelled.
- `src/stores/chatStore.ts`, `src/router/index.ts` and `vite.config.ts` are not part of this model. They are a wrapper over a messaging SDK, a static route table and build configuration.

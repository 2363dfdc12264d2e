# Inventory view state model

A Dafny model of the state manager inside the `InventoryTable` React component.
The component holds an ordered list of inventory rows `{id, name, category,
quantity, isEditing}`. It also holds a new-item form, a selected category
filter and the direction of the next quantity sort. Its event handlers do the
following:

- add a row;
- toggle a row's edit mode;
- save an edit;
- delete rows by id;
- sort by quantity, alternating the direction on each click.

Two projections are recomputed on every render: the rows shown for the
selected category, and the distinct categories offered by the filter. A row
is highlighted as low on stock when its quantity is below 10.

Each handler is a pure function from `State` to `State`. A React
`setState(v)` is read as "the next state is `v`". A handler that shows an
alert and returns leaves the state as it was.

Files and modules:

- `seqs.dfy` (`Seqs`): the generic sequence vocabulary. It has the
  order-preserving `Filter`, the subsequence relation, `Distinct`,
  `FirstIndex`, and `Dedup`, which is first-seen-order deduplication like
  spreading a JavaScript `Set`.
- `items.dfy` (`Items`): the row type, `Option`, the sort direction, the
  low-stock rule, the sort comparator as a relation (`InOrder`), and the
  id-uniqueness invariant.
- `sorting.dfy` (`Sorting`): a stable insertion sort by quantity. It is
  proved ordered, a permutation, and stable. Stability is stated as: for
  every quantity `q`, the rows of quantity `q` keep their relative order.
  `Array.prototype.sort` is required to be stable by section 22.1.3.27 of
  ECMAScript 2019 (ECMA-262, 10th edition).
- `inventory.dfy` (`Inventory`): the `State`, its starting value, and the
  five handlers.
- `views.dfy` (`Views`): the category filter, the rows a state renders
  under its selected category, and the distinct-category list.
- `properties.dfy` (`Properties`): lemmas that relate operations to one
  another. They cover inverse, involution, idempotence, the unique-id
  invariant, uniqueness of the stable sort, and the example scenarios.

Inputs the model takes as parameters instead of computing them:

- the new row's id, which the component reads from `Date.now()`;
- the number `parseInt` makes of the form's quantity text;
- the values an edited row offers on save, with the quantity as `Option<int>`
  where `None` stands for `NaN`.

What the component's code does and does not check:

- The add handler checks only that the three form fields are non-empty. It
  does not check that the quantity parses.
- Ids are never checked for uniqueness. Uniqueness is therefore proved only
  as an invariant that holds while every added id is fresh (`AddKeepsUniqueIds`
  and the companion lemmas). The model does not assume it.
- Quantities are not required to be non-negative.
- Toggle, save and delete act on every row with the given id, not just one.

## Model

| member | source | states |
|---|---|---|
| Inventory.Initial | src/components/InventoryTable.js:16-24 | The starting state has three rows with distinct ids, none in edit mode, an empty form, no filter and an ascending first sort. It starts the unique-id invariant that the handlers keep. |
| Inventory.HandleAddItem | src/components/InventoryTable.js:29-39 | With an empty name, category or quantity text the whole state (rows and form) is unchanged. Otherwise exactly one row is appended with the given id, the form's name and category, the parsed quantity and edit mode off. All earlier rows stay in place and the form is cleared. |
| Inventory.ToggleEdit | src/components/InventoryTable.js:42-48 | Same length. Every field except `isEditing` is unchanged at every position. `isEditing` changes exactly at the rows whose id matches. An unknown id leaves the state unchanged. |
| Inventory.SaveEdit | src/components/InventoryTable.js:50-60 | An edit with an empty name, an empty category or a `NaN` quantity changes nothing. Otherwise the length and the id at every position are kept. Rows with the id take the new name, category and quantity with edit mode off. All other rows are unchanged. |
| Inventory.HandleDeleteItem | src/components/InventoryTable.js:62-64 | A row survives iff its id differs from the target. Each survivor keeps its multiplicity and the target id has none. The result is a subsequence of the input, so relative order is kept. An unknown id leaves the state unchanged. |
| Inventory.HandleSort | src/components/InventoryTable.js:66-72 | The new rows are a permutation of the old ones. They are ordered by quantity in the current direction and every equal-quantity group keeps its order. The direction flips and nothing else changes. |
| Views.FilteredItems | src/components/InventoryTable.js:74-76 | No selected category gives all rows, unchanged. A selected category gives exactly the rows of that category, each with its multiplicity, as a subsequence of the rows. |
| Views.Shown | src/components/InventoryTable.js:74-76 | The rendered rows for a state are all its rows when its selected category is empty. Otherwise they are exactly its rows of that category, each with its multiplicity, as a subsequence of the rows. |
| Views.UniqueCategories | src/components/InventoryTable.js:27 | It contains exactly the categories some row has, with no duplicates, in the order of each category's first row. |
| Items.RowClass | src/components/InventoryTable.js:162 | A row gets a class, namely `table-danger`, iff its quantity is below 10. |
| Seqs.Filter | src/components/InventoryTable.js:63 | The result holds exactly the input elements that satisfy the predicate and is no longer than the input. |
| Seqs.FilterIsSubseq | src/components/InventoryTable.js:75 | The filter keeps the input's relative order. |
| Seqs.FilterCount | src/components/InventoryTable.js:75 | The filter keeps every copy of a kept value and drops every copy of a rejected one. |
| Seqs.Dedup | src/components/InventoryTable.js:27 | `[...new Set(s)]` has exactly the values of `s`, with no duplicates, in first-occurrence order. |
| Sorting.Insert | src/components/InventoryTable.js:67-69 | Inserting one row adds exactly that row to the multiset. |
| Sorting.Sort | src/components/InventoryTable.js:67-69 | The sort keeps the length and the multiset of rows. |
| Sorting.SortOrdered | src/components/InventoryTable.js:67-69 | Every pair of rows in the sort's output satisfies the comparator for the direction. |
| Sorting.SortStable | src/components/InventoryTable.js:67-69 | For every quantity, the rows with that quantity appear in the same relative order before and after the sort. |
| Sorting.SortOfOrdered | src/components/InventoryTable.js:67-69 | A list already ordered in the direction is left as it is. |
| Properties.SortCharacterized | src/components/InventoryTable.js:66-70 | Any list ordered in the current direction that keeps every quantity group of the rows is exactly the handler's result. So order plus stability determine the sort. |
| Properties.OrderedStableUnique | src/components/InventoryTable.js:67-69 | Two lists ordered in one direction with identical quantity groups are equal. |
| Properties.SortIdempotent | src/components/InventoryTable.js:67-69 | Sorting twice in the same direction equals sorting once. |
| Properties.SortTwiceAlternates | src/components/InventoryTable.js:66-72 | Two consecutive clicks sort in the current direction and then in the opposite one. The direction ends where it started and the rows stay a permutation. |
| Properties.SortKeepsUniqueIds | src/components/InventoryTable.js:67-69 | Sorting keeps ids unique. |
| Properties.InsertKeepsUniqueIds | src/components/InventoryTable.js:67-69 | Inserting a row with a new id into rows with unique ids keeps them unique. |
| Properties.LowStockRowsGrouped | src/components/InventoryTable.js:162 | After an ascending sort the low-stock rows form a prefix. After a descending sort they form a suffix. |
| Properties.AddThenDeleteRestores | src/components/InventoryTable.js:34-37 | Deleting the id of a freshly added row restores the rows. Only the cleared form remains changed. |
| Properties.AddKeepsUniqueIds | src/components/InventoryTable.js:34-37 | Adding under an id no row carries keeps ids unique. |
| Properties.AddExtendsCategories | src/components/InventoryTable.js:27 | After an add, the category list is the old list plus the new row's category at the end if that category is new, and the old list otherwise. |
| Properties.ToggleTwiceRestores | src/components/InventoryTable.js:42-48 | Toggling edit mode twice with one id restores the state. |
| Properties.SaveEditIdempotent | src/components/InventoryTable.js:50-60 | Saving the same edit twice equals saving it once. |
| Properties.SaveAfterToggle | src/components/InventoryTable.js:55-59 | A valid save gives the same state whether or not the rows were toggled first. |
| Properties.ToggleAndSaveKeepUniqueIds | src/components/InventoryTable.js:42-60 | Toggling and saving keep ids unique. |
| Properties.DeleteIdempotent | src/components/InventoryTable.js:62-64 | Deleting twice equals deleting once. |
| Properties.DeleteRemovesExactlyOne | src/components/InventoryTable.js:62-64 | With unique ids, deleting row `k`'s id yields the rows before `k` followed by the rows after `k`. |
| Properties.FilterKeepsUniqueIds | src/components/InventoryTable.js:63 | Filtering rows with unique ids keeps them unique. |
| Properties.DeleteKeepsUniqueIds | src/components/InventoryTable.js:62-64 | Deleting keeps ids unique. |
| Properties.FilteredEmptyIffCategoryGone | src/components/InventoryTable.js:74-76 | With a category selected, the table is empty iff the category list no longer contains that category. |
| Properties.FilteredIdempotent | src/components/InventoryTable.js:74-76 | Filtering the filtered rows again changes nothing. |
| Properties.ScenarioFilterElectronics | src/components/InventoryTable.js:16-20 | Filtering the starting rows by "Electronics" gives Laptop then Mouse. |
| Properties.ScenarioSortAscending | src/components/InventoryTable.js:66-72 | The first sort of the starting rows gives Mouse, Notebook, Laptop, and the next sort is descending. |
| Properties.ScenarioEditNotebook | src/components/InventoryTable.js:50-60 | Toggling Notebook and saving quantity 3 leaves it with quantity 3, out of edit mode and highlighted as low stock. |
| Properties.ScenarioAddEmptyCategory | src/components/InventoryTable.js:29-33 | An add with an empty category leaves the rows and the typed form untouched. |

## Left out

- Rendering: the JSX, reactstrap components, icons and the legend badge (src/components/InventoryTable.js:78-242). These are presentation only. The row-highlight rule is kept as `RowClass`.
- The `alert` notifications (src/components/InventoryTable.js:31, 52). They are blocking I/O. Only their outcome, an unchanged state, is modelled.
- Id generation with `Date.now()` (src/components/InventoryTable.js:36). It is a clock read, so the id is a parameter of `HandleAddItem`.
- HandleAddItem: it does not model `parseInt` on text it cannot parse (such as ".5", which the number input accepts), for which the component would store `NaN`. The model takes the parsed value as an `int` parameter, and rows never hold `NaN`.
- SaveEdit: it receives the candidate name, category and quantity explicitly. The component instead passes the row object itself, whose fields its inputs mutate on every keystroke (src/components/InventoryTable.js:169-196). That aliasing is a matter of React and closure timing, not of list logic. The object spread also copies the passed object's `id`. At the only call site that id equals the target id, so matching rows keep their id in the model.
- HandleSort: the comparator subtracts JavaScript numbers. The model compares unbounded integers, so precision loss beyond 2^53 is not modelled, and neither is `NaN` in comparisons.
- The new-item form's per-keystroke field updates (src/components/InventoryTable.js:89-111) and the filter selection update (src/components/InventoryTable.js:130). These are plain field assignments. The form reset after an add is modelled.

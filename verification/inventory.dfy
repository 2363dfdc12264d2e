/** The state of the inventory view and the event handlers that change it.
    A React `setState(v)` is read as "the next state is `v`"; a handler that
    returns early after an alert leaves the state as it was. */
module Inventory {
  import opened Items
  import opened Seqs
  import opened Sorting

  /** The new-item form: three text fields, the quantity still unparsed. */
  datatype Draft = Draft(name: string, category: string, quantity: string)

  /** The form as it is when the view starts and after every successful add. */
  const EmptyDraft: Draft := Draft("", "", "")

  /** The values a row in edit mode offers to save. The quantity is what
      `parseInt` made of the input: `None` stands for `NaN`. */
  datatype Edit = Edit(name: string, category: string, quantity: Option<int>)

  /** Everything the view holds: the rows in display order, the new-item
      form, the selected category filter ("" for all), and the direction of
      the next sort. */
  datatype State = State(
    items: seq<Item>,
    draft: Draft,
    filterCategory: string,
    sortOrder: SortOrder)

  /** The three rows the view starts with, no filter, ascending first.
      Their ids are distinct, which starts the unique-id invariant that the
      handlers keep as long as every added id is fresh. */
  function Initial(): (r: State)
    ensures UniqueIds(r.items)
    ensures |r.items| == 3
    ensures forall i :: 0 <= i < |r.items| ==> !r.items[i].isEditing
    ensures r.draft == EmptyDraft && r.filterCategory == "" && r.sortOrder == Asc
  {
    State(
      [ Item(1, "Laptop", "Electronics", 15, false),
        Item(2, "Notebook", "Stationery", 8, false),
        Item(3, "Mouse", "Electronics", 5, false) ],
      EmptyDraft, "", Asc)
  }

  /** Every field of the form is non-empty: the add handler's only check. */
  predicate DraftComplete(d: Draft) {
    d.name != "" && d.category != "" && d.quantity != ""
  }

  /** The save handler's check: names present and the quantity a number. */
  predicate ValidEdit(e: Edit) {
    e.name != "" && e.category != "" && e.quantity.Some?
  }

  /** "Add Item". `id` is the clock reading the view uses as the new id and
      `parsed` is what `parseInt` makes of the draft's quantity text. An
      incomplete form changes nothing; otherwise one row is appended and the
      form is cleared. */
  function HandleAddItem(s: State, id: int, parsed: int): (t: State)
    ensures !DraftComplete(s.draft) ==> t == s
    ensures DraftComplete(s.draft) ==>
      && t == s.(items := t.items, draft := EmptyDraft)
      && |t.items| == |s.items| + 1
      && t.items[..|s.items|] == s.items
      && t.items[|s.items|] == Item(id, s.draft.name, s.draft.category, parsed, false)
  {
    if !DraftComplete(s.draft) then s
    else
      var row := Item(id, s.draft.name, s.draft.category, parsed, false);
      s.(items := s.items + [row], draft := EmptyDraft)
  }

  /** Flips the edit flag of every row whose id is `id`. */
  function ToggleEdit(s: State, id: int): (t: State)
    ensures t == s.(items := t.items)
    ensures |t.items| == |s.items|
    ensures forall i :: 0 <= i < |s.items| ==>
      t.items[i].(isEditing := s.items[i].isEditing) == s.items[i]
    ensures forall i :: 0 <= i < |s.items| ==>
      (t.items[i].isEditing != s.items[i].isEditing <==> s.items[i].id == id)
    ensures !HasId(s.items, id) ==> t == s
  {
    var rows := seq(|s.items|, i requires 0 <= i < |s.items| =>
      var it := s.items[i];
      if it.id == id then it.(isEditing := !it.isEditing) else it);
    assert !HasId(s.items, id) ==> rows == s.items;
    s.(items := rows)
  }

  /** Commits `e` to every row whose id is `id` and leaves edit mode there.
      An invalid edit changes nothing. */
  function SaveEdit(s: State, id: int, e: Edit): (t: State)
    ensures !ValidEdit(e) ==> t == s
    ensures ValidEdit(e) ==>
      && t == s.(items := t.items)
      && |t.items| == |s.items|
      && forall i :: 0 <= i < |s.items| ==>
        && t.items[i].id == s.items[i].id
        && (s.items[i].id == id ==>
              t.items[i] == Item(id, e.name, e.category, e.quantity.value, false))
        && (s.items[i].id != id ==> t.items[i] == s.items[i])
  {
    if !ValidEdit(e) then s
    else
      var rows := seq(|s.items|, i requires 0 <= i < |s.items| =>
        var it := s.items[i];
        if it.id == id
        then it.(name := e.name, category := e.category,
                 quantity := e.quantity.value, isEditing := false)
        else it);
      s.(items := rows)
  }

  /** The rows of `items` whose id is not `id`, in order. */
  function Remove(items: seq<Item>, id: int): seq<Item> {
    Filter((it: Item) => it.id != id, items)
  }

  /** Deletes every row whose id is `id`, keeping the others in order. */
  function HandleDeleteItem(s: State, id: int): (t: State)
    ensures t == s.(items := t.items)
    ensures forall x :: x in t.items <==> x in s.items && x.id != id
    ensures forall x ::
      multiset(t.items)[x] == (if x.id == id then 0 else multiset(s.items)[x])
    ensures IsSubseq(t.items, s.items)
    ensures !HasId(s.items, id) ==> t == s
  {
    var p := (it: Item) => it.id != id;
    FilterCount(p, s.items);
    FilterIsSubseq(p, s.items);
    assert !HasId(s.items, id) ==> Remove(s.items, id) == s.items by {
      if !HasId(s.items, id) {
        FilterKeepsAll(p, s.items);
      }
    }
    s.(items := Remove(s.items, id))
  }

  /** "Sort by Quantity": a stable sort in the current direction, after
      which the direction flips. */
  function HandleSort(s: State): (t: State)
    ensures t == s.(items := t.items, sortOrder := s.sortOrder.Flip())
    ensures multiset(t.items) == multiset(s.items)
    ensures Ordered(s.sortOrder, t.items)
    ensures forall q :: WithQuantity(t.items, q) == WithQuantity(s.items, q)
  {
    SortOrdered(s.sortOrder, s.items);
    SortStableAll(s.sortOrder, s.items);
    s.(items := Sort(s.sortOrder, s.items), sortOrder := s.sortOrder.Flip())
  }
}

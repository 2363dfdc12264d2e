/** Properties that relate the handlers to one another and to the views:
    inverses, involutions, idempotence, the invariant that ids stay unique
    when every added id is fresh, and the uniqueness of a stable sort. */
module Properties {
  import opened Items
  import opened Seqs
  import opened Sorting
  import opened Inventory
  import opened Views

  // ---------------------------------------------------------------- add

  /** Deleting a freshly added row undoes the add, except that the form
      stays cleared. */
  lemma AddThenDeleteRestores(s: State, id: int, parsed: int)
    requires DraftComplete(s.draft)
    requires !HasId(s.items, id)
    ensures HandleDeleteItem(HandleAddItem(s, id, parsed), id) == s.(draft := EmptyDraft)
  {
    var t := HandleAddItem(s, id, parsed);
    var p := (it: Item) => it.id != id;
    var row := t.items[|s.items|];
    assert t.items == s.items + [row];
    FilterConcat(p, s.items, [row]);
    FilterKeepsAll(p, s.items);
    assert Filter(p, [row]) == [];
  }

  /** Adding a row under a fresh id keeps the ids unique. */
  lemma AddKeepsUniqueIds(s: State, id: int, parsed: int)
    requires UniqueIds(s.items)
    requires !HasId(s.items, id)
    ensures UniqueIds(HandleAddItem(s, id, parsed).items)
  {
  }

  /** Adding a row extends the category options by its category, at the end,
      when that category is new, and leaves them alone otherwise. */
  lemma AddExtendsCategories(s: State, id: int, parsed: int)
    requires DraftComplete(s.draft)
    ensures UniqueCategories(HandleAddItem(s, id, parsed).items) ==
      UniqueCategories(s.items) +
      (if s.draft.category in UniqueCategories(s.items) then [] else [s.draft.category])
  {
    var t := HandleAddItem(s, id, parsed);
    var cs := Categories(t.items);
    assert cs[..|cs| - 1] == Categories(s.items);
    assert cs[|cs| - 1] == s.draft.category;
  }

  // ------------------------------------------------------- edit and save

  /** Toggling edit mode twice restores the state. */
  lemma ToggleTwiceRestores(s: State, id: int)
    ensures ToggleEdit(ToggleEdit(s, id), id) == s
  {
  }

  /** Saving the same edit twice is the same as saving it once. */
  lemma SaveEditIdempotent(s: State, id: int, e: Edit)
    ensures SaveEdit(SaveEdit(s, id, e), id, e) == SaveEdit(s, id, e)
  {
  }

  /** A valid save decides every field of the rows it targets, so whether
      they were toggled into edit mode first makes no difference. */
  lemma SaveAfterToggle(s: State, id: int, e: Edit)
    requires ValidEdit(e)
    ensures SaveEdit(ToggleEdit(s, id), id, e) == SaveEdit(s, id, e)
  {
  }

  /** Toggling and saving keep the ids unique. */
  lemma ToggleAndSaveKeepUniqueIds(s: State, id: int, e: Edit)
    requires UniqueIds(s.items)
    ensures UniqueIds(ToggleEdit(s, id).items)
    ensures UniqueIds(SaveEdit(s, id, e).items)
  {
  }

  // -------------------------------------------------------------- delete

  /** Deleting twice is the same as deleting once. */
  lemma DeleteIdempotent(s: State, id: int)
    ensures HandleDeleteItem(HandleDeleteItem(s, id), id) == HandleDeleteItem(s, id)
  {
  }

  /** With unique ids, no row other than row `k` carries row `k`'s id. */
  lemma OtherRowsOtherIds(s: seq<Item>, k: nat)
    requires UniqueIds(s)
    requires k < |s|
    ensures forall x :: x in s[..k] ==> x.id != s[k].id
    ensures forall x :: x in s[k + 1..] ==> x.id != s[k].id
  {
  }

  /** With unique ids, deleting the id of row `k` removes exactly that row. */
  lemma DeleteRemovesExactlyOne(s: State, id: int, k: nat)
    requires UniqueIds(s.items)
    requires k < |s.items| && s.items[k].id == id
    ensures HandleDeleteItem(s, id).items == s.items[..k] + s.items[k + 1..]
  {
    var p := (it: Item) => it.id != id;
    var before, after := s.items[..k], s.items[k + 1..];
    assert s.items == before + [s.items[k]] + after;
    OtherRowsOtherIds(s.items, k);
    assert Filter(p, before) == before by {
      FilterKeepsAll(p, before);
    }
    assert Filter(p, after) == after by {
      FilterKeepsAll(p, after);
    }
    assert Filter(p, [s.items[k]]) == [];
    assert Filter(p, before + [s.items[k]]) == before by {
      FilterConcat(p, before, [s.items[k]]);
    }
    assert Filter(p, s.items) == before + after by {
      FilterConcat(p, before + [s.items[k]], after);
    }
  }

  /** Filtering keeps the ids unique. */
  lemma {:induction false} FilterKeepsUniqueIds(p: Item -> bool, s: seq<Item>)
    requires UniqueIds(s)
    ensures UniqueIds(Filter(p, s))
    decreases |s|
  {
    if s != [] {
      var rest := Filter(p, s[1..]);
      FilterKeepsUniqueIds(p, s[1..]);
      if p(s[0]) {
        var r := [s[0]] + rest;
        forall j | 0 < j < |r|
          ensures r[0].id != r[j].id
        {
          assert r[j] in rest;
          var k :| 0 <= k < |s[1..]| && s[1..][k] == r[j];
          assert s[k + 1] == r[j];
        }
        assert Filter(p, s) == r;
      }
    }
  }

  /** Deleting keeps the ids unique. */
  lemma DeleteKeepsUniqueIds(s: State, id: int)
    requires UniqueIds(s.items)
    ensures UniqueIds(HandleDeleteItem(s, id).items)
  {
    FilterKeepsUniqueIds((it: Item) => it.id != id, s.items);
  }

  // ---------------------------------------------------------------- sort

  /** Sorting twice in the same direction is the same as sorting once. */
  lemma SortIdempotent(o: SortOrder, s: seq<Item>)
    ensures Sort(o, Sort(o, s)) == Sort(o, s)
  {
    SortOrdered(o, s);
    SortOfOrdered(o, Sort(o, s));
  }

  /** Two clicks sort first in the current direction, then in the other,
      and leave the direction where it started. */
  lemma SortTwiceAlternates(s: State)
    ensures HandleSort(HandleSort(s)).sortOrder == s.sortOrder
    ensures Ordered(s.sortOrder, HandleSort(s).items)
    ensures Ordered(s.sortOrder.Flip(), HandleSort(HandleSort(s)).items)
    ensures multiset(HandleSort(HandleSort(s)).items) == multiset(s.items)
  {
  }

  /** Ordered in both directions means all quantities are equal. */
  lemma InOrderBoth(o: SortOrder, a: Item, b: Item)
    requires InOrder(o, a, b) && InOrder(o, b, a)
    ensures a.quantity == b.quantity
  {
  }

  /** The head of a non-empty quantity class of `s`. */
  lemma WithQuantityHead(s: seq<Item>, q: int)
    requires s != []
    ensures WithQuantity(s, q) ==
      (if s[0].quantity == q then [s[0]] else []) + WithQuantity(s[1..], q)
  {
  }

  /** A row of `a` appears in `b` when the quantity classes agree. */
  lemma SameClassesSameRows(a: seq<Item>, b: seq<Item>, i: nat)
    requires forall q :: WithQuantity(a, q) == WithQuantity(b, q)
    requires i < |a|
    ensures a[i] in b
  {
    assert a[i] in WithQuantity(a, a[i].quantity);
  }

  /** The first row of an ordered list may precede every row of it. */
  lemma HeadPrecedes(o: SortOrder, s: seq<Item>, x: Item)
    requires Ordered(o, s)
    requires x in s
    ensures InOrder(o, s[0], x)
  {
  }

  /** Two non-empty lists ordered in direction `o` whose quantity classes
      agree start with the same row. */
  lemma OrderedStableHeads(o: SortOrder, a: seq<Item>, b: seq<Item>)
    requires Ordered(o, a) && Ordered(o, b)
    requires forall q :: WithQuantity(a, q) == WithQuantity(b, q)
    requires a != [] && b != []
    ensures a[0] == b[0]
  {
    SameClassesSameRows(a, b, 0);
    SameClassesSameRows(b, a, 0);
    HeadPrecedes(o, b, a[0]);
    HeadPrecedes(o, a, b[0]);
    InOrderBoth(o, a[0], b[0]);
    var q0 := a[0].quantity;
    WithQuantityHead(a, q0);
    WithQuantityHead(b, q0);
    assert WithQuantity(a, q0)[0] == a[0];
    assert WithQuantity(b, q0)[0] == b[0];
  }

  /** Two lists ordered in direction `o` whose quantity classes agree are
      equal: order plus stability leaves no freedom. */
  lemma {:induction false} OrderedStableUnique(o: SortOrder, a: seq<Item>, b: seq<Item>)
    requires Ordered(o, a) && Ordered(o, b)
    requires forall q :: WithQuantity(a, q) == WithQuantity(b, q)
    ensures a == b
    decreases |a|
  {
    if a == [] && b != [] {
      SameClassesSameRows(b, a, 0);
    } else if a != [] && b == [] {
      SameClassesSameRows(a, b, 0);
    } else if a != [] {
      OrderedStableHeads(o, a, b);
      forall q
        ensures WithQuantity(a[1..], q) == WithQuantity(b[1..], q)
      {
        WithQuantityHead(a, q);
        WithQuantityHead(b, q);
        var h := if a[0].quantity == q then [a[0]] else [];
        assert WithQuantity(a[1..], q) == WithQuantity(a, q)[|h|..];
        assert WithQuantity(b[1..], q) == WithQuantity(b, q)[|h|..];
      }
      assert Ordered(o, a[1..]);
      assert Ordered(o, b[1..]);
      OrderedStableUnique(o, a[1..], b[1..]);
      assert a == [a[0]] + a[1..];
      assert b == [b[0]] + b[1..];
    }
  }

  /** The sort is the only ordered, stable rearrangement: any list that is
      ordered in direction `o` and keeps every quantity class of `s` is
      exactly what the handler produces. */
  lemma SortCharacterized(s: State, t: seq<Item>)
    requires Ordered(s.sortOrder, t)
    requires forall q :: WithQuantity(t, q) == WithQuantity(s.items, q)
    ensures HandleSort(s).items == t
  {
    var r := HandleSort(s).items;
    OrderedStableUnique(s.sortOrder, r, t);
  }

  /** Inserting a row whose id is new keeps the ids unique. */
  lemma {:induction false} InsertKeepsUniqueIds(o: SortOrder, x: Item, s: seq<Item>)
    requires UniqueIds(s)
    requires forall y :: y in s ==> y.id != x.id
    ensures UniqueIds(Insert(o, x, s))
    decreases |s|
  {
    if s != [] && !InOrder(o, x, s[0]) {
      var tail := Insert(o, x, s[1..]);
      InsertKeepsUniqueIds(o, x, s[1..]);
      var r := [s[0]] + tail;
      forall j | 0 < j < |r|
        ensures r[0].id != r[j].id
      {
        assert r[j] in multiset(tail);
        if r[j] != x {
          assert r[j] in multiset(s[1..]);
          var k :| 0 <= k < |s[1..]| && s[1..][k] == r[j];
          assert s[k + 1] == r[j];
        }
      }
    } else if s != [] {
      var r := [x] + s;
      forall j | 0 < j < |r|
        ensures r[0].id != r[j].id
      {
        assert r[j] in s;
      }
    }
  }

  /** Sorting keeps the ids unique. */
  lemma {:induction false} SortKeepsUniqueIds(o: SortOrder, s: seq<Item>)
    requires UniqueIds(s)
    ensures UniqueIds(Sort(o, s))
    decreases |s|
  {
    if s != [] {
      var rest := Sort(o, s[1..]);
      SortKeepsUniqueIds(o, s[1..]);
      forall y | y in rest
        ensures y.id != s[0].id
      {
        assert y in multiset(rest);
        assert y in multiset(s[1..]);
        var k :| 0 <= k < |s[1..]| && s[1..][k] == y;
        assert s[k + 1] == y;
      }
      InsertKeepsUniqueIds(o, s[0], rest);
    }
  }

  /** After an ascending sort the low-stock rows come first; after a
      descending sort they come last. */
  lemma LowStockRowsGrouped(o: SortOrder, s: seq<Item>)
    requires Ordered(o, s)
    ensures o == Asc ==>
      forall i, j :: 0 <= i < j < |s| && LowStock(s[j]) ==> LowStock(s[i])
    ensures o == Desc ==>
      forall i, j :: 0 <= i < j < |s| && LowStock(s[i]) ==> LowStock(s[j])
  {
  }

  // --------------------------------------------------------------- views

  /** With a category selected, the table is empty exactly when no row of
      that category is left, i.e. when the filter control no longer offers it. */
  lemma FilteredEmptyIffCategoryGone(items: seq<Item>, c: string)
    requires c != ""
    ensures FilteredItems(items, c) == [] <==> c !in UniqueCategories(items)
  {
  }

  /** Applying the filter to its own output changes nothing. */
  lemma FilteredIdempotent(items: seq<Item>, c: string)
    ensures FilteredItems(FilteredItems(items, c), c) == FilteredItems(items, c)
  {
    if c != "" {
      FilterTwice((it: Item) => it.category == c, items);
    }
  }

  // ----------------------------------------------------------- scenarios

  /** Filtering the starting rows by "Electronics" shows Laptop then Mouse. */
  lemma ScenarioFilterElectronics()
    ensures FilteredItems(Initial().items, "Electronics") ==
      [Initial().items[0], Initial().items[2]]
  {
  }

  /** Sorting the starting rows gives Mouse, Notebook, Laptop and sets the
      next sort to descending. */
  lemma ScenarioSortAscending()
    ensures HandleSort(Initial()).items ==
      [Initial().items[2], Initial().items[1], Initial().items[0]]
    ensures HandleSort(Initial()).sortOrder == Desc
  {
  }

  /** Editing Notebook's quantity to 3 and saving leaves it out of edit mode
      and flagged as low on stock. */
  lemma ScenarioEditNotebook()
    ensures var t := SaveEdit(ToggleEdit(Initial(), 2), 2, Edit("Notebook", "Stationery", Some(3)));
      && t.items[1].quantity == 3
      && !t.items[1].isEditing
      && RowClass(t.items[1]) == "table-danger"
  {
  }

  /** Adding with an empty category changes nothing, and the form keeps
      what was typed. */
  lemma ScenarioAddEmptyCategory(id: int, parsed: int)
    ensures var s := Initial().(draft := Draft("Pen", "", "4"));
      HandleAddItem(s, id, parsed) == s
  {
  }
}

/** The projections the view recomputes on every render: the list of
    distinct categories offered by the filter control, and the rows the table
    shows for the selected category. Neither changes the state. */
module Views {
  import opened Items
  import opened Seqs
  import opened Inventory

  /** The category of each row, row by row: `items.map(item => item.category)`. */
  function Categories(items: seq<Item>): (cs: seq<string>)
    ensures |cs| == |items|
    ensures forall i :: 0 <= i < |items| ==> cs[i] == items[i].category
  {
    seq(|items|, i requires 0 <= i < |items| => items[i].category)
  }

  /** Some row has category `c`. */
  predicate HasCategory(items: seq<Item>, c: string) {
    exists i :: 0 <= i < |items| && items[i].category == c
  }

  /** The options of the category filter: every category present, once, in
      the order of the first row that carries it. */
  function UniqueCategories(items: seq<Item>): (r: seq<string>)
    ensures forall c :: c in r <==> c in Categories(items)
    ensures forall c :: c in r <==> HasCategory(items, c)
    ensures Distinct(r)
    ensures forall i, j :: 0 <= i < j < |r| ==>
      FirstIndex(Categories(items), r[i]) < FirstIndex(Categories(items), r[j])
  {
    var cs := Categories(items);
    assert forall c :: c in cs <==> HasCategory(items, c);
    Dedup(cs)
  }

  /** The rows the table shows: all rows when no category is selected, else
      exactly the rows of the selected category, in their current order. */
  function FilteredItems(items: seq<Item>, category: string): (r: seq<Item>)
    ensures category == "" ==> r == items
    ensures category != "" ==>
      forall x :: x in r <==> x in items && x.category == category
    ensures category != "" ==> IsSubseq(r, items)
    ensures category != "" ==> forall x ::
      multiset(r)[x] == (if x.category == category then multiset(items)[x] else 0)
  {
    if category == "" then items
    else
      var p := (it: Item) => it.category == category;
      FilterIsSubseq(p, items);
      FilterCount(p, items);
      Filter(p, items)
  }

  /** The rows the table renders for state `s`: the rows of the selected
      category, or all rows when none is selected. */
  function Shown(s: State): (r: seq<Item>)
    ensures s.filterCategory == "" ==> r == s.items
    ensures s.filterCategory != "" ==>
      forall x :: x in r <==> x in s.items && x.category == s.filterCategory
    ensures s.filterCategory != "" ==> IsSubseq(r, s.items)
    ensures s.filterCategory != "" ==> forall x ::
      multiset(r)[x] == (if x.category == s.filterCategory then multiset(s.items)[x] else 0)
  {
    FilteredItems(s.items, s.filterCategory)
  }
}

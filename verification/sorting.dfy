/** The stable sort by quantity behind the "Sort by Quantity" button.
    `Array.prototype.sort` is required to be stable by section 22.1.3.27 of
    ECMAScript 2019 (ECMA-262, 10th edition), so the model sorts with a
    stable insertion sort and proves it ordered, a permutation, and stable. */
module Sorting {
  import opened Items
  import opened Seqs

  /** The rows of `s` with quantity `q`, in their order in `s`. A sort by
      quantity is stable exactly when it leaves each of these unchanged. */
  function WithQuantity(s: seq<Item>, q: int): seq<Item> {
    Filter((it: Item) => it.quantity == q, s)
  }

  /** Places `x` in front of the first row it may precede, so `x` ends up
      ahead of every row of equal quantity. */
  function Insert(o: SortOrder, x: Item, s: seq<Item>): (r: seq<Item>)
    ensures |r| == |s| + 1
    ensures multiset(r) == multiset(s) + multiset{x}
  {
    if s == [] then [x]
    else if InOrder(o, x, s[0]) then [x] + s
    else
      assert s == [s[0]] + s[1..];
      [s[0]] + Insert(o, x, s[1..])
  }

  /** Sorts `s` in direction `o`, keeping rows of equal quantity in their
      original relative order. */
  function Sort(o: SortOrder, s: seq<Item>): (r: seq<Item>)
    ensures |r| == |s|
    ensures multiset(r) == multiset(s)
  {
    if s == [] then []
    else
      assert s == [s[0]] + s[1..];
      Insert(o, s[0], Sort(o, s[1..]))
  }

  lemma {:induction false} InsertOrdered(o: SortOrder, x: Item, s: seq<Item>)
    requires Ordered(o, s)
    ensures Ordered(o, Insert(o, x, s))
    decreases |s|
  {
    if s != [] && !InOrder(o, x, s[0]) {
      var tail := Insert(o, x, s[1..]);
      InsertOrdered(o, x, s[1..]);
      forall e | e in tail
        ensures InOrder(o, s[0], e)
      {
        assert e in multiset(tail);
        if e != x {
          assert e in multiset(s[1..]);
          var k :| 0 <= k < |s[1..]| && s[1..][k] == e;
          assert s[k + 1] == e;
        }
      }
      var r := [s[0]] + tail;
      forall i, j | 0 <= i < j < |r|
        ensures InOrder(o, r[i], r[j])
      {
        if i > 0 {
          assert r[i] == tail[i - 1] && r[j] == tail[j - 1];
        } else {
          assert r[j] in tail;
        }
      }
    }
  }

  /** The result of `Sort` is ordered in direction `o`. */
  lemma {:induction false} SortOrdered(o: SortOrder, s: seq<Item>)
    ensures Ordered(o, Sort(o, s))
    decreases |s|
  {
    if s != [] {
      SortOrdered(o, s[1..]);
      InsertOrdered(o, s[0], Sort(o, s[1..]));
    }
  }

  /** Inserting `x` only moves it past rows of a different quantity. */
  lemma {:induction false} InsertStable(o: SortOrder, x: Item, s: seq<Item>, q: int)
    ensures WithQuantity(Insert(o, x, s), q) == WithQuantity([x] + s, q)
    decreases |s|
  {
    var p := (it: Item) => it.quantity == q;
    if s != [] && !InOrder(o, x, s[0]) {
      InsertStable(o, x, s[1..], q);
      FilterConcat(p, [s[0]], Insert(o, x, s[1..]));
      FilterConcat(p, [x], s[1..]);
      FilterConcat(p, [x], s);
      assert s == [s[0]] + s[1..];
      FilterConcat(p, [s[0]], s[1..]);
      assert !(p(x) && p(s[0]));
      assert Filter(p, [x]) + Filter(p, [s[0]]) == Filter(p, [s[0]]) + Filter(p, [x]);
    }
  }

  /** For every quantity, the rows of that quantity keep their relative order. */
  lemma {:induction false} SortStable(o: SortOrder, s: seq<Item>, q: int)
    ensures WithQuantity(Sort(o, s), q) == WithQuantity(s, q)
    decreases |s|
  {
    if s != [] {
      var p := (it: Item) => it.quantity == q;
      SortStable(o, s[1..], q);
      InsertStable(o, s[0], Sort(o, s[1..]), q);
      FilterConcat(p, [s[0]], Sort(o, s[1..]));
      FilterConcat(p, [s[0]], s[1..]);
      assert s == [s[0]] + s[1..];
    }
  }

  /** `SortStable` for every quantity at once. */
  lemma SortStableAll(o: SortOrder, s: seq<Item>)
    ensures forall q :: WithQuantity(Sort(o, s), q) == WithQuantity(s, q)
  {
    forall q
      ensures WithQuantity(Sort(o, s), q) == WithQuantity(s, q)
    {
      SortStable(o, s, q);
    }
  }

  /** Sorting a list that is already in order changes nothing. */
  lemma {:induction false} SortOfOrdered(o: SortOrder, s: seq<Item>)
    requires Ordered(o, s)
    ensures Sort(o, s) == s
    decreases |s|
  {
    if s != [] {
      assert Ordered(o, s[1..]);
      SortOfOrdered(o, s[1..]);
      assert s == [s[0]] + s[1..];
      if |s| > 1 {
        assert InOrder(o, s[0], s[1]);
      }
    }
  }
}

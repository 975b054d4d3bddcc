/** The worklist of (cost, disk) entries and its extraction rule (src/main.rs).

    The source sorts the whole list ascending by cost with a stable sort and
    pops the last element. The model keeps the list in insertion order and
    extracts the entry of maximal cost that comes last among the entries of that
    cost; `LastOfStableSort` shows this is the entry the source pops. */
module Worklist {
  import opened Geometry

  datatype Item = Item(cost: real, disk: Disk)

  /** `i` holds a maximal cost and every later entry costs strictly less. */
  predicate IsWorst(w: seq<Item>, i: int)
  {
    0 <= i < |w| &&
    (forall j :: 0 <= j < |w| ==> w[j].cost <= w[i].cost) &&
    (forall j :: i < j < |w| ==> w[j].cost < w[i].cost)
  }

  /** There is at most one worst entry. */
  lemma WorstUnique(w: seq<Item>, i: int, j: int)
    requires IsWorst(w, i) && IsWorst(w, j)
    ensures i == j
  {
    assert w[i].cost == w[j].cost;
  }

  /** The index of the worst entry of a non-empty worklist. */
  function PopIndex(w: seq<Item>): (i: nat)
    requires 0 < |w|
    ensures IsWorst(w, i)
  {
    if |w| == 1 then 0
    else
      var i := PopIndex(w[..|w| - 1]);
      if w[i].cost <= w[|w| - 1].cost then |w| - 1 else i
  }

  /** The worklist without entry `i`, the others in their order. */
  function Remove(w: seq<Item>, i: int): (r: seq<Item>)
    requires 0 <= i < |w|
    ensures |r| == |w| - 1
    ensures forall k :: 0 <= k < |r| ==> r[k] == w[if k < i then k else k + 1]
  {
    w[..i] + w[i + 1..]
  }

  /** Reference for the source's `sort_by` on costs: a stable ascending insertion
      sort, where an entry goes after every entry that costs no more. */
  function Insert(s: seq<Item>, x: Item): (r: seq<Item>)
    ensures |r| == |s| + 1
    decreases |s|
  {
    if |s| == 0 || s[|s| - 1].cost <= x.cost then s + [x]
    else Insert(s[..|s| - 1], x) + [s[|s| - 1]]
  }

  function SortByCost(w: seq<Item>): (r: seq<Item>)
    ensures |r| == |w|
  {
    if |w| == 0 then [] else Insert(SortByCost(w[..|w| - 1]), w[|w| - 1])
  }

  predicate Ascending(s: seq<Item>)
  {
    forall i, j :: 0 <= i < j < |s| ==> s[i].cost <= s[j].cost
  }

  lemma {:induction false} InsertBounded(s: seq<Item>, x: Item, b: real)
    requires forall k :: 0 <= k < |s| ==> s[k].cost <= b
    requires x.cost <= b
    ensures forall k :: 0 <= k < |Insert(s, x)| ==> Insert(s, x)[k].cost <= b
    decreases |s|
  {
    if |s| > 0 && x.cost < s[|s| - 1].cost {
      InsertBounded(s[..|s| - 1], x, b);
    }
  }

  lemma {:induction false} InsertKeepsOrder(s: seq<Item>, x: Item)
    requires Ascending(s)
    ensures Ascending(Insert(s, x))
    ensures multiset(Insert(s, x)) == multiset(s) + multiset{x}
    decreases |s|
  {
    InsertMultiset(s, x);
    if |s| > 0 && x.cost < s[|s| - 1].cost {
      var init, last := s[..|s| - 1], s[|s| - 1];
      InsertKeepsOrder(init, x);
      InsertBounded(init, x, last.cost);
    }
  }

  /** The reference sort orders by cost and is a permutation. */
  lemma {:induction false} SortByCostSorts(w: seq<Item>)
    ensures Ascending(SortByCost(w))
    ensures multiset(SortByCost(w)) == multiset(w)
  {
    if |w| > 0 {
      var init, x := w[..|w| - 1], w[|w| - 1];
      assert w == init + [x];
      assert multiset(w) == multiset(init) + multiset{x};
      var t := SortByCost(init);
      SortByCostSorts(init);
      InsertKeepsOrder(t, x);
      assert SortByCost(w) == Insert(t, x);
    }
  }

  lemma {:induction false} LastOfInsert(s: seq<Item>, x: Item)
    ensures Insert(s, x)[|s|] == if |s| == 0 || s[|s| - 1].cost <= x.cost then x else s[|s| - 1]
  {
  }

  /** Popping the last element of the stably sorted worklist removes exactly the
      worst entry. */
  lemma {:induction false} LastOfStableSort(w: seq<Item>)
    requires 0 < |w|
    ensures SortByCost(w)[|w| - 1] == w[PopIndex(w)]
  {
    if |w| > 1 {
      var init, x := w[..|w| - 1], w[|w| - 1];
      var i := PopIndex(init);
      LastOfStableSort(init);
      var t := SortByCost(init);
      assert t[|t| - 1] == w[i];
      LastOfInsert(t, x);
      assert SortByCost(w) == Insert(t, x);
      assert PopIndex(w) == if w[i].cost <= x.cost then |w| - 1 else i;
    }
  }

  /** In an ordered worklist the worst entry is the last one. */
  lemma LastOfAscending(s: seq<Item>)
    requires 0 < |s| && Ascending(s)
    ensures PopIndex(s) == |s| - 1
  {
    assert IsWorst(s, |s| - 1);
    WorstUnique(s, |s| - 1, PopIndex(s));
  }

  /** Inserting adds exactly one entry and loses none, whatever the order of `s`. */
  lemma {:induction false} InsertMultiset(s: seq<Item>, x: Item)
    ensures multiset(Insert(s, x)) == multiset(s) + multiset{x}
    decreases |s|
  {
    if |s| > 0 && x.cost < s[|s| - 1].cost {
      var init := s[..|s| - 1];
      InsertMultiset(init, x);
      assert s == init + [s[|s| - 1]];
    }
  }

  /** Sorting an already ordered worklist changes nothing. */
  lemma {:induction false} SortOfAscending(s: seq<Item>)
    requires Ascending(s)
    ensures SortByCost(s) == s
  {
    if |s| > 0 {
      var n := |s|;
      var init, last := s[..n - 1], s[n - 1];
      assert Ascending(init) by {
        assert forall i :: 0 <= i < |init| ==> init[i] == s[i];
      }
      SortOfAscending(init);
      assert SortByCost(s) == Insert(init, last);
      if 0 < |init| {
        assert init[|init| - 1].cost <= last.cost by { assert init[|init| - 1] == s[n - 2]; }
      }
      assert Insert(init, last) == init + [last];
      assert init + [last] == s;
    }
  }

  /** Entries appended after two lists that sort alike leave them sorting alike. */
  lemma {:induction false} SortAppend(a: seq<Item>, a2: seq<Item>, b: seq<Item>)
    requires SortByCost(a) == SortByCost(a2)
    ensures SortByCost(a + b) == SortByCost(a2 + b)
    decreases |b|
  {
    if |b| == 0 {
      assert a + b == a && a2 + b == a2;
    } else {
      var init, last := b[..|b| - 1], b[|b| - 1];
      assert b == init + [last];
      assert a + b == (a + init) + [last];
      assert a2 + b == (a2 + init) + [last];
      SortAppend(a, a2, init);
      SortSnoc(a + init, last);
      SortSnoc(a2 + init, last);
    }
  }

  /** Taking out the worst entry and sorting the rest gives the sorted worklist without
      its last entry: extracting the worst entry commutes with the stable sort. */
  lemma {:induction false} SortWithoutWorst(w: seq<Item>)
    requires 0 < |w|
    ensures SortByCost(Remove(w, PopIndex(w))) == SortByCost(w)[..|w| - 1]
  {
    var n := |w|;
    if n > 1 {
      var init := w[..n - 1];
      assert w == init + [w[n - 1]];
      var p := PopIndex(w);
      if p == n - 1 {
        assert Remove(w, p) == init;
        assert forall k :: 0 <= k < |init| ==> init[k] == w[k];
        WorstIsLast(init, w[n - 1]);
      } else {
        assert p == PopIndex(init);
        SortWithoutWorst(init);
        LastOfStableSort(init);
        assert init[p] == w[p];
        WorstIsEarlier(init, w[n - 1], p);
      }
    }
  }

  /** The case of `SortWithoutWorst` where the newest entry `x` is the worst. */
  lemma WorstIsLast(init: seq<Item>, x: Item)
    requires forall k :: 0 <= k < |init| ==> init[k].cost <= x.cost
    ensures SortByCost(init + [x]) == SortByCost(init) + [x]
  {
    var t := SortByCost(init);
    SortSnoc(init, x);
    if 0 < |t| {
      SortByCostSorts(init);
      var last := t[|t| - 1];
      assert last in multiset(init) by { assert last in multiset(t); }
    }
  }

  /** The case of `SortWithoutWorst` where the worst entry `p` is older than the newest
      entry `x`, given the property for the list before `x` came. */
  lemma WorstIsEarlier(init: seq<Item>, x: Item, p: int)
    requires 0 <= p < |init| && x.cost < init[p].cost
    requires SortByCost(init)[|init| - 1] == init[p]
    requires SortByCost(Remove(init, p)) == SortByCost(init)[..|init| - 1]
    ensures SortByCost(Remove(init + [x], p)) == SortByCost(init + [x])[..|init|]
  {
    var t := SortByCost(init);
    RemoveAppend(init, x, p);
    SortSnoc(Remove(init, p), x);
    SortSnoc(init, x);
    assert Insert(t, x) == Insert(t[..|t| - 1], x) + [t[|t| - 1]];
  }

  lemma RemoveAppend(s: seq<Item>, x: Item, p: int)
    requires 0 <= p < |s|
    ensures Remove(s + [x], p) == Remove(s, p) + [x]
  {
    assert (s + [x])[..p] == s[..p];
    assert (s + [x])[p + 1..] == s[p + 1..] + [x];
  }

  lemma SortSnoc(s: seq<Item>, x: Item)
    ensures SortByCost(s + [x]) == Insert(SortByCost(s), x)
  {
    assert (s + [x])[..|s|] == s;
  }
}

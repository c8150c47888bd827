/** What pushing, popping and removing do to a heap, and what any pushes followed by pops deliver. */
module HeapTheorems {
  import opened HeapSpec

  /** `x` is one of the items and none outranks it. */
  ghost predicate Greatest<T>(cmp: Compare<T>, items: multiset<T>, x: T) {
    x in items && forall y :: y in items ==> cmp(x, y) >= 0
  }

  /** Pushing adds exactly the item and keeps heap order. */
  lemma PushCorrect<T>(cmp: Compare<T>, s: seq<T>, x: T)
    requires Heap(cmp, s) && Preorder(cmp, multiset(s) + multiset{x})
    ensures Heap(cmp, Push(cmp, s, x)) && multiset(Push(cmp, s, x)) == multiset(s) + multiset{x}
  {
    var t := s + [x];
    forall k: nat | k < |t| && k != |s|
      ensures UnderParent(cmp, t, k)
    {
      assert UnderParent(cmp, s, k);
    }
    SiftUpBag(cmp, t, |s|);
    SiftUpHeap(cmp, t, |s|);
  }

  /** Removing drops exactly the k-th entry, in any order. */
  lemma RemoveBag<T>(cmp: Compare<T>, s: seq<T>, k: nat)
    requires k < |s|
    ensures multiset(RemoveAt(cmp, s, k)) == multiset(s) - multiset{s[k]}
  {
    MovedBag(s, k);
    SiftDownBag(cmp, Moved(s, k), k);
  }

  lemma SubOrder<T>(cmp: Compare<T>, items: multiset<T>, fewer: multiset<T>)
    requires Preorder(cmp, items) && fewer <= items
    ensures Preorder(cmp, fewer)
  {
    forall a, b | a in fewer && b in fewer
      ensures Opposite(cmp, a, b)
    {
      assert a in items && b in items;
    }
    forall a, b, c | a in fewer && b in fewer && c in fewer
      ensures Transitive(cmp, a, b, c)
    {
      assert a in items && b in items && c in items;
    }
  }

  lemma MovedSinks<T>(cmp: Compare<T>, s: seq<T>, k: nat)
    requires Preorder(cmp, multiset(s)) && Heap(cmp, s) && k < |s|
    ensures SinkingAt(cmp, Moved(s, k), k)
  {
    var t := Moved(s, k);
    forall i: nat | i < |t| && i != k && (i > 0 ==> Parent(i) != k)
      ensures UnderParent(cmp, t, i)
    {
      assert UnderParent(cmp, s, i);
    }
    forall i: nat | i < |t|
      ensures UnderGrandparent(cmp, t, k, i)
    {
      if k > 0 && i > 0 && Parent(i) == k {
        assert UnderParent(cmp, s, i) && UnderParent(cmp, s, k);
        GeTrans(cmp, s, Parent(k), k, i);
      }
    }
  }

  /** An entry that outranks its parent outranks its children too, and stays where it is. */
  lemma OutrankingStays<T>(cmp: Compare<T>, s: seq<T>, k: nat)
    requires Preorder(cmp, multiset(s)) && SinkingAt(cmp, s, k) && 0 < k < |s| && cmp(s[Parent(k)], s[k]) < 0
    ensures SiftDown(cmp, s, k) == s
  {
    GeTotal(cmp, s, Parent(k), k);
    var m := Largest(cmp, s, k);
    if m != k {
      assert UnderGrandparent(cmp, s, k, m);
      GeTrans(cmp, s, k, Parent(k), m);
      LargestUp(cmp, s, k);
    }
  }

  lemma LargestUp<T>(cmp: Compare<T>, s: seq<T>, i: nat)
    requires Preorder(cmp, multiset(s)) && i < |s| && Largest(cmp, s, i) != i
    ensures !Ge(cmp, s, i, Largest(cmp, s, i))
  {
    var (l, r) := (2 * i + 1, 2 * i + 2);
    GeTotal(cmp, s, l, i);
    if Largest(cmp, s, i) == r {
      GeTotal(cmp, s, r, i);
      GeTotal(cmp, s, r, l);
      if cmp(s[l], s[i]) > 0 && Ge(cmp, s, i, r) {
        GeTotal(cmp, s, i, l);
        GeTrans(cmp, s, l, i, r);
      }
    }
  }

  /**
   * Removing the k-th entry sifts the moved last entry down only: the result is a heap exactly
   * when that entry does not outrank the parent of the hole.
   */
  lemma RemoveHeap<T>(cmp: Compare<T>, s: seq<T>, k: nat)
    requires Preorder(cmp, multiset(s)) && Heap(cmp, s) && k < |s|
    ensures Heap(cmp, RemoveAt(cmp, s, k)) <==> (k > 0 ==> cmp(s[Parent(k)], s[|s| - 1]) >= 0)
  {
    var t := Moved(s, k);
    MovedBag(s, k);
    SubOrder(cmp, multiset(s), multiset(t));
    MovedSinks(cmp, s, k);
    if k > 0 && cmp(s[Parent(k)], s[|s| - 1]) < 0 {
      assert UnderParent(cmp, s, k);
      OutrankingStays(cmp, t, k);
      assert !UnderParent(cmp, t, k);
    } else {
      SiftDownHeap(cmp, t, k);
    }
  }

  function Difference(a: int, b: int): int { a - b }

  lemma DifferenceOrders(items: multiset<int>)
    ensures Preorder(Difference, items)
  {
  }

  lemma SmallHeap(s: seq<int>)
    requires s == [10, 4, 9, 1, 2, 8]
    ensures Heap(Difference, s)
  {
    assert UnderParent(Difference, s, 1) && UnderParent(Difference, s, 2) && UnderParent(Difference, s, 3);
    assert UnderParent(Difference, s, 4) && UnderParent(Difference, s, 5);
  }

  /** A heap that removing an entry breaks. */
  lemma RemoveBreaks(s: seq<int>)
    requires s == [10, 4, 9, 1, 2, 8]
    ensures Preorder(Difference, multiset(s)) && Heap(Difference, s) && !Heap(Difference, RemoveAt(Difference, s, 3))
  {
    DifferenceOrders(multiset(s));
    SmallHeap(s);
    Outranking(s, 3);
  }

  lemma Outranking(s: seq<int>, k: nat)
    requires Preorder(Difference, multiset(s)) && Heap(Difference, s) && 0 < k < |s| && s[Parent(k)] < s[|s| - 1]
    ensures !Heap(Difference, RemoveAt(Difference, s, k))
  {
    RemoveHeap(Difference, s, k);
  }

  /** Popping delivers a greatest item, drops exactly it and keeps heap order. */
  lemma PopCorrect<T>(cmp: Compare<T>, s: seq<T>)
    requires Preorder(cmp, multiset(s)) && Heap(cmp, s) && s != []
    ensures Greatest(cmp, multiset(s), s[0])
    ensures Heap(cmp, RemoveAt(cmp, s, 0)) && multiset(RemoveAt(cmp, s, 0)) == multiset(s) - multiset{s[0]}
  {
    RemoveBag(cmp, s, 0);
    RemoveHeap(cmp, s, 0);
    forall y | y in multiset(s)
      ensures cmp(s[0], y) >= 0
    {
      var k: nat :| k < |s| && s[k] == y;
      TopGreatest(cmp, s, k);
    }
  }

  // ----- Pushes followed by pops -----

  function PushAll<T>(cmp: Compare<T>, xs: seq<T>): seq<T> {
    if xs == [] then [] else Push(cmp, PushAll(cmp, xs[..|xs| - 1]), xs[|xs| - 1])
  }

  /** What popping until the heap is empty delivers. */
  function PopAll<T>(cmp: Compare<T>, s: seq<T>): (r: seq<T>)
    ensures |r| == |s|
    decreases |s|
  {
    if s == [] then [] else [s[0]] + PopAll(cmp, RemoveAt(cmp, s, 0))
  }

  ghost predicate Descending<T>(cmp: Compare<T>, xs: seq<T>) {
    forall i, j :: 0 <= i < j < |xs| ==> cmp(xs[i], xs[j]) >= 0
  }

  lemma {:induction false} PushAllHeap<T>(cmp: Compare<T>, xs: seq<T>)
    requires Preorder(cmp, multiset(xs))
    ensures Heap(cmp, PushAll(cmp, xs)) && multiset(PushAll(cmp, xs)) == multiset(xs)
  {
    if xs != [] {
      var front, x := xs[..|xs| - 1], xs[|xs| - 1];
      assert xs == front + [x];
      SubOrder(cmp, multiset(xs), multiset(front));
      PushAllHeap(cmp, front);
      PushCorrect(cmp, PushAll(cmp, front), x);
    }
  }

  lemma GreatestFirst<T>(cmp: Compare<T>, items: multiset<T>, x: T, r: seq<T>)
    requires Greatest(cmp, items, x) && Descending(cmp, r) && multiset(r) == items - multiset{x}
    ensures Descending(cmp, [x] + r) && multiset([x] + r) == items
  {
    forall j | 0 <= j < |r|
      ensures cmp(x, r[j]) >= 0
    {
      assert r[j] in multiset(r);
    }
  }

  lemma {:induction false} PopAllSorted<T>(cmp: Compare<T>, s: seq<T>)
    requires Preorder(cmp, multiset(s)) && Heap(cmp, s)
    ensures Descending(cmp, PopAll(cmp, s)) && multiset(PopAll(cmp, s)) == multiset(s)
    decreases |s|
  {
    if s != [] {
      var t := RemoveAt(cmp, s, 0);
      PopCorrect(cmp, s);
      SubOrder(cmp, multiset(s), multiset(t));
      PopAllSorted(cmp, t);
      GreatestFirst(cmp, multiset(s), s[0], PopAll(cmp, t));
    }
  }

  /** Pushing any items and popping them all delivers the same items, greatest first. */
  lemma HeapSorts<T>(cmp: Compare<T>, xs: seq<T>)
    requires Preorder(cmp, multiset(xs))
    ensures var r := PopAll(cmp, PushAll(cmp, xs)); Descending(cmp, r) && multiset(r) == multiset(xs)
  {
    PushAllHeap(cmp, xs);
    PopAllSorted(cmp, PushAll(cmp, xs));
  }
}

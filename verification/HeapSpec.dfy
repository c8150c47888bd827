/** Array heaps on values: sifting, and what it does to heap order and contents under any total preorder. */
module HeapSpec {

  type Compare<!T> = (T, T) -> int

  // ----- Sifting -----

  function Parent(i: nat): (p: nat)
    requires i > 0
    ensures p < i && (i == 2 * p + 1 || i == 2 * p + 2)
  {
    (i - 1) / 2
  }

  function Swap<T>(s: seq<T>, a: nat, b: nat): (t: seq<T>)
    requires a < |s| && b < |s|
    ensures |t| == |s| && t[a] == s[b] && t[b] == s[a]
    ensures forall k :: 0 <= k < |s| && k != a && k != b ==> t[k] == s[k]
  {
    s[a := s[b]][b := s[a]]
  }

  /** Moves the entry at `i` up while it outranks its parent. */
  function SiftUp<T>(cmp: Compare<T>, s: seq<T>, i: nat): (t: seq<T>)
    requires i < |s|
    ensures |t| == |s|
    decreases i
  {
    if i > 0 && cmp(s[Parent(i)], s[i]) < 0 then SiftUp(cmp, Swap(s, i, Parent(i)), Parent(i)) else s
  }

  /** Which of `i` and its children ranks highest, the earlier one on a tie. */
  function Largest<T>(cmp: Compare<T>, s: seq<T>, i: nat): (m: nat)
    requires i < |s|
    ensures i <= m < |s| && (m == i || m == 2 * i + 1 || m == 2 * i + 2)
  {
    var l := if 2 * i + 1 < |s| && cmp(s[2 * i + 1], s[i]) > 0 then 2 * i + 1 else i;
    if 2 * i + 2 < |s| && cmp(s[2 * i + 2], s[l]) > 0 then 2 * i + 2 else l
  }

  /** Moves the entry at `i` down while a child outranks it. */
  function SiftDown<T>(cmp: Compare<T>, s: seq<T>, i: nat): (t: seq<T>)
    ensures |t| == |s|
    decreases |s| - i
  {
    if i < |s| && Largest(cmp, s, i) != i then SiftDown(cmp, Swap(s, i, Largest(cmp, s, i)), Largest(cmp, s, i)) else s
  }

  // ----- Operations -----

  function Push<T>(cmp: Compare<T>, s: seq<T>, x: T): seq<T> {
    SiftUp(cmp, s + [x], |s|)
  }

  /** The last entry takes the place of the k-th. */
  function Moved<T>(s: seq<T>, k: nat): (t: seq<T>)
    requires k < |s|
    ensures |t| == |s| - 1
  {
    s[k := s[|s| - 1]][..|s| - 1]
  }

  function RemoveAt<T>(cmp: Compare<T>, s: seq<T>, k: nat): (t: seq<T>)
    requires k < |s|
    ensures |t| == |s| - 1
  {
    SiftDown(cmp, Moved(s, k), k)
  }

  // ----- Order -----

  ghost predicate Opposite<T>(cmp: Compare<T>, a: T, b: T) {
    cmp(a, b) < 0 <==> cmp(b, a) > 0
  }

  ghost predicate Transitive<T>(cmp: Compare<T>, a: T, b: T, c: T) {
    cmp(a, b) >= 0 && cmp(b, c) >= 0 ==> cmp(a, c) >= 0
  }

  /** The comparison orders the given items, ties allowed. */
  ghost predicate Preorder<T>(cmp: Compare<T>, items: multiset<T>) {
    && (forall a, b :: a in items && b in items ==> Opposite(cmp, a, b))
    && (forall a, b, c :: a in items && b in items && c in items ==> Transitive(cmp, a, b, c))
  }

  /** Entry `a` does not rank below entry `b`. */
  ghost predicate Ge<T>(cmp: Compare<T>, s: seq<T>, a: nat, b: nat) {
    a < |s| && b < |s| && cmp(s[a], s[b]) >= 0
  }

  ghost predicate UnderParent<T>(cmp: Compare<T>, s: seq<T>, k: nat) {
    k > 0 ==> Ge(cmp, s, Parent(k), k)
  }

  /** No entry outranks its parent. */
  ghost predicate Heap<T>(cmp: Compare<T>, s: seq<T>) {
    forall k: nat :: k < |s| ==> UnderParent(cmp, s, k)
  }

  /** No child of `i` outranks the parent of `i`. */
  ghost predicate UnderGrandparent<T>(cmp: Compare<T>, s: seq<T>, i: nat, k: nat) {
    i > 0 && k > 0 && Parent(k) == i ==> Ge(cmp, s, Parent(i), k)
  }

  lemma GeTrans<T>(cmp: Compare<T>, s: seq<T>, a: nat, b: nat, c: nat)
    requires Preorder(cmp, multiset(s)) && Ge(cmp, s, a, b) && Ge(cmp, s, b, c)
    ensures Ge(cmp, s, a, c)
  {
    assert s[a] in multiset(s) && s[b] in multiset(s) && s[c] in multiset(s);
    assert Transitive(cmp, s[a], s[b], s[c]);
  }

  lemma GeTotal<T>(cmp: Compare<T>, s: seq<T>, a: nat, b: nat)
    requires Preorder(cmp, multiset(s)) && a < |s| && b < |s|
    ensures cmp(s[a], s[b]) <= 0 <==> Ge(cmp, s, b, a)
  {
    assert s[a] in multiset(s) && s[b] in multiset(s);
    assert Opposite(cmp, s[a], s[b]) && Opposite(cmp, s[b], s[a]);
  }

  /** The first entry of a heap is a greatest one. */
  lemma {:induction false} TopGreatest<T>(cmp: Compare<T>, s: seq<T>, k: nat)
    requires Preorder(cmp, multiset(s)) && Heap(cmp, s) && k < |s|
    ensures Ge(cmp, s, 0, k)
  {
    if k == 0 {
      GeTotal(cmp, s, 0, 0);
    } else {
      assert UnderParent(cmp, s, k);
      TopGreatest(cmp, s, Parent(k));
      GeTrans(cmp, s, 0, Parent(k), k);
    }
  }

  // ----- Contents -----

  lemma SwapBag<T>(s: seq<T>, a: nat, b: nat)
    requires a < |s| && b < |s|
    ensures multiset(Swap(s, a, b)) == multiset(s)
  {
  }

  lemma {:induction false} SiftUpBag<T>(cmp: Compare<T>, s: seq<T>, i: nat)
    requires i < |s|
    ensures multiset(SiftUp(cmp, s, i)) == multiset(s)
    decreases i
  {
    if i > 0 && cmp(s[Parent(i)], s[i]) < 0 {
      SwapBag(s, i, Parent(i));
      SiftUpBag(cmp, Swap(s, i, Parent(i)), Parent(i));
    }
  }

  lemma {:induction false} SiftDownBag<T>(cmp: Compare<T>, s: seq<T>, i: nat)
    ensures multiset(SiftDown(cmp, s, i)) == multiset(s)
    decreases |s| - i
  {
    if i < |s| && Largest(cmp, s, i) != i {
      SwapBag(s, i, Largest(cmp, s, i));
      SiftDownBag(cmp, Swap(s, i, Largest(cmp, s, i)), Largest(cmp, s, i));
    }
  }

  lemma MovedBag<T>(s: seq<T>, k: nat)
    requires k < |s|
    ensures multiset(Moved(s, k)) == multiset(s) - multiset{s[k]}
  {
    SwapBag(s, k, |s| - 1);
    assert Swap(s, k, |s| - 1) == Moved(s, k) + [s[k]];
  }

  // ----- Sifting up keeps the order -----

  /** A heap but for the entry at `i`, which may outrank its parent. */
  ghost predicate RisingAt<T>(cmp: Compare<T>, s: seq<T>, i: nat) {
    && i < |s|
    && (forall k: nat :: k < |s| && k != i ==> UnderParent(cmp, s, k))
    && (forall k: nat :: k < |s| ==> UnderGrandparent(cmp, s, i, k))
  }

  lemma RiseParent<T>(cmp: Compare<T>, s: seq<T>, i: nat, k: nat)
    requires Preorder(cmp, multiset(s)) && RisingAt(cmp, s, i) && i > 0 && cmp(s[Parent(i)], s[i]) < 0
    requires k < |s| && k != Parent(i)
    ensures UnderParent(cmp, Swap(s, i, Parent(i)), k)
  {
    var p := Parent(i);
    GeTotal(cmp, s, p, i);
    if k == 0 || k == i {
    } else {
      assert UnderParent(cmp, s, k) && UnderGrandparent(cmp, s, i, k);
      if Parent(k) == p {
        GeTrans(cmp, s, i, p, k);
      }
    }
  }

  lemma RiseGrandparent<T>(cmp: Compare<T>, s: seq<T>, i: nat, k: nat)
    requires Preorder(cmp, multiset(s)) && RisingAt(cmp, s, i) && i > 0 && k < |s|
    ensures UnderGrandparent(cmp, Swap(s, i, Parent(i)), Parent(i), k)
  {
    var p := Parent(i);
    if p > 0 && k > 0 && Parent(k) == p {
      assert UnderParent(cmp, s, p);
      if k != i {
        assert UnderParent(cmp, s, k);
        GeTrans(cmp, s, Parent(p), p, k);
      }
    }
  }

  lemma {:induction false} SiftUpHeap<T>(cmp: Compare<T>, s: seq<T>, i: nat)
    requires Preorder(cmp, multiset(s)) && RisingAt(cmp, s, i)
    ensures Heap(cmp, SiftUp(cmp, s, i))
    decreases i
  {
    if i > 0 && cmp(s[Parent(i)], s[i]) < 0 {
      var t := Swap(s, i, Parent(i));
      SwapBag(s, i, Parent(i));
      forall k: nat | k < |t| && k != Parent(i)
        ensures UnderParent(cmp, t, k)
      {
        RiseParent(cmp, s, i, k);
      }
      forall k: nat | k < |t|
        ensures UnderGrandparent(cmp, t, Parent(i), k)
      {
        RiseGrandparent(cmp, s, i, k);
      }
      SiftUpHeap(cmp, t, Parent(i));
    } else {
      assert UnderParent(cmp, s, i);
    }
  }

  // ----- Sifting down keeps the order -----

  /** A heap but for the entry at `i`, which its children may outrank and which may outrank its parent. */
  ghost predicate SinkingAt<T>(cmp: Compare<T>, s: seq<T>, i: nat) {
    && (forall k: nat :: k < |s| && k != i && (k > 0 ==> Parent(k) != i) ==> UnderParent(cmp, s, k))
    && (forall k: nat :: k < |s| ==> UnderGrandparent(cmp, s, i, k))
  }

  lemma LargestGreatest<T>(cmp: Compare<T>, s: seq<T>, i: nat, k: nat)
    requires Preorder(cmp, multiset(s)) && i < |s| && k < |s| && (k == i || (k > 0 && Parent(k) == i))
    ensures Ge(cmp, s, Largest(cmp, s, i), k)
  {
    var (l, r) := (2 * i + 1, 2 * i + 2);
    GeTotal(cmp, s, i, i);
    if l < |s| {
      GeTotal(cmp, s, l, i);
      GeTotal(cmp, s, i, l);
      GeTotal(cmp, s, l, l);
    }
    if r < |s| {
      GeTotal(cmp, s, r, i);
      GeTotal(cmp, s, r, l);
      GeTotal(cmp, s, r, r);
      if cmp(s[l], s[i]) > 0 && cmp(s[r], s[l]) > 0 {
        GeTrans(cmp, s, r, l, i);
      } else if cmp(s[l], s[i]) <= 0 && cmp(s[r], s[i]) > 0 {
        GeTrans(cmp, s, r, i, l);
      }
    }
  }

  lemma SinkParent<T>(cmp: Compare<T>, s: seq<T>, i: nat, k: nat)
    requires Preorder(cmp, multiset(s)) && SinkingAt(cmp, s, i) && UnderParent(cmp, s, i) && i < |s|
    requires Largest(cmp, s, i) != i && k < |s| && (k > 0 ==> Parent(k) != Largest(cmp, s, i))
    ensures UnderParent(cmp, Swap(s, i, Largest(cmp, s, i)), k)
  {
    var m := Largest(cmp, s, i);
    if k > 0 {
      if Parent(k) == i {
        LargestGreatest(cmp, s, i, if k == m then i else k);
      } else if k == i {
        assert UnderGrandparent(cmp, s, i, m);
      } else {
        assert UnderParent(cmp, s, k);
      }
    }
  }

  lemma {:induction false} SiftDownHeap<T>(cmp: Compare<T>, s: seq<T>, i: nat)
    requires Preorder(cmp, multiset(s)) && SinkingAt(cmp, s, i) && (i < |s| ==> UnderParent(cmp, s, i))
    ensures Heap(cmp, SiftDown(cmp, s, i))
    decreases |s| - i
  {
    if i < |s| && Largest(cmp, s, i) != i {
      var m := Largest(cmp, s, i);
      var t := Swap(s, i, m);
      SwapBag(s, i, m);
      forall k: nat | k < |t| && (k > 0 ==> Parent(k) != m)
        ensures UnderParent(cmp, t, k)
      {
        SinkParent(cmp, s, i, k);
      }
      forall k: nat | k < |t|
        ensures UnderGrandparent(cmp, t, m, k)
      {
      }
      SiftDownHeap(cmp, t, m);
    } else {
      forall k: nat | k < |s|
        ensures UnderParent(cmp, s, k)
      {
        if i < |s| && k > 0 && Parent(k) == i {
          LargestGreatest(cmp, s, i, k);
        }
      }
    }
  }
}

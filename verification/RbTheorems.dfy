/**
 * The red-black tree's operations as functions on whole trees, their effect on the in-order
 * sequence, the height bound, and agreement with a finite map over every run.
 */
module RbTheorems {
  import opened Arith
  import opened Results
  import opened RbSpec
  import opened RbOps

  /** What every tree between two operations satisfies. */
  ghost predicate Good<N, K>(cmp: (K, K) -> int, t: Tree<N, K>) {
    RedBlack(t) && Sorted(cmp, t) && NoDup(Bag(t))
  }

  // ----- Find -----

  /** The node that a search for `k` returns. */
  function Find<N, K>(cmp: (K, K) -> int, t: Tree<N, K>, k: K): Option<N> {
    var u := Seek(cmp, Top, t, k).1;
    if u.Branch? then Some(u.id) else None
  }

  /** A search returns the node stored under the key, and fails exactly when there is none. */
  lemma FindCorrect<N, K(!new)>(cmp: (K, K) -> int, t: Tree<N, K>, k: K)
    requires TotalOrder(cmp) && Sorted(cmp, t)
    ensures forall i :: 0 <= i < |InOrder(t)| && InOrder(t)[i].1 == k ==> Find(cmp, t, k) == Some(InOrder(t)[i].0)
    ensures Find(cmp, t, k).Some? ==> (Find(cmp, t, k).value, k) in InOrder(t)
  {
    var (q, u) := Seek(cmp, Top, t, k);
    assert Plug(q, u) == t;
    SeekBetween(cmp, Top, t, k);
    if u.Branch? {
      InOrderAround(q, u);
      FoundKey(cmp, Before(q) + InOrder(u.left), (u.id, k), InOrder(u.right) + After(q));
    } else {
      InOrderEmpty(q);
      AbsentKey(cmp, Before(q), After(q), k);
    }
  }

  /** In a sorted sequence a key occurs at one place only. */
  lemma FoundKey<N, K(!new)>(cmp: (K, K) -> int, a: seq<(N, K)>, e: (N, K), b: seq<(N, K)>)
    requires TotalOrder(cmp) && Increasing(cmp, Keys(a + [e] + b))
    ensures e in a + [e] + b
    ensures forall i :: 0 <= i < |a + [e] + b| && (a + [e] + b)[i].1 == e.1 ==> (a + [e] + b)[i] == e
  {
    var s := a + [e] + b;
    assert s[|a|] == e;
    forall i | 0 <= i < |s| && s[i].1 == e.1
      ensures i == |a|
    {
      assert Compares(cmp, e.1, e.1);
      assert Keys(s)[i] == e.1 && Keys(s)[|a|] == e.1;
    }
  }

  lemma AbsentKey<N, K(!new)>(cmp: (K, K) -> int, a: seq<(N, K)>, b: seq<(N, K)>, k: K)
    requires TotalOrder(cmp) && AllBelow(cmp, Keys(a), k) && AllAbove(cmp, Keys(b), k)
    ensures forall i :: 0 <= i < |a + b| ==> (a + b)[i].1 != k
  {
    forall i | 0 <= i < |a + b|
      ensures (a + b)[i].1 != k
    {
      assert Compares(cmp, k, k);
      if i < |a| {
        assert cmp(Keys(a)[i], k) < 0;
      } else {
        assert cmp(k, Keys(b)[i - |a|]) < 0;
      }
    }
  }

  // ----- Insert -----

  /** The tree after inserting node `n` under key `k`; a duplicate key changes nothing. */
  function Insert<N, K>(cmp: (K, K) -> int, t: Tree<N, K>, n: N, k: K): Tree<N, K> {
    var (p, u) := Seek(cmp, Top, t, k);
    if u.Branch? then t else InsertFix(p, Branch(Leaf, n, k, Red, Leaf))
  }

  lemma InsertOrder<N, K>(cmp: (K, K) -> int, t: Tree<N, K>, n: N, k: K)
    returns (a: seq<(N, K)>, b: seq<(N, K)>)
    requires Find(cmp, t, k).None?
    ensures a == Before(Seek(cmp, Top, t, k).0) && b == After(Seek(cmp, Top, t, k).0)
    ensures InOrder(t) == a + b
    ensures InOrder(Insert(cmp, t, n, k)) == a + [(n, k)] + b
  {
    var p := Seek(cmp, Top, t, k).0;
    a, b := Before(p), After(p);
    InOrderEmpty(p);
    InOrderPlug(p, Branch(Leaf, n, k, Red, Leaf));
    InsertFixKeepsOrder(p, Branch(Leaf, n, k, Red, Leaf));
  }

  lemma InsertRedBlack<N, K>(cmp: (K, K) -> int, t: Tree<N, K>, n: N, k: K)
    requires RedBlack(t)
    ensures RedBlack(Insert(cmp, t, n, k))
  {
    var (p, u) := Seek(cmp, Top, t, k);
    if u.Leaf? {
      var h := UnplugRB(p, u);
      InsertFixRedBlack(p, Branch(Leaf, n, k, Red, Leaf), h);
    }
  }

  /** A duplicate key leaves the tree as it was. */
  lemma InsertDuplicate<N, K(!new)>(cmp: (K, K) -> int, t: Tree<N, K>, n: N, k: K, i: nat)
    requires TotalOrder(cmp) && Sorted(cmp, t)
    requires i < |InOrder(t)| && InOrder(t)[i].1 == k
    ensures Insert(cmp, t, n, k) == t
  {
    FindCorrect(cmp, t, k);
  }

  /** Inserting a new key keeps every invariant and adds exactly that node at its sorted place. */
  lemma InsertCorrect<N, K(!new)>(cmp: (K, K) -> int, t: Tree<N, K>, n: N, k: K)
    returns (a: seq<(N, K)>, b: seq<(N, K)>)
    requires TotalOrder(cmp) && Good(cmp, t) && n !in Bag(t)
    requires Find(cmp, t, k).None?
    ensures Good(cmp, Insert(cmp, t, n, k))
    ensures InOrder(t) == a + b && InOrder(Insert(cmp, t, n, k)) == a + [(n, k)] + b
    ensures AllBelow(cmp, Keys(a), k) && AllAbove(cmp, Keys(b), k)
    ensures Bag(Insert(cmp, t, n, k)) == Bag(t) + multiset{n}
  {
    a, b := InsertOrder(cmp, t, n, k);
    SeekBetween(cmp, Top, t, k);
    InsertRedBlack(cmp, t, n, k);
    AddedEntry(cmp, a, (n, k), b);
    BagInOrder(t);
    BagInOrder(Insert(cmp, t, n, k));
  }

  lemma AddedEntry<N, K(!new)>(cmp: (K, K) -> int, a: seq<(N, K)>, e: (N, K), b: seq<(N, K)>)
    requires TotalOrder(cmp) && Increasing(cmp, Keys(a + b))
    requires AllBelow(cmp, Keys(a), e.1) && AllAbove(cmp, Keys(b), e.1)
    ensures Increasing(cmp, Keys(a + [e] + b))
    ensures multiset(Ids(a + [e] + b)) == multiset(Ids(a + b)) + multiset{e.0}
  {
    ConcatIds(a, e, b);
    assert Ids(a + b) == Ids(a) + Ids(b);
    assert Keys(a + b) == Keys(a) + Keys(b);
    SplitIncreasing(cmp, Keys(a), Keys(b));
    IncreasingJoin(cmp, Keys(a), e.1, Keys(b));
  }

  lemma SplitIncreasing<K>(cmp: (K, K) -> int, a: seq<K>, b: seq<K>)
    requires Increasing(cmp, a + b)
    ensures Increasing(cmp, a) && Increasing(cmp, b)
  {
    assert forall i :: 0 <= i < |a| ==> (a + b)[i] == a[i];
    assert forall i :: 0 <= i < |b| ==> (a + b)[|a| + i] == b[i];
  }

  // ----- Remove -----

  /** The position of node `n`. */
  ghost function Locate<N, K>(p: Path<N, K>, t: Tree<N, K>, n: N): (r: (Path<N, K>, Tree<N, K>))
    requires n in Bag(t)
    ensures Plug(r.0, r.1) == Plug(p, t)
    ensures r.1.Branch? && r.1.id == n
    decreases t
  {
    if n == t.id then (p, t)
    else if n in Bag(t.left) then Locate(Step(true, p, t.id, t.key, t.color, t.right), t.left, n)
    else Locate(Step(false, p, t.id, t.key, t.color, t.left), t.right, n)
  }

  /** The position of the first node, in order, of a subtree. */
  function Leftmost<N, K>(p: Path<N, K>, t: Tree<N, K>): (r: (Path<N, K>, Tree<N, K>))
    requires t.Branch?
    ensures Plug(r.0, r.1) == Plug(p, t)
    ensures r.1.Branch? && r.1.left.Leaf?
    ensures Before(r.0) == Before(p)
    decreases t
  {
    if t.left.Leaf? then (p, t) else Leftmost(Step(true, p, t.id, t.key, t.color, t.right), t.left)
  }

  lemma {:induction false} LeftmostSame<N, K>(p: Path<N, K>, q: Path<N, K>, t: Tree<N, K>)
    requires t.Branch?
    ensures Leftmost(p, t).1 == Leftmost(q, t).1
    decreases t
  {
    if t.left.Branch? {
      LeftmostSame(Step(true, p, t.id, t.key, t.color, t.right), Step(true, q, t.id, t.key, t.color, t.right), t.left);
    }
  }

  /** Take out the node `y`, which has at most one child, and rebalance if it was black. */
  function Splice<N, K>(p: Path<N, K>, y: Tree<N, K>): Tree<N, K>
    requires y.Branch?
  {
    if y.color.Black? then RemoveFix(p, OnlyChild(y)) else Plug(p, OnlyChild(y))
  }

  /** The path below `u`'s right child, once the successor's node stands in for `u`'s. */
  function StandIn<N, K>(p: Path<N, K>, u: Tree<N, K>): Path<N, K>
    requires u.Branch? && u.right.Branch?
  {
    var y := Leftmost(Top, u.right).1;
    Step(false, p, y.id, y.key, u.color, u.left)
  }

  function RemoveAt<N, K>(p: Path<N, K>, u: Tree<N, K>): Tree<N, K>
    requires u.Branch?
  {
    if u.left.Leaf? || u.right.Leaf? then Splice(p, u)
    else
      var (q, y) := Leftmost(StandIn(p, u), u.right);
      Splice(q, y)
  }

  ghost function Remove<N, K>(t: Tree<N, K>, n: N): Tree<N, K>
    requires n in Bag(t)
  {
    var (p, u) := Locate(Top, t, n);
    RemoveAt(p, u)
  }

  lemma SpliceOrder<N, K>(p: Path<N, K>, y: Tree<N, K>)
    requires y.Branch? && (y.left.Leaf? || y.right.Leaf?)
    ensures InOrder(Splice(p, y)) == Before(p) + InOrder(y.left) + InOrder(y.right) + After(p)
    ensures y.left.Leaf? ==> InOrder(Splice(p, y)) == Before(p) + InOrder(y.right) + After(p)
  {
    RemoveFixKeepsOrder(p, OnlyChild(y));
    InOrderPlug(p, OnlyChild(y));
  }

  /** Taking out a black node leaves its place one black short. */
  lemma SpliceInv<N, K>(p: Path<N, K>, y: Tree<N, K>) returns (h: nat)
    requires y.Branch? && y.color.Black? && (y.left.Leaf? || y.right.Leaf?)
    requires RedBlack(Plug(p, y))
    ensures RemoveInv(p, OnlyChild(y), h)
  {
    var g := UnplugRB(p, y);
    h := g - 1;
  }

  lemma SpliceRedBlack<N, K>(p: Path<N, K>, y: Tree<N, K>)
    requires y.Branch? && (y.left.Leaf? || y.right.Leaf?)
    requires RedBlack(Plug(p, y))
    ensures RedBlack(Splice(p, y))
  {
    if y.color.Black? {
      var h := SpliceInv(p, y);
      RemoveFixRedBlack(p, OnlyChild(y), h);
    } else {
      var h := UnplugRB(p, y);
      PlugRB(p, OnlyChild(y), h);
    }
  }

  /** From the first node of a subtree on, the in-order sequence goes on through its path. */
  lemma {:induction false} LeftmostOrder<N, K>(p: Path<N, K>, t: Tree<N, K>)
    requires t.Branch?
    ensures var (q, y) := Leftmost(p, t);
            InOrder(t) + After(p) == [(y.id, y.key)] + (InOrder(y.right) + After(q))
    decreases t
  {
    if t.left.Leaf? {
      Assoc([(t.id, t.key)], InOrder(t.right), After(p));
      assert InOrder(t) == [(t.id, t.key)] + InOrder(t.right);
    } else {
      LeftmostOrder(Step(true, p, t.id, t.key, t.color, t.right), t.left);
      Assoc(InOrder(t.left) + [(t.id, t.key)], InOrder(t.right), After(p));
      Assoc(InOrder(t.left), [(t.id, t.key)], InOrder(t.right) + After(p));
    }
  }

  /** Removing the root entry of the subtree at `p` drops exactly that entry. */
  lemma RemoveAtOrder<N, K>(p: Path<N, K>, u: Tree<N, K>)
    requires u.Branch?
    ensures InOrder(RemoveAt(p, u)) == (Before(p) + InOrder(u.left)) + (InOrder(u.right) + After(p))
  {
    var c := Before(p) + InOrder(u.left);
    if u.left.Leaf? || u.right.Leaf? {
      SpliceOrder(p, u);
      Assoc(c, InOrder(u.right), After(p));
    } else {
      var s := StandIn(p, u);
      var (q, y) := Leftmost(s, u.right);
      LeftmostSame(s, Top, u.right);
      SpliceOrder(q, y);
      LeftmostOrder(s, u.right);
      var e := (y.id, y.key);
      assert InOrder(RemoveAt(p, u)) == (c + [e]) + InOrder(y.right) + After(q);
      Assoc(c + [e], InOrder(y.right), After(q));
      Assoc(c, [e], InOrder(y.right) + After(q));
    }
  }

  lemma RemoveAtRedBlack<N, K>(p: Path<N, K>, u: Tree<N, K>)
    requires u.Branch? && RedBlack(Plug(p, u))
    ensures RedBlack(RemoveAt(p, u))
  {
    if u.left.Leaf? || u.right.Leaf? {
      SpliceRedBlack(p, u);
    } else {
      var s := StandIn(p, u);
      var (q, y) := Leftmost(s, u.right);
      var h := UnplugRB(p, u);
      PlugRB(p, Join(false, u.right, s.node, s.key, u.color, u.left), h);
      SpliceRedBlack(q, y);
    }
  }

  lemma RemoveOrder<N, K>(t: Tree<N, K>, n: N) returns (a: seq<(N, K)>, e: (N, K), b: seq<(N, K)>)
    requires n in Bag(t)
    ensures InOrder(t) == a + [e] + b && e.0 == n
    ensures InOrder(Remove(t, n)) == a + b
  {
    var (p, u) := Locate(Top, t, n);
    RemoveAtOrder(p, u);
    InOrderAround(p, u);
    a, e, b := Before(p) + InOrder(u.left), (u.id, u.key), InOrder(u.right) + After(p);
  }

  /**
   * Removing any member keeps every invariant and leaves the in-order sequence
   * minus exactly that node.
   */
  lemma RemoveCorrect<N, K(!new)>(cmp: (K, K) -> int, t: Tree<N, K>, n: N)
    returns (a: seq<(N, K)>, e: (N, K), b: seq<(N, K)>)
    requires Good(cmp, t) && n in Bag(t)
    ensures Good(cmp, Remove(t, n))
    ensures InOrder(t) == a + [e] + b && e.0 == n
    ensures InOrder(Remove(t, n)) == a + b
    ensures Bag(Remove(t, n)) == Bag(t) - multiset{n}
  {
    a, e, b := RemoveOrder(t, n);
    RemoveAtRedBlack(Locate(Top, t, n).0, Locate(Top, t, n).1);
    DroppedEntry(cmp, a, e, b);
    BagInOrder(t);
    BagInOrder(Remove(t, n));
  }

  lemma DroppedEntry<N, K(!new)>(cmp: (K, K) -> int, a: seq<(N, K)>, e: (N, K), b: seq<(N, K)>)
    requires Increasing(cmp, Keys(a + [e] + b))
    ensures Increasing(cmp, Keys(a + b))
    ensures multiset(Ids(a + b)) == multiset(Ids(a + [e] + b)) - multiset{e.0}
  {
    ConcatIds(a, e, b);
    assert Ids(a + b) == Ids(a) + Ids(b);
    var s, t := Keys(a + [e] + b), Keys(a + b);
    assert forall i :: 0 <= i < |t| ==> t[i] == s[if i < |a| then i else i + 1];
  }

  // ----- Height -----

  function Height<N, K>(t: Tree<N, K>): nat {
    if t.Leaf? then 0 else 1 + if Height(t.left) < Height(t.right) then Height(t.right) else Height(t.left)
  }

  lemma {:induction false} PowAdd(m: nat, n: nat)
    ensures Pow2(m + n) == Pow2(m) * Pow2(n)
  {
    if m > 0 {
      PowAdd(m - 1, n);
      assert Pow2(m + n) == 2 * Pow2(m - 1 + n);
    }
  }

  lemma {:induction false} BlackHeight<N, K>(t: Tree<N, K>, h: nat)
    requires RB(t, h)
    ensures Height(t) <= if IsRed(t) then 2 * h + 1 else 2 * h
    ensures Pow2(h) <= |InOrder(t)| + 1
  {
    match t
    case Leaf =>
    case Branch(l, _, _, c, r) =>
      var g := if c.Red? then h else h - 1;
      BlackHeight(l, g);
      BlackHeight(r, g);
  }

  /** A red-black tree of n nodes has height at most 2 * log2(n + 1). */
  lemma HeightBound<N, K>(t: Tree<N, K>)
    requires RedBlack(t)
    ensures Pow2(Height(t)) <= (|InOrder(t)| + 1) * (|InOrder(t)| + 1)
  {
    var h: nat :| RB(t, h);
    BlackHeight(t, h);
    PowLe(Height(t), h + h);
    PowAdd(h, h);
    Square(Pow2(h), |InOrder(t)| + 1);
  }

  /** At most twice the binary logarithm of n + 1, rounded down. */
  ghost predicate TwiceLog(steps: nat, n: nat) {
    exists h: nat :: steps <= 2 * h && Pow2(h) <= n + 1
  }

  /** A descent from the root takes at most 2 * log2(n + 1) steps. */
  lemma StepBound<N, K>(t: Tree<N, K>, steps: nat)
    requires RedBlack(t) && steps <= Height(t)
    ensures TwiceLog(steps, |InOrder(t)|)
  {
    var h: nat :| RB(t, h);
    BlackHeight(t, h);
  }

  lemma Square(m: nat, n: nat)
    requires m <= n
    ensures m * m <= n * n
  {
    assert n * n - m * m == (n - m) * (n + m);
  }

  // ----- Runs -----

  /** One call of the interface; the node of an insert must be outside the tree, a removed one in it. */
  datatype Op<N, K> = DoInsert(node: N, key: K) | DoRemove(node: N)

  ghost predicate Enabled<N, K>(t: Tree<N, K>, op: Op<N, K>) {
    match op
    case DoInsert(n, _) => n !in Bag(t)
    case DoRemove(n) => n in Bag(t)
  }

  ghost function Apply<N, K>(cmp: (K, K) -> int, t: Tree<N, K>, op: Op<N, K>): Tree<N, K>
    requires Enabled(t, op)
  {
    match op
    case DoInsert(n, k) => Insert(cmp, t, n, k)
    case DoRemove(n) => Remove(t, n)
  }

  /** The same call on a finite map from keys to live nodes. */
  ghost function ApplyMap<N, K>(m: map<K, N>, op: Op<N, K>): map<K, N> {
    match op
    case DoInsert(n, k) => if k in m then m else m[k := n]
    case DoRemove(n) => map k | k in m && m[k] != n :: m[k]
  }

  /** Every call of `run`, in order and starting from the empty tree, is allowed. */
  ghost predicate Legal<N, K>(cmp: (K, K) -> int, run: seq<Op<N, K>>)
    decreases |run|, 0
  {
    run == [] || (Legal(cmp, run[..|run| - 1]) && Enabled(TreeOf(cmp, run[..|run| - 1]), run[|run| - 1]))
  }

  ghost function TreeOf<N, K>(cmp: (K, K) -> int, run: seq<Op<N, K>>): Tree<N, K>
    requires Legal(cmp, run)
    decreases |run|, 1
  {
    if run == [] then Leaf else Apply(cmp, TreeOf(cmp, run[..|run| - 1]), run[|run| - 1])
  }

  ghost function MapOf<N, K>(run: seq<Op<N, K>>): map<K, N>
    decreases |run|
  {
    if run == [] then map[] else ApplyMap(MapOf(run[..|run| - 1]), run[|run| - 1])
  }

  /** The entries are exactly the map's. */
  ghost predicate Agrees<N, K(!new)>(s: seq<(N, K)>, m: map<K, N>) {
    && (forall i :: 0 <= i < |s| ==> s[i].1 in m && m[s[i].1] == s[i].0)
    && (forall k :: k in m ==> (m[k], k) in s)
  }

  lemma AddAgrees<N, K(!new)>(a: seq<(N, K)>, n: N, k: K, b: seq<(N, K)>, m: map<K, N>)
    requires Agrees(a + b, m) && k !in m
    ensures Agrees(a + [(n, k)] + b, m[k := n])
  {
    var s, u := a + b, a + [(n, k)] + b;
    assert forall i :: 0 <= i < |u| && i != |a| ==> u[i] == s[if i < |a| then i else i - 1];
    forall j | j in m
      ensures (m[j], j) in u
    {
      var i :| 0 <= i < |s| && s[i] == (m[j], j);
      assert u[if i < |a| then i else i + 1] == s[i];
    }
    assert u[|a|] == (n, k);
  }

  lemma DropAgrees<N, K(!new)>(a: seq<(N, K)>, e: (N, K), b: seq<(N, K)>, m: map<K, N>)
    requires Agrees(a + [e] + b, m)
    requires forall i :: 0 <= i < |a + b| ==> (a + b)[i].0 != e.0
    ensures Agrees(a + b, ApplyMap(m, DoRemove(e.0)))
  {
    var s, u := a + b, a + [e] + b;
    assert forall i :: 0 <= i < |s| ==> s[i] == u[if i < |a| then i else i + 1];
    forall j | j in m && m[j] != e.0
      ensures (m[j], j) in s
    {
      var i :| 0 <= i < |u| && u[i] == (m[j], j);
      assert u[i] == s[if i < |a| then i else i - 1];
    }
  }

  lemma InsertAgrees<N, K(!new)>(cmp: (K, K) -> int, t: Tree<N, K>, m: map<K, N>, n: N, k: K)
    requires TotalOrder(cmp) && Good(cmp, t) && Agrees(InOrder(t), m)
    ensures Agrees(InOrder(Insert(cmp, t, n, k)), ApplyMap(m, DoInsert(n, k)))
  {
    FindAgrees(cmp, t, m, k);
    if Find(cmp, t, k).None? {
      var a, b := InsertOrder(cmp, t, n, k);
      AddAgrees(a, n, k, b, m);
    }
  }

  lemma RemoveAgrees<N, K(!new)>(t: Tree<N, K>, m: map<K, N>, n: N)
    requires NoDup(Bag(t)) && n in Bag(t) && Agrees(InOrder(t), m)
    ensures Agrees(InOrder(Remove(t, n)), ApplyMap(m, DoRemove(n)))
  {
    var a, e, b := RemoveOrder(t, n);
    BagInOrder(t);
    OthersDiffer(a, e, b);
    DropAgrees(a, e, b, m);
  }

  lemma OthersDiffer<N, K>(a: seq<(N, K)>, e: (N, K), b: seq<(N, K)>)
    requires NoDup(multiset(Ids(a + [e] + b)))
    ensures forall i :: 0 <= i < |a + b| ==> (a + b)[i].0 != e.0
  {
    ConcatIds(a, e, b);
    var m := multiset(Ids(a)) + multiset{e.0} + multiset(Ids(b));
    assert m[e.0] == 1;
    assert e.0 !in multiset(Ids(a)) && e.0 !in multiset(Ids(b));
    forall i | 0 <= i < |a + b|
      ensures (a + b)[i].0 != e.0
    {
      assert if i < |a| then (a + b)[i].0 == Ids(a)[i] else (a + b)[i].0 == Ids(b)[i - |a|];
    }
  }

  lemma FindAgrees<N, K(!new)>(cmp: (K, K) -> int, t: Tree<N, K>, m: map<K, N>, k: K)
    requires TotalOrder(cmp) && Sorted(cmp, t) && Agrees(InOrder(t), m)
    ensures Find(cmp, t, k) == if k in m then Some(m[k]) else None
  {
    FindCorrect(cmp, t, k);
    if k in m {
      var i :| 0 <= i < |InOrder(t)| && InOrder(t)[i] == (m[k], k);
    }
  }

  /** Over every run the invariants hold and the tree holds exactly the map's entries. */
  lemma {:induction false} EveryRun<N, K(!new)>(cmp: (K, K) -> int, run: seq<Op<N, K>>)
    requires TotalOrder(cmp) && Legal(cmp, run)
    ensures Good(cmp, TreeOf(cmp, run)) && Agrees(InOrder(TreeOf(cmp, run)), MapOf(run))
    decreases |run|
  {
    var t := TreeOf(cmp, run);
    if run == [] {
      assert RB(t, 0);
    } else {
      var front, op := run[..|run| - 1], run[|run| - 1];
      var s := TreeOf(cmp, front);
      EveryRun(cmp, front);
      match op
      case DoInsert(n, k) =>
        if Find(cmp, s, k).None? {
          var _, _ := InsertCorrect(cmp, s, n, k);
        }
        InsertAgrees(cmp, s, MapOf(front), n, k);
      case DoRemove(n) =>
        var _, _, _ := RemoveCorrect(cmp, s, n);
        RemoveAgrees(s, MapOf(front), n);
    }
  }

  /** Over every run a search agrees with the finite map of live nodes. */
  lemma EveryRunFinds<N, K(!new)>(cmp: (K, K) -> int, run: seq<Op<N, K>>, k: K)
    requires TotalOrder(cmp) && Legal(cmp, run)
    ensures Find(cmp, TreeOf(cmp, run), k) == if k in MapOf(run) then Some(MapOf(run)[k]) else None
  {
    EveryRun(cmp, run);
    FindAgrees(cmp, TreeOf(cmp, run), MapOf(run), k);
  }
}

/**
 * Red-black trees as values: the tree itself, a path (zipper) from a position up to the root,
 * and the functions that insertion and removal compute.  A position in the middle of a
 * rebalancing loop is a pair of a path and the subtree hanging from it.  Left and right are
 * symmetric: a step records on which side of its node the hole is.
 */
module RbSpec {

  datatype Color = Red | Black

  datatype Tree<N, K> =
    | Leaf
    | Branch(left: Tree<N, K>, id: N, key: K, color: Color, right: Tree<N, K>)

  /** The way from a hole up to the root; `sib` is the subtree on the other side of `node`. */
  datatype Path<N, K> =
    | Top
    | Step(isLeft: bool, up: Path<N, K>, node: N, key: K, color: Color, sib: Tree<N, K>)

  // ----- Shape -----

  function Join<N, K>(isLeft: bool, t: Tree<N, K>, n: N, k: K, c: Color, sib: Tree<N, K>): Tree<N, K> {
    if isLeft then Branch(t, n, k, c, sib) else Branch(sib, n, k, c, t)
  }

  function Child<N, K>(t: Tree<N, K>, isLeft: bool): Tree<N, K>
    requires t.Branch?
  {
    if isLeft then t.left else t.right
  }

  function Plug<N, K>(p: Path<N, K>, t: Tree<N, K>): Tree<N, K>
    decreases p
  {
    match p
    case Top => t
    case Step(l, up, n, k, c, sib) => Plug(up, Join(l, t, n, k, c, sib))
  }

  function InOrder<N, K>(t: Tree<N, K>): seq<(N, K)> {
    match t
    case Leaf => []
    case Branch(l, n, k, _, r) => InOrder(l) + [(n, k)] + InOrder(r)
  }

  /** What a path contributes before the hole, in order. */
  function Before<N, K>(p: Path<N, K>): seq<(N, K)> {
    match p
    case Top => []
    case Step(l, up, n, k, _, sib) => if l then Before(up) else Before(up) + InOrder(sib) + [(n, k)]
  }

  /** What a path contributes after the hole, in order. */
  function After<N, K>(p: Path<N, K>): seq<(N, K)> {
    match p
    case Top => []
    case Step(l, up, n, k, _, sib) => if l then [(n, k)] + (InOrder(sib) + After(up)) else After(up)
  }

  lemma {:induction false} InOrderPlug<N, K>(p: Path<N, K>, t: Tree<N, K>)
    ensures InOrder(Plug(p, t)) == Before(p) + InOrder(t) + After(p)
    decreases p
  {
    match p
    case Top =>
    case Step(l, up, n, k, c, sib) =>
      InOrderPlug(up, Join(l, t, n, k, c, sib));
  }

  lemma Assoc<X>(a: seq<X>, b: seq<X>, c: seq<X>)
    ensures (a + b) + c == a + (b + c)
  {
  }

  /** The same, around the root entry of the subtree in the hole. */
  lemma InOrderAround<N, K>(p: Path<N, K>, t: Tree<N, K>)
    requires t.Branch?
    ensures InOrder(Plug(p, t)) == (Before(p) + InOrder(t.left)) + [(t.id, t.key)] + (InOrder(t.right) + After(p))
  {
    InOrderPlug(p, t);
    var a, e, b := InOrder(t.left), [(t.id, t.key)], InOrder(t.right);
    Assoc(Before(p), a + e, b);
    Assoc(Before(p), a, e);
    Assoc((Before(p) + a) + e, b, After(p));
  }

  lemma InOrderEmpty<N, K>(p: Path<N, K>)
    ensures InOrder(Plug(p, Leaf)) == Before(p) + After(p)
  {
    InOrderPlug(p, Leaf);
    assert Before(p) + [] == Before(p);
  }

  // ----- Nodes and their distinctness -----

  /** How often each node occurs in the tree. */
  ghost function Bag<N, K>(t: Tree<N, K>): multiset<N> {
    match t
    case Leaf => multiset{}
    case Branch(l, n, _, _, r) => Bag(l) + multiset{n} + Bag(r)
  }

  ghost predicate NoDup<N>(b: multiset<N>) {
    forall n :: n in b ==> b[n] == 1
  }

  function Ids<N, K>(s: seq<(N, K)>): seq<N> {
    seq(|s|, i requires 0 <= i < |s| => s[i].0)
  }

  function Keys<N, K>(s: seq<(N, K)>): seq<K> {
    seq(|s|, i requires 0 <= i < |s| => s[i].1)
  }

  lemma ConcatIds<N, K>(a: seq<(N, K)>, e: (N, K), b: seq<(N, K)>)
    ensures Ids(a + [e] + b) == Ids(a) + [e.0] + Ids(b)
    ensures Keys(a + [e] + b) == Keys(a) + [e.1] + Keys(b)
  {
  }

  lemma {:induction false} BagInOrder<N, K>(t: Tree<N, K>)
    ensures Bag(t) == multiset(Ids(InOrder(t)))
  {
    match t
    case Leaf =>
    case Branch(l, n, k, _, r) =>
      BagInOrder(l);
      BagInOrder(r);
      ConcatIds(InOrder(l), (n, k), InOrder(r));
  }

  // ----- Colours and black height -----

  predicate IsRed<N, K>(t: Tree<N, K>) {
    t.Branch? && t.color.Red?
  }

  function Paint<N, K>(t: Tree<N, K>, c: Color): Tree<N, K> {
    if t.Leaf? then t else t.(color := c)
  }

  /** No red node has a red child, and every way down meets exactly `h` black nodes. */
  ghost predicate RB<N, K>(t: Tree<N, K>, h: nat) {
    match t
    case Leaf => h == 0
    case Branch(l, _, _, Red, r) => !IsRed(l) && !IsRed(r) && RB(l, h) && RB(r, h)
    case Branch(l, _, _, Black, r) => h > 0 && RB(l, h - 1) && RB(r, h - 1)
  }

  /** The whole-tree invariant: a black root over a well-coloured tree of some black height. */
  ghost predicate RedBlack<N, K>(t: Tree<N, K>) {
    !IsRed(t) && exists h: nat :: RB(t, h)
  }

  /** Whether the hole of this path takes only a black subtree: its parent is red, or there is none. */
  predicate NeedsBlack<N, K>(p: Path<N, K>) {
    p.Top? || p.color.Red?
  }

  /** Filling the hole with a black subtree of black height `h` gives a red-black tree. */
  ghost predicate PathRB<N, K>(p: Path<N, K>, h: nat) {
    match p
    case Top => true
    case Step(_, up, _, _, Red, sib) => !NeedsBlack(up) && !IsRed(sib) && RB(sib, h) && PathRB(up, h)
    case Step(_, up, _, _, Black, sib) => RB(sib, h) && PathRB(up, h + 1)
  }

  lemma {:induction false} PlugRB<N, K>(p: Path<N, K>, t: Tree<N, K>, h: nat)
    requires PathRB(p, h) && RB(t, h)
    requires IsRed(t) ==> !NeedsBlack(p)
    ensures RedBlack(Plug(p, t))
    decreases p
  {
    match p
    case Top =>
    case Step(l, up, n, k, c, sib) =>
      PlugRB(up, Join(l, t, n, k, c, sib), if c.Red? then h else h + 1);
  }

  lemma {:induction false} UnplugRB<N, K>(p: Path<N, K>, t: Tree<N, K>) returns (h: nat)
    requires RedBlack(Plug(p, t))
    ensures PathRB(p, h) && RB(t, h)
    ensures IsRed(t) ==> !NeedsBlack(p)
    decreases p
  {
    match p
    case Top =>
      h :| RB(t, h);
    case Step(l, up, n, k, c, sib) =>
      var g := UnplugRB(up, Join(l, t, n, k, c, sib));
      h := if c.Red? then g else g - 1;
  }

  // ----- Searching -----

  /** A comparison and its mirror image agree, and only equal keys compare equal. */
  ghost predicate Compares<K>(cmp: (K, K) -> int, a: K, b: K) {
    (cmp(a, b) == 0 <==> a == b) && (cmp(a, b) < 0 <==> cmp(b, a) > 0)
  }

  ghost predicate Chains<K>(cmp: (K, K) -> int, a: K, b: K, c: K) {
    cmp(a, b) < 0 && cmp(b, c) < 0 ==> cmp(a, c) < 0
  }

  /** A three-way comparison that is a strict total order, as the comparator's contract asks. */
  ghost predicate TotalOrder<K(!new)>(cmp: (K, K) -> int) {
    (forall a, b :: Compares(cmp, a, b)) && (forall a, b, c :: Chains(cmp, a, b, c))
  }

  ghost predicate Increasing<K>(cmp: (K, K) -> int, s: seq<K>) {
    forall i, j :: 0 <= i < j < |s| ==> cmp(s[i], s[j]) < 0
  }

  ghost predicate Sorted<N, K>(cmp: (K, K) -> int, t: Tree<N, K>) {
    Increasing(cmp, Keys(InOrder(t)))
  }

  /** Where the descent for `k` ends: at the subtree whose root has that key, or at a Leaf. */
  function Seek<N, K>(cmp: (K, K) -> int, p: Path<N, K>, t: Tree<N, K>, k: K): (r: (Path<N, K>, Tree<N, K>))
    ensures Plug(r.0, r.1) == Plug(p, t)
    decreases t
  {
    match t
    case Leaf => (p, t)
    case Branch(l, n, kn, c, r) =>
      if cmp(k, kn) == 0 then (p, t)
      else if cmp(k, kn) < 0 then Seek(cmp, Step(true, p, n, kn, c, r), l, k)
      else Seek(cmp, Step(false, p, n, kn, c, l), r, k)
  }

  /** Every key of `s` is below `k`. */
  ghost predicate AllBelow<K>(cmp: (K, K) -> int, s: seq<K>, k: K) {
    forall i :: 0 <= i < |s| ==> cmp(s[i], k) < 0
  }

  /** Every key of `s` is above `k`. */
  ghost predicate AllAbove<K>(cmp: (K, K) -> int, s: seq<K>, k: K) {
    forall i :: 0 <= i < |s| ==> cmp(k, s[i]) < 0
  }

  lemma IncreasingSplit<K(!new)>(cmp: (K, K) -> int, a: seq<K>, k: K, b: seq<K>)
    requires Increasing(cmp, a + [k] + b)
    ensures Increasing(cmp, a) && Increasing(cmp, b) && AllBelow(cmp, a, k) && AllAbove(cmp, b, k)
  {
    var s := a + [k] + b;
    assert s[|a|] == k;
    assert forall i :: 0 <= i < |a| ==> s[i] == a[i];
    assert forall i :: 0 <= i < |b| ==> s[|a| + 1 + i] == b[i];
  }

  lemma IncreasingJoin<K(!new)>(cmp: (K, K) -> int, a: seq<K>, k: K, b: seq<K>)
    requires TotalOrder(cmp)
    requires Increasing(cmp, a) && Increasing(cmp, b) && AllBelow(cmp, a, k) && AllAbove(cmp, b, k)
    ensures Increasing(cmp, a + [k] + b)
  {
    var s := a + [k] + b;
    forall i, j | 0 <= i < j < |s|
      ensures cmp(s[i], s[j]) < 0
    {
      if i < |a| < j {
        assert Chains(cmp, a[i], k, b[j - |a| - 1]);
      }
    }
  }

  /** Around a subtree of a sorted tree, the keys before and after its root are below and above it. */
  lemma SortedAround<N, K(!new)>(cmp: (K, K) -> int, p: Path<N, K>, t: Tree<N, K>)
    requires t.Branch? && Sorted(cmp, Plug(p, t))
    ensures AllBelow(cmp, Keys(Before(p) + InOrder(t.left)), t.key)
    ensures AllAbove(cmp, Keys(InOrder(t.right) + After(p)), t.key)
  {
    InOrderAround(p, t);
    var a, b := Before(p) + InOrder(t.left), InOrder(t.right) + After(p);
    ConcatIds(a, (t.id, t.key), b);
    IncreasingSplit(cmp, Keys(a), t.key, Keys(b));
  }

  lemma KeysJoin<N, K>(a: seq<(N, K)>, b: seq<(N, K)>)
    ensures Keys(a + b) == Keys(a) + Keys(b)
    ensures |a| == 1 ==> Keys(a) == [a[0].1]
    ensures |b| == 1 ==> Keys(b) == [b[0].1]
  {
  }

  lemma SeekLeft<N, K(!new)>(cmp: (K, K) -> int, p: Path<N, K>, t: Tree<N, K>, k: K)
    requires TotalOrder(cmp)
    requires t.Branch? && Sorted(cmp, Plug(p, t)) && cmp(k, t.key) < 0
    ensures AllAbove(cmp, Keys(After(Step(true, p, t.id, t.key, t.color, t.right))), k)
  {
    SortedAround(cmp, p, t);
    var b := InOrder(t.right) + After(p);
    AboveThrough(cmp, k, t.key, Keys(b));
    KeysJoin([(t.id, t.key)], b);
  }

  lemma SeekRight<N, K(!new)>(cmp: (K, K) -> int, p: Path<N, K>, t: Tree<N, K>, k: K)
    requires TotalOrder(cmp)
    requires t.Branch? && Sorted(cmp, Plug(p, t)) && cmp(k, t.key) > 0
    ensures AllBelow(cmp, Keys(Before(Step(false, p, t.id, t.key, t.color, t.left))), k)
  {
    SortedAround(cmp, p, t);
    var a := Before(p) + InOrder(t.left);
    assert Compares(cmp, k, t.key) && Compares(cmp, t.key, k);
    BelowThrough(cmp, k, t.key, Keys(a));
    KeysJoin(a, [(t.id, t.key)]);
  }

  /** The descent ends between the smaller and the greater keys. */
  lemma {:induction false} SeekBetween<N, K(!new)>(cmp: (K, K) -> int, p: Path<N, K>, t: Tree<N, K>, k: K)
    requires TotalOrder(cmp)
    requires Sorted(cmp, Plug(p, t))
    requires AllBelow(cmp, Keys(Before(p)), k) && AllAbove(cmp, Keys(After(p)), k)
    ensures var (q, u) := Seek(cmp, p, t, k);
            && AllBelow(cmp, Keys(Before(q)), k) && AllAbove(cmp, Keys(After(q)), k)
            && (u.Branch? ==> u.key == k)
    decreases t
  {
    match t
    case Leaf =>
    case Branch(l, n, kn, c, r) =>
      assert Compares(cmp, k, kn);
      if cmp(k, kn) < 0 {
        SeekLeft(cmp, p, t, k);
        SeekBetween(cmp, Step(true, p, n, kn, c, r), l, k);
      } else if cmp(k, kn) > 0 {
        SeekRight(cmp, p, t, k);
        SeekBetween(cmp, Step(false, p, n, kn, c, l), r, k);
      }
  }

  lemma AboveThrough<K(!new)>(cmp: (K, K) -> int, k: K, m: K, b: seq<K>)
    requires TotalOrder(cmp) && cmp(k, m) < 0 && AllAbove(cmp, b, m)
    ensures AllAbove(cmp, [m] + b, k)
  {
    forall i | 0 < i < |[m] + b|
      ensures cmp(k, ([m] + b)[i]) < 0
    {
      assert Chains(cmp, k, m, b[i - 1]);
    }
  }

  lemma BelowThrough<K(!new)>(cmp: (K, K) -> int, k: K, m: K, a: seq<K>)
    requires TotalOrder(cmp) && cmp(m, k) < 0 && AllBelow(cmp, a, m)
    ensures AllBelow(cmp, a + [m], k)
  {
    forall i | 0 <= i < |a|
      ensures cmp((a + [m])[i], k) < 0
    {
      assert Chains(cmp, a[i], m, k);
    }
  }
}

/**
 * When the fields of the nodes spell out a tree.  A snapshot maps every node to the contents of
 * its fields; the lemmas say how a tree reads off a snapshot after a few fields have changed.
 */
module RbLinks {
  import opened RbSpec
  import opened RbOps
  import opened RbTheorems

  class Node {
    var left: Node?
    var right: Node?
    var parent: Node?
    var key: int
    var color: Color

    constructor (k: int)
      ensures left == null && right == null && parent == null
    {
      left, right, parent, key, color := null, null, null, k, Black;
    }
  }

  datatype Cell = Cell(left: Node?, right: Node?, parent: Node?, key: int, color: Color)

  type Shape = Tree<Node, int>
  type Place = Path<Node, int>
  type Memory = map<Node, Cell>

  ghost function Snap(s: set<Node>): Memory
    reads s
  {
    map n | n in s :: Cell(n.left, n.right, n.parent, n.key, n.color)
  }

  // ----- Nodes -----

  ghost function Nodes(t: Shape): set<Node> {
    if t.Leaf? then {} else Nodes(t.left) + {t.id} + Nodes(t.right)
  }

  ghost function PathNodes(p: Place): set<Node> {
    if p.Top? then {} else PathNodes(p.up) + {p.node} + Nodes(p.sib)
  }

  /** No node occurs twice. */
  ghost predicate Separate(t: Shape) {
    t.Branch? ==>
      && Separate(t.left) && Separate(t.right)
      && t.id !in Nodes(t.left) && t.id !in Nodes(t.right) && Nodes(t.left) !! Nodes(t.right)
  }

  ghost predicate PathSeparate(p: Place) {
    p.Step? ==>
      && PathSeparate(p.up) && Separate(p.sib)
      && p.node !in PathNodes(p.up) && p.node !in Nodes(p.sib) && PathNodes(p.up) !! Nodes(p.sib)
  }

  // ----- Links -----

  ghost function Root(t: Shape): Node? {
    if t.Leaf? then null else t.id
  }

  ghost function Above(p: Place): Node? {
    if p.Top? then null else p.node
  }

  /** The fields spell out `t`, hanging from `parent`. */
  ghost predicate Linked(m: Memory, t: Shape, parent: Node?) {
    t.Branch? ==>
      && t.id in m && m[t.id] == Cell(Root(t.left), Root(t.right), parent, t.key, t.color)
      && Linked(m, t.left, t.id) && Linked(m, t.right, t.id)
  }

  ghost function StepCell(p: Place, x: Node?): Cell
    requires p.Step?
  {
    if p.isLeft then Cell(x, Root(p.sib), Above(p.up), p.key, p.color)
    else Cell(Root(p.sib), x, Above(p.up), p.key, p.color)
  }

  /** The fields spell out the path `p` from its hole, filled by `x`, up to `root`. */
  ghost predicate LinkedPath(m: Memory, root: Node?, p: Place, x: Node?)
    decreases p
  {
    if p.Top? then root == x
    else
      && p.node in m && m[p.node] == StepCell(p, x)
      && Linked(m, p.sib, p.node) && LinkedPath(m, root, p.up, p.node)
  }

  /** The fields spell out `t` hanging from the hole of `p`, no node occurring twice. */
  ghost predicate Focus(m: Memory, root: Node?, p: Place, t: Shape) {
    && PathSeparate(p) && Separate(t) && PathNodes(p) !! Nodes(t)
    && LinkedPath(m, root, p, Root(t)) && Linked(m, t, Above(p))
  }

  // ----- What a change leaves alone -----

  ghost predicate SameOutside(m: Memory, m': Memory, d: set<Node>) {
    forall n :: n in m && n !in d ==> n in m' && m'[n] == m[n]
  }

  lemma {:induction false} LinkedFrame(m: Memory, m': Memory, d: set<Node>, t: Shape, parent: Node?)
    requires SameOutside(m, m', d) && d !! Nodes(t) && Linked(m, t, parent)
    ensures Linked(m', t, parent)
  {
    if t.Branch? {
      LinkedFrame(m, m', d, t.left, t.id);
      LinkedFrame(m, m', d, t.right, t.id);
    }
  }

  lemma {:induction false} LinkedPathFrame(m: Memory, m': Memory, d: set<Node>, root: Node?, p: Place, x: Node?)
    requires SameOutside(m, m', d) && d !! PathNodes(p) && LinkedPath(m, root, p, x)
    ensures LinkedPath(m', root, p, x)
    decreases p
  {
    if p.Step? {
      LinkedFrame(m, m', d, p.sib, p.node);
      LinkedPathFrame(m, m', d, root, p.up, p.node);
    }
  }

  /** Only the parent field of the root changes when a subtree is hung elsewhere. */
  lemma LinkedAdopt(m: Memory, m': Memory, d: set<Node>, t: Shape, parent: Node?, parent': Node?)
    requires Linked(m, t, parent) && Separate(t)
    requires SameOutside(m, m', d) && d * Nodes(t) <= (if t.Leaf? then {} else {t.id})
    requires t.Branch? ==> t.id in m' && m'[t.id] == m[t.id].(parent := parent')
    ensures Linked(m', t, parent')
  {
    if t.Branch? {
      LinkedFrame(m, m', d, t.left, t.id);
      LinkedFrame(m, m', d, t.right, t.id);
    }
  }

  /** Only one field of the last step changes when the hole is filled by another node. */
  lemma LinkedPathRefill(m: Memory, root: Node?, m': Memory, root': Node?, d: set<Node>, p: Place, x: Node?, y: Node?)
    requires LinkedPath(m, root, p, x) && PathSeparate(p)
    requires SameOutside(m, m', d) && d * PathNodes(p) <= (if p.Top? then {} else {p.node})
    requires if p.Top? then root' == y
             else root' == root && p.node in m' &&
                  m'[p.node] == if p.isLeft then m[p.node].(left := y) else m[p.node].(right := y)
    ensures LinkedPath(m', root', p, y)
  {
    if p.Step? {
      LinkedFrame(m, m', d, p.sib, p.node);
      LinkedPathFrame(m, m', d, root, p.up, p.node);
    }
  }

  // ----- Moving the focus -----

  /** The subtree one step up from the hole of `p` when `t` fills it. */
  ghost function Grow(p: Place, t: Shape): Shape
    requires p.Step?
  {
    Join(p.isLeft, t, p.node, p.key, p.color, p.sib)
  }

  lemma FocusUp(m: Memory, root: Node?, p: Place, t: Shape)
    requires p.Step?
    ensures Focus(m, root, p, t) <==> Focus(m, root, p.up, Grow(p, t))
    ensures PathNodes(p) + Nodes(t) == PathNodes(p.up) + Nodes(Grow(p, t))
  {
  }

  /** The other side of the last step. */
  ghost function Across(p: Place, t: Shape): Place
    requires p.Step?
  {
    Step(!p.isLeft, p.up, p.node, p.key, p.color, t)
  }

  lemma FocusAcross(m: Memory, root: Node?, p: Place, t: Shape)
    requires p.Step?
    ensures Focus(m, root, p, t) <==> Focus(m, root, Across(p, t), p.sib)
    ensures PathNodes(p) + Nodes(t) == PathNodes(Across(p, t)) + Nodes(p.sib)
  {
    FocusUp(m, root, p, t);
    FocusUp(m, root, Across(p, t), p.sib);
  }

  /** One step down, to the left or right subtree of `t`. */
  ghost function Down(l: bool, p: Place, t: Shape): Place
    requires t.Branch?
  {
    Step(l, p, t.id, t.key, t.color, Child(t, !l))
  }

  lemma FocusDown(m: Memory, root: Node?, p: Place, t: Shape)
    requires t.Branch? && Focus(m, root, p, t)
    ensures Focus(m, root, Down(true, p, t), t.left) && Focus(m, root, Down(false, p, t), t.right)
    ensures PathNodes(Down(true, p, t)) + Nodes(t.left) == PathNodes(p) + Nodes(t)
    ensures PathNodes(Down(false, p, t)) + Nodes(t.right) == PathNodes(p) + Nodes(t)
    ensures t.id in m && m[t.id] == Cell(Root(t.left), Root(t.right), Above(p), t.key, t.color)
  {
    FocusUp(m, root, Down(true, p, t), t.left);
    FocusUp(m, root, Down(false, p, t), t.right);
  }

  lemma {:induction false} FocusTop(m: Memory, root: Node?, p: Place, t: Shape)
    ensures Focus(m, root, p, t) <==> Focus(m, root, Top, Plug(p, t))
    ensures PathNodes(p) + Nodes(t) == Nodes(Plug(p, t))
    decreases p
  {
    if p.Step? {
      FocusUp(m, root, p, t);
      FocusTop(m, root, p.up, Grow(p, t));
    }
  }

  // ----- Painting -----

  lemma PaintLinks(m: Memory, root: Node?, p: Place, t: Shape, c: Color)
    requires Focus(m, root, p, t) && t.Branch?
    ensures t.id in m && Focus(m[t.id := m[t.id].(color := c)], root, p, Paint(t, c))
  {
    var m' := m[t.id := m[t.id].(color := c)];
    LinkedFrame(m, m', {t.id}, t.left, t.id);
    LinkedFrame(m, m', {t.id}, t.right, t.id);
    LinkedPathFrame(m, m', {t.id}, root, p, t.id);
  }

  // ----- Rotation -----

  /** The subtree after rotating up the child of `t` on the side other than `l`. */
  ghost function RotateUp(l: bool, t: Shape): Shape
    requires t.Branch? && Child(t, !l).Branch?
  {
    var y := Child(t, !l);
    Join(l, Join(l, Child(t, l), t.id, t.key, t.color, Child(y, l)), y.id, y.key, y.color, Child(y, !l))
  }

  ghost function Get(c: Cell, l: bool): Node? {
    if l then c.left else c.right
  }

  ghost function Put(c: Cell, l: bool, x: Node?): Cell {
    if l then c.(left := x) else c.(right := x)
  }

  /** The nodes that rotating at `x` touches are known and all different. */
  ghost predicate CanRotate(m: Memory, l: bool, x: Node) {
    && x in m && var y := Get(m[x], !l);
    && y != null && y != x && y in m && var (b, q) := (Get(m[y], l), m[x].parent);
    && (b != null ==> b in m && b != x && b != y)
    && (q != null ==> q in m && q != x && q != y && q != b)
  }

  /** The change that a rotation at `x` makes to the fields and to the tree's root. */
  ghost predicate RotatesFields(m: Memory, root: Node?, m': Memory, root': Node?, l: bool, x: Node)
    requires CanRotate(m, l, x)
  {
    var y := Get(m[x], !l);
    var b, q := Get(m[y], l), m[x].parent;
    && x in m' && m'[x] == Put(m[x], !l, b).(parent := y)
    && y in m' && m'[y] == Put(m[y], l, x).(parent := q)
    && (b != null ==> b in m' && m'[b] == m[b].(parent := x))
    && (if q == null then root' == y
        else root' == root && q in m' && m'[q] == Put(m[q], m[q].left == x, y))
    && (forall n :: n in m && n != x && n != y && n != b && n != q ==> n in m' && m'[n] == m[n])
  }

  /** In a linked tree, a node with a child on that side can be rotated. */
  lemma RotationSites(m: Memory, root: Node?, l: bool, p: Place, t: Shape)
    requires t.Branch? && Child(t, !l).Branch? && Focus(m, root, p, t)
    ensures CanRotate(m, l, t.id)
    ensures var y := Child(t, !l);
            Get(m[t.id], !l) == y.id && m[t.id].parent == Above(p) && Get(m[y.id], l) == Root(Child(y, l))
    ensures p.Step? ==> (m[p.node].left == t.id <==> p.isLeft)
  {
    var y := Child(t, !l);
    var b := Child(y, l);
    assert Linked(m, y, t.id) && Linked(m, b, y.id) && Separate(y);
    assert b.Branch? ==> b.id in Nodes(b);
    assert Nodes(t) == Nodes(Child(t, l)) + {t.id} + Nodes(y);
    assert y.id in Nodes(y) && (b.Branch? ==> b.id in Nodes(y));
    assert p.Step? ==> p.node in PathNodes(p);
    assert p.Step? && p.sib.Branch? ==> p.sib.id in PathNodes(p);
  }

  /** A rotation of the fields rotates the tree that they spell out. */
  lemma RotateLinks(m: Memory, root: Node?, m': Memory, root': Node?, l: bool, p: Place, t: Shape)
    requires t.Branch? && Child(t, !l).Branch? && Focus(m, root, p, t)
    requires CanRotate(m, l, t.id) && RotatesFields(m, root, m', root', l, t.id)
    ensures Focus(m', root', p, RotateUp(l, t))
  {
    RotationSites(m, root, l, p, t);
    var y := Child(t, !l);
    var a, b, c := Child(t, l), Child(y, l), Child(y, !l);
    var d := {t.id, y.id} + (if b.Leaf? then {} else {b.id}) + (if p.Top? then {} else {p.node});
    assert Linked(m, y, t.id) && Separate(y);
    LinkedFrame(m, m', d, a, t.id);
    LinkedFrame(m, m', d, c, y.id);
    LinkedAdopt(m, m', d, b, y.id, t.id);
    LinkedPathRefill(m, root, m', root', d, p, t.id, y.id);
  }

  // ----- The turns of insertion, step by step -----

  /** Case 2 of insertion: the path to the old parent, once the node is above it ... */
  ghost function Outer(p: Place, t: Shape): Place
    requires p.Step? && p.up.Step? && t.Branch?
  {
    Step(p.up.isLeft, p.up, t.id, t.key, t.color, Child(t, !p.up.isLeft))
  }

  /** ... and the old parent's subtree. */
  ghost function Inner(p: Place, t: Shape): Shape
    requires p.Step? && p.up.Step? && t.Branch?
  {
    Join(p.up.isLeft, p.sib, p.node, p.key, p.color, Child(t, p.up.isLeft))
  }

  /** Case 3 of insertion: the path to the node once its parent is black and above the grandparent. */
  ghost function Turned(p: Place): Place
    requires p.Step? && p.up.Step?
  {
    var g := p.up;
    Step(g.isLeft, g.up, p.node, p.key, Black, Join(g.isLeft, p.sib, g.node, g.key, Red, g.sib))
  }

  /** What the insertion loop's variant counts: the distance to the root while the parent is red. */
  ghost function InsertMeasure(p: Place): nat {
    if p.Step? && p.color.Red? then 1 + Depth(p) else 0
  }

  /** After the turns the loop's invariant holds again, under a black parent. */
  lemma TurnInv(p: Place, t: Shape, h: nat)
    requires InsertInv(p, t, h) && p.Step? && p.color.Red? && p.up.Step? && !IsRed(p.up.sib)
    ensures var (q, u) := if p.isLeft == p.up.isLeft then (p, t) else (Outer(p, t), Inner(p, t));
            && Turned(q).color.Black? && InsertInv(Turned(q), u, h) && InsertFix(Turned(q), u) == InsertFix(p, t)
  {
    assert PathRB(p.up, h);
  }

  lemma InsertDone(p: Place, t: Shape, h: nat)
    requires InsertInv(p, t, h) && p.Step? && p.color.Black?
    ensures InsertFix(p, t) == Plug(p, t)
  {
    PlugRB(p, t, h);
  }

  /** The fields through which the insertion loop finds its way. */
  lemma InsertSites(m: Memory, root: Node?, p: Place, t: Shape)
    requires Focus(m, root, p, t) && t.Branch? && p.Step? && p.up.Step?
    ensures t.id in m && p.node in m && p.up.node in m
    ensures m[t.id].parent == p.node && m[p.node].parent == p.up.node
    ensures (m[p.node].left == t.id <==> p.isLeft) && (m[p.up.node].left == p.node <==> p.up.isLeft)
    ensures Get(m[p.up.node], !p.up.isLeft) == Root(p.up.sib)
    ensures p.up.sib.Branch? ==> p.up.sib.id in m && m[p.up.sib.id].color == p.up.sib.color
  {
    assert LinkedPath(m, root, p.up, p.node);
    assert p.sib.Branch? ==> p.sib.id in PathNodes(p);
    assert p.up.sib.Branch? ==> p.up.sib.id in PathNodes(p.up);
  }

  lemma {:induction false} RootAbove(m: Memory, root: Node?, p: Place, x: Node)
    requires LinkedPath(m, root, p, x)
    ensures root != null && (p.Step? ==> root in PathNodes(p))
    decreases p
  {
    if p.Step? {
      RootAbove(m, root, p.up, p.node);
    }
  }

  // ----- Attaching a new node -----

  /**
   * Hanging a new node in an empty hole gives the tree with that node as a leaf exactly when
   * the node arrived without children: insertion writes its parent and colour, but not those.
   */
  lemma AttachLinks(m: Memory, m': Memory, root: Node?, p: Place, n: Node)
    requires p.Step? && Focus(m, root, p, Leaf) && n !in PathNodes(p)
    requires n in m' && m'[n].parent == p.node && m'[n].color == Red
    requires p.node in m' && m'[p.node] == Put(m[p.node], p.isLeft, n)
    requires SameOutside(m, m', {n, p.node})
    ensures Focus(m', root, p, Branch(Leaf, n, m'[n].key, Red, Leaf)) <==> m'[n].left == null && m'[n].right == null
  {
    LinkedPathRefill(m, root, m', root, {n, p.node}, p, null, n);
    var t: Shape := Branch(Leaf, n, m'[n].key, Red, Leaf);
    assert Linked(m', t, p.node) <==> m'[n] == Cell(null, null, p.node, m'[n].key, Red);
  }

  // ----- The turns of removal, step by step -----

  /** Case 3 of removal: the path once the near nephew stands above the sibling. */
  ghost function NephewUp(p: Place): Place
    requires p.Step? && p.sib.Branch? && Child(p.sib, p.isLeft).Branch?
  {
    var l, w := p.isLeft, p.sib;
    var near := Child(w, l);
    p.(sib := Join(l, Child(near, l), near.id, near.key, Black,
                   Join(l, Child(near, !l), w.id, w.key, Red, Child(w, !l))))
  }

  /** Case 4 of removal: the subtree at the parent once the colours are right and before the rotation. */
  ghost function FarPainted(p: Place, t: Shape): Shape
    requires p.Step? && p.sib.Branch?
  {
    var (l, w) := (p.isLeft, p.sib);
    Join(l, t, p.node, p.key, Black, Join(l, Child(w, l), w.id, w.key, p.color, Paint(Child(w, !l), Black)))
  }

  /** What the removal loop's variant counts: the distance to the root while the subtree is black. */
  ghost function RemoveMeasure(p: Place, t: Shape): nat {
    if IsRed(t) then 0 else 1 + Depth(p)
  }

  /** What is known when the missing black has moved up. */
  lemma LiftPlan(p: Place, t: Shape, h: nat)
    requires p.Step? && !IsRed(t) && RemoveInv(RotateSibling(p), t, h)
    requires var q := RotateSibling(p); q.sib.Branch? && !IsRed(q.sib) && BlackNephews(q)
    ensures var q := RotateSibling(p);
            && RemoveInv(q.up, LiftDeficit(q, t), if q.color.Red? then h else h + 1)
            && RemoveFix(q.up, LiftDeficit(q, t)) == RemoveFix(p, t)
            && RemoveMeasure(q.up, LiftDeficit(q, t)) < RemoveMeasure(p, t)
  {
  }

  /** The fields through which the removal loop sees the sibling and its children. */
  lemma SiblingSites(m: Memory, root: Node?, p: Place, t: Shape)
    requires Focus(m, root, p, t) && p.Step? && p.sib.Branch?
    ensures p.node in m && Get(m[p.node], !p.isLeft) == p.sib.id
    ensures p.sib.id in m && m[p.sib.id] == Cell(Root(p.sib.left), Root(p.sib.right), p.node, p.sib.key, p.sib.color)
    ensures p.sib.left.Branch? ==> p.sib.left.id in m && m[p.sib.left.id].color == p.sib.left.color
    ensures p.sib.right.Branch? ==> p.sib.right.id in m && m[p.sib.right.id].color == p.sib.right.color
  {
    assert Linked(m, p.sib, p.node);
    assert Linked(m, p.sib.left, p.sib.id) && Linked(m, p.sib.right, p.sib.id);
  }

  /** A subtree below the root does not start at the root. */
  lemma HoleBelowRoot(m: Memory, root: Node?, p: Place, t: Shape)
    requires Focus(m, root, p, t)
    ensures root == Root(t) <==> p.Top?
  {
    if p.Step? {
      RootAbove(m, root, p.up, p.node);
    }
  }

  // ----- Taking a node out -----

  /** The change made by bypassing the node `y` at `p`: its child hangs from its parent. */
  ghost predicate BypassesFields(m: Memory, root: Node?, m': Memory, root': Node?, p: Place, x: Node?) {
    && (x != null ==> x in m && x in m' && m'[x] == m[x].(parent := Above(p)))
    && (if p.Top? then root' == x
        else root' == root && p.node in m && p.node in m' && m'[p.node] == Put(m[p.node], p.isLeft, x))
    && (forall n :: n in m && n != x && n != Above(p) ==> n in m' && m'[n] == m[n])
  }

  lemma BypassSites(m: Memory, root: Node?, p: Place, y: Shape)
    requires y.Branch? && (y.left.Leaf? || y.right.Leaf?) && Focus(m, root, p, y)
    ensures var x := Root(OnlyChild(y)); x != null ==> x in m && x != y.id && x != Above(p)
    ensures p.Step? ==> p.node != y.id
  {
    var x := OnlyChild(y);
    assert x.Branch? ==> x.id in Nodes(x) && Linked(m, x, y.id);
    assert p.Step? ==> p.node in PathNodes(p);
  }

  lemma BypassLinks(m: Memory, root: Node?, m': Memory, root': Node?, p: Place, y: Shape)
    requires y.Branch? && (y.left.Leaf? || y.right.Leaf?) && Focus(m, root, p, y)
    requires BypassesFields(m, root, m', root', p, Root(OnlyChild(y)))
    ensures Focus(m', root', p, OnlyChild(y))
  {
    var x := OnlyChild(y);
    var d := (if x.Leaf? then {} else {x.id}) + (if p.Top? then {} else {p.node});
    assert x.Branch? ==> x.id in Nodes(x);
    assert p.Step? ==> p.node in PathNodes(p);
    LinkedAdopt(m, m', d, x, y.id, Above(p));
    LinkedPathRefill(m, root, m', root', d, p, y.id, Root(x));
  }

  /** The change made by putting node `y` in the place of node `x`. */
  ghost predicate SwapsFields(m: Memory, root: Node?, m': Memory, root': Node?, x: Node, y: Node)
    requires x in m
  {
    var c := m[x];
    && y in m && y in m' && m'[y] == c.(key := m[y].key)
    && (c.left != null ==> c.left in m && c.left in m' && m'[c.left] == m[c.left].(parent := y))
    && (c.right != null ==> c.right in m && c.right in m' && m'[c.right] == m[c.right].(parent := y))
    && (if c.parent == null then root' == y
        else
          && root' == root && c.parent in m && c.parent in m'
          && m'[c.parent] == Put(m[c.parent], m[c.parent].left == x, y))
    && (forall n :: n in m && n != x && n != y && n != c.left && n != c.right && n != c.parent ==>
          n in m' && m'[n] == m[n])
  }

  /** The nodes around `x` are known and all different. */
  ghost predicate CanSwap(m: Memory, root: Node?, x: Node, y: Node) {
    && x in m && y in m && x != y && var c := m[x];
    && (c.left != null ==> c.left in m && c.left != x && c.left != y && c.left != c.right && c.left != c.parent)
    && (c.right != null ==> c.right in m && c.right != x && c.right != y && c.right != c.parent)
    && (if c.parent == null then root == x else c.parent in m && c.parent != x && c.parent != y)
  }

  lemma SwapSites(m: Memory, root: Node?, p: Place, t: Shape, y: Node)
    requires t.Branch? && Focus(m, root, p, t) && y in m && y !in PathNodes(p) && y !in Nodes(t)
    ensures CanSwap(m, root, t.id, y)
    ensures m[t.id] == Cell(Root(t.left), Root(t.right), Above(p), t.key, t.color)
    ensures p.Step? ==> (m[p.node].left == t.id <==> p.isLeft)
  {
    assert t.left.Branch? ==> t.left.id in Nodes(t.left) && Linked(m, t.left, t.id);
    assert t.right.Branch? ==> t.right.id in Nodes(t.right) && Linked(m, t.right, t.id);
    assert p.Step? ==> p.node in PathNodes(p);
  }

  lemma SwapLinks(m: Memory, root: Node?, m': Memory, root': Node?, p: Place, t: Shape, y: Node)
    requires t.Branch? && Focus(m, root, p, t) && y in m && y !in PathNodes(p) && y !in Nodes(t)
    requires t.id in m && SwapsFields(m, root, m', root', t.id, y)
    ensures Focus(m', root', p, t.(id := y, key := m[y].key))
  {
    SwapSites(m, root, p, t, y);
    var d := {t.id, y} + (if t.left.Leaf? then {} else {t.left.id}) + (if t.right.Leaf? then {} else {t.right.id})
             + (if p.Top? then {} else {p.node});
    assert t.left.Branch? ==> t.left.id in Nodes(t.left);
    assert t.right.Branch? ==> t.right.id in Nodes(t.right);
    assert p.Step? ==> p.node in PathNodes(p);
    LinkedAdopt(m, m', d, t.left, t.id, y);
    LinkedAdopt(m, m', d, t.right, t.id, y);
    LinkedPathRefill(m, root, m', root', d, p, t.id, y);
  }

  // ----- Removing a node with two children -----

  /** A subtree without its first node. */
  ghost function DropLeftmost(t: Shape): Shape
    requires t.Branch?
  {
    if t.left.Leaf? then t.right else t.(left := DropLeftmost(t.left))
  }

  lemma {:induction false} LeftmostDrop(p: Place, t: Shape)
    requires t.Branch?
    ensures Plug(Leftmost(p, t).0, Leftmost(p, t).1.right) == Plug(p, DropLeftmost(t))
    decreases t
  {
    if t.left.Branch? {
      LeftmostDrop(Down(true, p, t), t.left);
    }
  }

  /** The paths to the first node from two starting points end alike. */
  lemma {:induction false} LeftmostEnds(p: Place, q: Place, t: Shape)
    requires t.Branch? && p.Step? && q.Step? && p.isLeft == q.isLeft
    ensures var (p', q') := (Leftmost(p, t).0, Leftmost(q, t).0);
            && p'.Step? && q'.Step? && p'.isLeft == q'.isLeft
            && (t.left.Leaf? ==> p' == p && q' == q)
            && (t.left.Branch? ==> p'.node == q'.node && p'.node in Nodes(t))
    decreases t
  {
    if t.left.Branch? {
      LeftmostEnds(Down(true, p, t), Down(true, q, t), t.left);
    }
  }

  /** The successor of a node with two children is below it and has no left child. */
  lemma DeepPlan(m: Memory, root: Node?, p: Place, t: Shape)
    requires t.Branch? && t.right.Branch? && Focus(m, root, p, t)
    ensures var (q, v) := Leftmost(Down(false, p, t), t.right);
            && Focus(m, root, q, v) && PathNodes(q) + Nodes(v) == PathNodes(p) + Nodes(t)
            && v.id in m && m[v.id].color == v.color && m[v.id].key == v.key
            && v.id !in PathNodes(q) + Nodes(v.right)
  {
    var s := Down(false, p, t);
    var (q, v) := Leftmost(s, t.right);
    FocusDown(m, root, p, t);
    FocusTop(m, root, s, t.right);
    FocusTop(m, root, q, v);
    FocusDown(m, root, q, v);
  }

  lemma DeepRedBlack(p: Place, t: Shape)
    requires t.Branch? && t.right.Branch? && RedBlack(Plug(p, t))
    ensures var (q, v) := Leftmost(StandIn(p, t), t.right);
            && RedBlack(Plug(q, v)) && v == Leftmost(Down(false, p, t), t.right).1
            && StandIn(p, t).node == v.id && StandIn(p, t).key == v.key
  {
    var s := StandIn(p, t);
    var h := UnplugRB(p, t);
    PlugRB(p, Grow(s, t.right), h);
    LeftmostSame(s, Down(false, p, t), t.right);
    LeftmostSame(s, Top, t.right);
  }

  /** From the bypassed successor's hole back up to the node that is to be replaced ... */
  lemma DeepBack(m: Memory, root: Node?, p: Place, t: Shape)
    requires t.Branch? && t.right.Branch?
    ensures var ((q, v), u) := (Leftmost(Down(false, p, t), t.right), t.(right := DropLeftmost(t.right)));
            && (Focus(m, root, q, v.right) <==> Focus(m, root, p, u))
            && PathNodes(q) + Nodes(v.right) == PathNodes(p) + Nodes(u)
  {
    var s := Down(false, p, t);
    var (q, v) := Leftmost(s, t.right);
    LeftmostDrop(s, t.right);
    FocusTop(m, root, q, v.right);
    FocusTop(m, root, s, DropLeftmost(t.right));
    FocusUp(m, root, s, DropLeftmost(t.right));
  }

  /** ... and down again below the stand-in. */
  lemma DeepForth(m: Memory, root: Node?, p: Place, t: Shape)
    requires t.Branch? && t.right.Branch?
    ensures var ((q, v), s) := (Leftmost(StandIn(p, t), t.right), StandIn(p, t));
            && (Focus(m, root, q, v.right)
                <==> Focus(m, root, p, t.(id := s.node, key := s.key, right := DropLeftmost(t.right))))
            && PathNodes(q) + Nodes(v.right)
               == PathNodes(p) + Nodes(t.(id := s.node, key := s.key, right := DropLeftmost(t.right)))
  {
    var s := StandIn(p, t);
    DeepBack(m, root, p, t.(id := s.node, key := s.key));
  }

  /** Where the hole's parent is, before and after the stand-in. */
  lemma DeepParent(p: Place, t: Shape)
    requires t.Branch? && t.right.Branch? && t.id !in Nodes(t.right)
    ensures var (q, q') := (Leftmost(Down(false, p, t), t.right).0, Leftmost(StandIn(p, t), t.right).0);
            && q.Step? && q'.Step? && q.isLeft == q'.isLeft
            && q'.node == if q.node == t.id then StandIn(p, t).node else q.node
  {
    LeftmostEnds(Down(false, p, t), StandIn(p, t), t.right);
  }
}

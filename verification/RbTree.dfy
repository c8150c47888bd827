/**
 * The intrusive red-black tree: the pointer code of insertion, search, removal and walking,
 * proved to change the node fields as the functions of RbTheorems say.
 */
module RbTree {
  import opened Results
  import opened RbSpec
  import opened RbOps
  import opened RbTheorems
  import opened RbLinks

  ghost function FirstOf(s: seq<(Node, int)>): Node? {
    if s == [] then null else s[0].0
  }

  ghost function LastOf(s: seq<(Node, int)>): Node? {
    if s == [] then null else s[|s| - 1].0
  }

  ghost function Last(t: Shape): Node? {
    LastOf(InOrder(t))
  }

  /** The entries around the root of the subtree in the hole are its in-order neighbours. */
  lemma Neighbours(p: Place, t: Shape, i: nat)
    requires t.Branch? && NoDup(Bag(Plug(p, t)))
    requires i < |InOrder(Plug(p, t))| && InOrder(Plug(p, t))[i].0 == t.id
    ensures InOrder(Plug(p, t))[..i] == Before(p) + InOrder(t.left)
    ensures InOrder(Plug(p, t))[i + 1..] == InOrder(t.right) + After(p)
  {
    InOrderAround(p, t);
    BagInOrder(Plug(p, t));
    var a, e, b := Before(p) + InOrder(t.left), (t.id, t.key), InOrder(t.right) + After(p);
    OthersDiffer(a, e, b);
    OnlyPlace(a, e, b, i);
  }

  lemma EntryInBag(t: Shape, i: nat)
    requires i < |InOrder(t)|
    ensures InOrder(t)[i].0 in Bag(t)
  {
    BagInOrder(t);
    assert Ids(InOrder(t))[i] == InOrder(t)[i].0;
  }

  lemma OnlyPlace(a: seq<(Node, int)>, e: (Node, int), b: seq<(Node, int)>, i: nat)
    requires forall j :: 0 <= j < |a + b| ==> (a + b)[j].0 != e.0
    requires i < |a + [e] + b| && (a + [e] + b)[i].0 == e.0
    ensures i == |a| && (a + [e] + b)[..i] == a && (a + [e] + b)[i + 1..] == b
  {
    var s, u := a + b, a + [e] + b;
    assert forall j :: 0 <= j < |u| && j != |a| ==> u[j] == s[if j < |a| then j else j - 1];
  }

  ghost function Found(compare: (int, int) -> int, t: Shape, key: int): Node? {
    var r := RbTheorems.Find(compare, t, key);
    if r.Some? then r.value else null
  }

  lemma {:induction false} BagNodes(t: Shape)
    ensures forall n :: n in Nodes(t) ==> n in Bag(t)
    ensures forall n :: n in Bag(t) ==> n in Nodes(t)
  {
    if t.Branch? {
      BagNodes(t.left);
      BagNodes(t.right);
    }
  }

  lemma SingleGood(compare: (int, int) -> int, n: Node, key: int)
    ensures Good(compare, Branch(Leaf, n, key, Black, Leaf))
  {
    var t: Shape := Branch(Leaf, n, key, Black, Leaf);
    assert RB(t, 1);
    assert |Keys(InOrder(t))| == 1;
  }

  /** The first node makes up the tree exactly when it arrived with all links clear: insertion writes none of them. */
  lemma SingleLinks(m: Memory, n: Node, key: int)
    requires n in m && m[n].key == key && m[n].color == Black
    ensures Focus(m, n, Top, Branch(Leaf, n, key, Black, Leaf))
            <==> m[n].left == null && m[n].right == null && m[n].parent == null
    ensures Nodes(Branch(Leaf, n, key, Black, Leaf)) == {n}
  {
    var t: Shape := Branch(Leaf, n, key, Black, Leaf);
    assert m[n] == Cell(m[n].left, m[n].right, m[n].parent, key, Black);
    assert Linked(m, t, null) <==> m[n] == Cell(null, null, null, key, Black);
    assert Nodes(t.left) == {} && Nodes(t.right) == {};
    assert Separate(t);
    AtTop(m, n, t);
  }

  /** The fields spell out a whole tree. */
  lemma AtTop(m: Memory, root: Node?, t: Shape)
    ensures Focus(m, root, Top, t) <==> Separate(t) && root == Root(t) && Linked(m, t, null)
  {
    var p: Place := Top;
    assert PathNodes(p) == {} && Above(p) == null;
  }

  lemma InsertNodes(compare: (int, int) -> int, t: Shape, n: Node, key: int)
    requires TotalOrder(compare) && Good(compare, t) && n !in Nodes(t)
    requires RbTheorems.Find(compare, t, key).None?
    ensures Good(compare, RbTheorems.Insert(compare, t, n, key))
    ensures Nodes(RbTheorems.Insert(compare, t, n, key)) == Nodes(t) + {n}
  {
    BagNodes(t);
    var a, b := InsertCorrect(compare, t, n, key);
    BagNodes(RbTheorems.Insert(compare, t, n, key));
  }

  lemma RemoveNodes(compare: (int, int) -> int, t: Shape, n: Node)
    requires Good(compare, t) && n in Bag(t)
    ensures Good(compare, RbTheorems.Remove(t, n))
    ensures Nodes(RbTheorems.Remove(t, n)) == Nodes(t) - {n}
  {
    BagNodes(t);
    var a, e, b := RemoveCorrect(compare, t, n);
    BagNodes(RbTheorems.Remove(t, n));
  }

  /** Removing the last node makes its predecessor the last; removing another changes nothing there. */
  lemma RemoveLast(t: Shape, n: Node)
    requires NoDup(Bag(t)) && n in Bag(t)
    ensures var (p, u) := Locate(Top, t, n);
            && (Last(t) == n <==> u.right.Leaf? && After(p) == [])
            && Last(RbTheorems.Remove(t, n)) == if Last(t) == n then LastOf(Before(p) + InOrder(u.left)) else Last(t)
  {
    var (p, u) := Locate(Top, t, n);
    InOrderAround(p, u);
    RemoveAtOrder(p, u);
    BagInOrder(t);
    var a, e, b := Before(p) + InOrder(u.left), (u.id, u.key), InOrder(u.right) + After(p);
    OthersDiffer(a, e, b);
    LastWithout(a, e, b);
    assert u.right.Branch? ==> InOrder(u.right) != [];
  }

  lemma RemovePlan(compare: (int, int) -> int, t: Shape, n: Node)
    requires Good(compare, t) && n in Nodes(t)
    ensures n in Bag(t) && var (u, (p, v)) := (RbTheorems.Remove(t, n), Locate(Top, t, n));
            && Good(compare, u) && Nodes(u) == Nodes(t) - {n} && u == RemoveAt(p, v)
            && Last(u) == if (v.left.Leaf? || v.right.Leaf?) && Last(t) == n
                          then LastOf(Before(p) + InOrder(v.left)) else Last(t)
  {
    BagNodes(t);
    RemoveNodes(compare, t, n);
    RemoveLast(t, n);
  }

  lemma LastWithout(a: seq<(Node, int)>, e: (Node, int), b: seq<(Node, int)>)
    requires forall i :: 0 <= i < |a + b| ==> (a + b)[i].0 != e.0
    ensures LastOf(a + [e] + b) == e.0 <==> b == []
    ensures LastOf(a + b) == if b == [] then LastOf(a) else LastOf(a + [e] + b)
  {
    if b == [] {
      assert a + b == a && a + [e] + b == a + [e];
    } else {
      assert (a + b)[|a + b| - 1] == b[|b| - 1] == (a + [e] + b)[|a + [e] + b| - 1];
    }
  }

  lemma HoleReady(compare: (int, int) -> int, t: Shape, n: Node, key: int, p: Place)
    requires RedBlack(t) && Seek(compare, Top, t, key) == (p, Leaf)
    ensures Plug(p, Leaf) == t && InsertInv(p, Branch(Leaf, n, key, Red, Leaf), 0)
  {
    var _ := UnplugRB(p, Leaf);
  }

  lemma InsertLast(compare: (int, int) -> int, t: Shape, n: Node, key: int)
    requires RbTheorems.Find(compare, t, key).None?
    ensures var p := Seek(compare, Top, t, key).0;
            Last(RbTheorems.Insert(compare, t, n, key)) == if After(p) == [] then n else Last(t)
  {
    var a, b := InsertOrder(compare, t, n, key);
  }

  class RbTree {
    var root: Node?
    var rightmost: Node?
    const compare: (int, int) -> int
    /** The node objects whose fields make up the tree. */
    ghost var nodes: set<Node>
    ghost var tree: Shape
    /** Whether anything has ever been inserted; `rightmost` is not set before that. */
    ghost var used: bool

    ghost predicate Valid()
      reads this, nodes
    {
      && TotalOrder(compare) && Good(compare, tree)
      && nodes == Nodes(tree) && At(Top, tree)
      && (tree.Branch? ==> used)
      && (used ==> rightmost == Last(tree))
    }

    /** An empty tree; whatever the memory held before is still in `rightmost`. */
    constructor (compare: (int, int) -> int, garbage: Node?)
      requires TotalOrder(compare)
      ensures Valid() && tree == Leaf && !used && this.compare == compare && rightmost == garbage
    {
      this.compare := compare;
      root, rightmost := null, garbage;
      nodes, tree, used := {}, Leaf, false;
      new;
      assert RB(tree, 0);
    }

    /** The node fields spell out `t` hanging from `p`. */
    ghost predicate At(p: Place, t: Shape)
      reads this, nodes
    {
      PathNodes(p) + Nodes(t) <= nodes && Focus(Snap(nodes), root, p, t)
    }

    // ----- Rotations -----

    method RotateLeft(node: Node)
      requires CanRotate(Snap(nodes), true, node)
      modifies this`root, nodes`left, nodes`right, nodes`parent
      ensures RotatesFields(old(Snap(nodes)), old(root), Snap(nodes), root, true, node)
    {
      var x := node;
      var y := x.right;
      x.right := y.left;
      if y.left != null {
        y.left.parent := x;
      }
      y.parent := x.parent;
      if x.parent == null {
        root := y;
      } else {
        var xp := x.parent;
        if x == xp.left {
          xp.left := y;
        } else {
          xp.right := y;
        }
      }
      y.left := x;
      x.parent := y;
    }

    method RotateRight(node: Node)
      requires CanRotate(Snap(nodes), false, node)
      modifies this`root, nodes`left, nodes`right, nodes`parent
      ensures RotatesFields(old(Snap(nodes)), old(root), Snap(nodes), root, false, node)
    {
      var x := node;
      var y := x.left;
      x.left := y.right;
      if y.right != null {
        y.right.parent := x;
      }
      y.parent := x.parent;
      if x.parent == null {
        root := y;
      } else {
        var xp := x.parent;
        if x == xp.left {
          xp.left := y;
        } else {
          xp.right := y;
        }
      }
      y.right := x;
      x.parent := y;
    }

    /** Rotates to the left or to the right, and says what that does to the tree. */
    method Rotate(left: bool, node: Node, ghost p: Place, ghost t: Shape)
      requires t.Branch? && Child(t, !left).Branch? && t.id == node && At(p, t)
      modifies this`root, nodes`left, nodes`right, nodes`parent
      ensures At(p, RotateUp(left, t))
    {
      ghost var m, r := Snap(nodes), root;
      RotationSites(m, r, left, p, t);
      if left {
        RotateLeft(node);
      } else {
        RotateRight(node);
      }
      RotateLinks(m, r, Snap(nodes), root, left, p, t);
    }

    method SetColor(node: Node, c: Color, ghost p: Place, ghost t: Shape)
      requires t.Branch? && t.id == node && At(p, t)
      modifies node`color
      ensures At(p, Paint(t, c))
    {
      ghost var m := Snap(nodes);
      PaintLinks(m, root, p, t, c);
      node.color := c;
      assert Snap(nodes) == m[node := m[node].(color := c)];
    }

    // ----- Rebalancing after an insertion -----

    /** Case 1: parent and uncle become black, the grandparent red. */
    method RecolourUp(pnode: Node, parent: Node, grandparent: Node, uncle: Node, ghost p: Place, ghost t: Shape)
      requires p.Step? && p.up.Step? && p.up.sib.Branch? && At(p, t)
      requires parent == p.node && grandparent == p.up.node && uncle == p.up.sib.id
      modifies nodes`color
      ensures At(p.up.up, InsertRecolour(p, t))
    {
      ghost var g := p.up;
      FocusUp(Snap(nodes), root, p, t);
      SetColor(parent, Black, g, Grow(p, t));
      ghost var u := Paint(Grow(p, t), Black);
      FocusAcross(Snap(nodes), root, g, u);
      SetColor(uncle, Black, Across(g, u), g.sib);
      FocusUp(Snap(nodes), root, Across(g, u), Paint(g.sib, Black));
      SetColor(grandparent, Red, g.up, Grow(Across(g, u), Paint(g.sib, Black)));
    }

    /** Case 2: the node is on the inner side, so rotate it to the outer side. */
    method TurnInner(pnode: Node, parent: Node, uncleIsLeft: bool, ghost p: Place, ghost t: Shape)
      requires p.Step? && p.up.Step? && t.Branch? && At(p, t)
      requires parent == p.node && pnode == t.id && uncleIsLeft == !p.up.isLeft && p.isLeft != p.up.isLeft
      modifies this`root, nodes`left, nodes`right, nodes`parent
      ensures At(Outer(p, t), Inner(p, t))
    {
      FocusUp(Snap(nodes), root, p, t);
      Rotate(!uncleIsLeft, parent, p.up, Grow(p, t));
      FocusUp(Snap(nodes), root, Outer(p, t), Inner(p, t));
    }

    /** Case 3: recolour parent and grandparent and rotate the parent above the grandparent. */
    method TurnOuter(pnode: Node, uncleIsLeft: bool, ghost p: Place, ghost t: Shape)
      requires p.Step? && p.up.Step? && t.Branch? && At(p, t)
      requires pnode == t.id && uncleIsLeft == !p.up.isLeft && p.isLeft == p.up.isLeft
      modifies this`root, nodes`left, nodes`right, nodes`parent, nodes`color
      ensures At(Turned(p), t)
    {
      ghost var g := p.up;
      FocusUp(Snap(nodes), root, p, t);
      assert LinkedPath(Snap(nodes), root, g, p.node);
      var parent := pnode.parent;
      var grandparent := parent.parent;
      SetColor(parent, Black, g, Grow(p, t));
      ghost var u := Paint(Grow(p, t), Black);
      FocusUp(Snap(nodes), root, g, u);
      SetColor(grandparent, Red, g.up, Grow(g, u));
      Rotate(uncleIsLeft, grandparent, g.up, Paint(Grow(g, u), Red));
      FocusUp(Snap(nodes), root, Turned(p), t);
    }

    /** One round of the loop, for a node whose parent is red. */
    method InsertRound(pnode: Node, ghost p: Place, ghost t: Shape, ghost h: nat)
      returns (next: Node, ghost q: Place, ghost u: Shape, ghost g: nat)
      requires At(p, t) && t.Branch? && pnode == t.id && InsertInv(p, t, h) && p.Step? && p.color.Red?
      modifies this`root, nodes`left, nodes`right, nodes`parent, nodes`color
      ensures At(q, u) && u.Branch? && next == u.id && InsertInv(q, u, g)
      ensures InsertFix(q, u) == InsertFix(p, t) && InsertMeasure(q) < InsertMeasure(p)
    {
      RecolourInv(p, t, h);
      InsertSites(Snap(nodes), root, p, t);
      var parent := pnode.parent;
      var grandparent := parent.parent;
      var uncleIsLeft := parent != grandparent.left;
      var uncle := if uncleIsLeft then grandparent.left else grandparent.right;
      if uncle != null && uncle.color == Red {
        RecolourUp(pnode, parent, grandparent, uncle, p, t);
        next, q, u, g := grandparent, p.up.up, InsertRecolour(p, t), h + 1;
        assert Depth(p) == 2 + Depth(q);
      } else {
        TurnInv(p, t, h);
        next, q, u, g := pnode, p, t, h;
        if uncleIsLeft == (parent.left == pnode) {
          TurnInner(pnode, parent, uncleIsLeft, p, t);
          next, q, u := parent, Outer(p, t), Inner(p, t);
        }
        TurnOuter(next, uncleIsLeft, q, u);
        q := Turned(q);
      }
    }

    method InsertRebalance(node: Node, ghost p0: Place, ghost t0: Shape, ghost h0: nat)
      requires p0.Step? && At(p0, t0) && t0.Branch? && node == t0.id && InsertInv(p0, t0, h0)
      modifies this`root, nodes`left, nodes`right, nodes`parent, nodes`color
      ensures At(Top, InsertFix(p0, t0))
    {
      var newNodeParent := node.parent;
      if newNodeParent != null && newNodeParent.color != Black {
        var pnode := node;
        ghost var p, t, h := p0, t0, h0;
        while root != pnode && pnode.parent != null && pnode.parent.color == Red
          invariant At(p, t) && t.Branch? && pnode == t.id && InsertInv(p, t, h)
          invariant InsertFix(p, t) == InsertFix(p0, t0)
          decreases InsertMeasure(p)
        {
          pnode, p, t, h := InsertRound(pnode, p, t, h);
        }
        RootAbove(Snap(nodes), root, p, t.id);
        FocusTop(Snap(nodes), root, p, t);
        SetColor(root, Black, Top, Plug(p, t));
      } else {
        InsertDone(p0, t0, h0);
        FocusTop(Snap(nodes), root, p0, t0);
      }
    }

    // ----- Search and insertion -----

    /** The node under `key`, after at most 2 * log2(n + 1) steps in a tree of n nodes. */
    method Find(key: int) returns (result: Status, value: Node?, ghost steps: nat)
      requires Valid()
      ensures value == Found(compare, tree, key)
      ensures result == if value == null then NotFound else Ok
      ensures steps == Depth(Seek(compare, Top, tree, key).0) && TwiceLog(steps, |InOrder(tree)|)
    {
      result, value, steps := Lookup(key);
      StepBound(tree, steps);
    }

    method Lookup(key: int) returns (result: Status, value: Node?, ghost steps: nat)
      requires Valid()
      ensures value == Found(compare, tree, key)
      ensures result == if value == null then NotFound else Ok
      ensures steps == Depth(Seek(compare, Top, tree, key).0) <= Height(tree)
    {
      value, steps := null, 0;
      if root == null {
        return NotFound, value, steps;
      }
      var node := root;
      ghost var p, t := Top, tree;
      while node != null
        invariant At(p, t) && node == Root(t)
        invariant Seek(compare, p, t, key) == Seek(compare, Top, tree, key)
        invariant steps == Depth(p) && steps + Height(t) <= Height(tree)
        decreases t
      {
        FocusDown(Snap(nodes), root, p, t);
        var c := compare(key, node.key);
        if c == 0 {
          break;
        }
        steps := steps + 1;
        if c < 0 {
          node, p, t := node.left, Down(true, p, t), t.left;
        } else {
          node, p, t := node.right, Down(false, p, t), t.right;
        }
      }
      if node == null {
        return NotFound, value, steps;
      }
      return Ok, node, steps;
    }

    /** Hangs the new red node in the empty hole of `p`. */
    method Attach(nd: Node, node: Node, left: bool, ghost p: Place)
      requires p.Step? && At(p, Leaf) && nd == p.node && left == p.isLeft
      requires node !in nodes && node.left == null && node.right == null && node.color == Red
      modifies this`nodes, nd`left, nd`right, node`parent
      ensures nodes == old(nodes) + {node} && At(p, Branch(Leaf, node, node.key, Red, Leaf))
    {
      ghost var m := Snap(nodes);
      if left {
        nd.left := node;
      } else {
        nd.right := node;
      }
      node.parent := nd;
      nodes := nodes + {node};
      AttachLinks(m, Snap(nodes), root, p, node);
    }

    /** The first node of an empty tree. */
    method InsertFirst(key: int, node: Node)
      requires Valid() && root == null && node.left == null && node.right == null && node.parent == null
      requires node.key == key
      modifies this, node
      ensures Valid() && used && tree == RbTheorems.Insert(compare, old(tree), node, key)
    {
      root, rightmost, node.color := node, node, Black;
      nodes, tree, used := {node}, Branch(Leaf, node, key, Black, Leaf), true;
      SingleGood(compare, node, key);
      SingleLinks(Snap(nodes), node, key);
    }

    /** Hangs the node in the hole of `p`, keeps `rightmost` right and rebalances. */
    method InsertAt(nd: Node, node: Node, isLeft: bool, isRightmost: bool, ghost p: Place)
      requires p.Step? && At(p, Leaf) && nd == p.node && isLeft == p.isLeft
      requires node !in nodes && node.left == null && node.right == null && node.color == Red
      requires InsertInv(p, Branch(Leaf, node, node.key, Red, Leaf), 0)
      modifies this`root, this`rightmost, this`nodes, nodes, node
      ensures nodes == old(nodes) + {node}
      ensures At(Top, InsertFix(p, Branch(Leaf, node, old(node.key), Red, Leaf)))
      ensures rightmost == if isRightmost then node else old(rightmost)
    {
      ghost var leaf := Branch(Leaf, node, node.key, Red, Leaf);
      Attach(nd, node, isLeft, p);
      if isRightmost {
        rightmost := node;
      }
      InsertRebalance(node, p, leaf, 0);
    }

    method InsertBelow(key: int, nd: Node, node: Node, isLeft: bool, isRightmost: bool, ghost p: Place)
      requires Valid() && p.Step? && Seek(compare, Top, tree, key) == (p, Leaf)
      requires nd == p.node && isLeft == p.isLeft && (isRightmost <==> After(p) == [])
      requires node !in nodes && node.left == null && node.right == null
      requires node.key == key && node.color == Red
      modifies this, nodes, node
      ensures Valid() && used && tree == RbTheorems.Insert(compare, old(tree), node, key)
    {
      InsertNodes(compare, tree, node, key);
      InsertLast(compare, tree, node, key);
      HoleReady(compare, tree, node, key, p);
      FocusTop(Snap(nodes), root, p, Leaf);
      InsertAt(nd, node, isLeft, isRightmost, p);
      tree := RbTheorems.Insert(compare, tree, node, key);
    }

    /** Goes down to where `key` is, or to the node below which it belongs. */
    method Descend(key: int) returns (found: bool, nd: Node, isLeft: bool, isRightmost: bool, ghost p: Place)
      requires Valid() && root != null
      ensures found <==> Found(compare, tree, key) != null
      ensures !found ==> p.Step? && Seek(compare, Top, tree, key) == (p, Leaf)
      ensures !found ==> nd == p.node && isLeft == p.isLeft && (isRightmost <==> After(p) == [])
    {
      nd, isLeft, isRightmost, p := root, false, true, Top;
      ghost var t := tree;
      while true
        invariant At(p, t) && nd == Root(t) && t.Branch?
        invariant Seek(compare, p, t, key) == Seek(compare, Top, tree, key)
        invariant isRightmost <==> After(p) == []
        decreases t
      {
        FocusDown(Snap(nodes), root, p, t);
        var c := compare(key, nd.key);
        if c == 0 {
          return true, nd, isLeft, isRightmost, p;
        }
        isLeft := c < 0;
        if isLeft {
          isRightmost := false;
          p, t := Down(true, p, t), t.left;
          if nd.left == null {
            return false, nd, isLeft, isRightmost, p;
          }
          nd := nd.left;
        } else {
          p, t := Down(false, p, t), t.right;
          if nd.right == null {
            return false, nd, isLeft, isRightmost, p;
          }
          nd := nd.right;
        }
      }
    }

    /** Inserts `node` under `key`; the links that insertion does not write must be clear. */
    method Insert(key: int, node: Node) returns (result: Status)
      requires Valid() && node !in nodes
      requires node.left == null && node.right == null && (root == null ==> node.parent == null)
      modifies this, nodes, node
      ensures Valid() && used
      ensures tree == RbTheorems.Insert(compare, old(tree), node, key)
      ensures result == if Found(compare, old(tree), key) == null then Ok else Busy
      ensures result == Busy ==>
                node !in nodes && node.left == null && node.right == null
                && node.parent == old(node.parent)
    {
      node.key := key;
      if root == null {
        InsertFirst(key, node);
        return Ok;
      }
      node.color := Red;
      var found, nd, isLeft, isRightmost, p := Descend(key);
      if found {
        return Busy;
      }
      InsertBelow(key, nd, node, isLeft, isRightmost, p);
      return Ok;
    }

    /** Goes down to the node under `key`, or past the bottom, remembering the last node. */
    method DescendPast(key: int)
      returns (node: Node?, nodePrev: Node?, isLeft: bool, isRightmost: bool, ghost p: Place)
      requires Valid() && root != null
      ensures node == Found(compare, tree, key)
      ensures node == null ==> p.Step? && Seek(compare, Top, tree, key) == (p, Leaf)
      ensures node == null ==> nodePrev == p.node && isLeft == p.isLeft && (isRightmost <==> After(p) == [])
    {
      node, nodePrev, isLeft, isRightmost, p := root, null, false, true, Top;
      ghost var t := tree;
      while node != null
        invariant At(p, t) && node == Root(t) && (p.Step? || t.Branch?)
        invariant Seek(compare, p, t, key) == Seek(compare, Top, tree, key)
        invariant nodePrev == Above(p) && (p.Step? ==> isLeft == p.isLeft)
        invariant isRightmost <==> After(p) == []
        decreases t
      {
        FocusDown(Snap(nodes), root, p, t);
        var c := compare(key, node.key);
        if c == 0 {
          break;
        }
        nodePrev, isLeft := node, c < 0;
        if isLeft {
          node, isRightmost, p, t := node.left, false, Down(true, p, t), t.left;
        } else {
          node, p, t := node.right, Down(false, p, t), t.right;
        }
      }
    }

    /** Finds the node under `key`, or inserts the candidate when there is none. */
    method FindOrInsert(key: int, candidate: Node) returns (value: Node)
      requires Valid() && candidate !in nodes
      requires candidate.left == null && candidate.right == null && (root == null ==> candidate.parent == null)
      modifies this, nodes, candidate
      ensures Valid() && used
      ensures tree == RbTheorems.Insert(compare, old(tree), candidate, key)
      ensures var f := Found(compare, old(tree), key); value == if f == null then candidate else f
      ensures value != candidate ==>
                && candidate !in nodes && candidate.left == null && candidate.right == null
                && candidate.parent == old(candidate.parent)
    {
      candidate.key := key;
      if root == null {
        InsertFirst(key, candidate);
        return candidate;
      }
      var node, nodePrev, isLeft, isRightmost, p := DescendPast(key);
      if node == null {
        candidate.color := Red;
        InsertBelow(key, nodePrev, candidate, isLeft, isRightmost, p);
        return candidate;
      }
      return node;
    }

    // ----- Walking -----

    /** The position of a member node. */
    lemma Member(node: Node) returns (p: Place, t: Shape)
      requires Valid() && node in Bag(tree)
      ensures (p, t) == Locate(Top, tree, node) && Plug(p, t) == tree
      ensures At(p, t) && t.Branch? && t.id == node
    {
      p, t := Locate(Top, tree, node).0, Locate(Top, tree, node).1;
      FocusTop(Snap(nodes), root, p, t);
    }

    /** The leftmost node of a subtree. */
    method Minimum(node: Node, ghost p: Place, ghost t: Shape) returns (x: Node, ghost q: Place, ghost u: Shape)
      requires At(p, t) && t.Branch? && node == t.id
      ensures (q, u) == Leftmost(p, t) && At(q, u) && x == u.id
      ensures x == FirstOf(InOrder(t))
    {
      x, q, u := node, p, t;
      while x.left != null
        invariant At(q, u) && u.Branch? && x == u.id && Leftmost(q, u) == Leftmost(p, t)
        invariant FirstOf(InOrder(u)) == FirstOf(InOrder(t))
        decreases u
      {
        FocusDown(Snap(nodes), root, q, u);
        assert InOrder(u.left) != [];
        x, q, u := x.left, Down(true, q, u), u.left;
      }
    }

    /** The rightmost node of a subtree. */
    method Maximum(node: Node, ghost p: Place, ghost t: Shape) returns (x: Node)
      requires At(p, t) && t.Branch? && node == t.id
      ensures x == LastOf(InOrder(t))
    {
      x := node;
      ghost var q, u := p, t;
      while x.right != null
        invariant At(q, u) && u.Branch? && x == u.id
        invariant LastOf(InOrder(u)) == LastOf(InOrder(t))
        decreases u
      {
        FocusDown(Snap(nodes), root, q, u);
        assert InOrder(u.right) != [];
        x, q, u := x.right, Down(false, q, u), u.right;
      }
    }

    /** The node after a position: down and left from the right child, or up past right turns. */
    method SuccessorAt(node: Node, ghost p: Place, ghost t: Shape) returns (y: Node?)
      requires At(p, t) && t.Branch? && node == t.id
      ensures y == FirstOf(InOrder(t.right) + After(p))
    {
      FocusDown(Snap(nodes), root, p, t);
      if node.right != null {
        var z, _, _ := Minimum(node.right, Down(false, p, t), t.right);
        return z;
      }
      var x := node;
      y := x.parent;
      ghost var q, u := p, t;
      while y != null && x == y.right
        invariant At(q, u) && u.Branch? && x == u.id && y == Above(q) && After(q) == After(p)
        decreases q
      {
        FocusUp(Snap(nodes), root, q, u);
        x, y, q, u := y, y.parent, q.up, Grow(q, u);
      }
    }

    method PredecessorAt(node: Node, ghost p: Place, ghost t: Shape) returns (y: Node?)
      requires At(p, t) && t.Branch? && node == t.id
      ensures y == LastOf(Before(p) + InOrder(t.left))
    {
      FocusDown(Snap(nodes), root, p, t);
      if node.left != null {
        var z := Maximum(node.left, Down(true, p, t), t.left);
        return z;
      }
      var x := node;
      y := x.parent;
      ghost var q, u := p, t;
      while y != null && x == y.left
        invariant At(q, u) && u.Branch? && x == u.id && y == Above(q) && Before(q) == Before(p)
        decreases q
      {
        FocusUp(Snap(nodes), root, q, u);
        x, y, q, u := y, y.parent, q.up, Grow(q, u);
      }
    }

    /** The in-order successor of the node at index `i`, or null at the end. */
    method FindSuccessor(node: Node, ghost i: nat) returns (y: Node?)
      requires Valid() && i < |InOrder(tree)| && InOrder(tree)[i].0 == node
      ensures y == if i + 1 < |InOrder(tree)| then InOrder(tree)[i + 1].0 else null
    {
      EntryInBag(tree, i);
      ghost var p, t := Member(node);
      Neighbours(p, t, i);
      y := SuccessorAt(node, p, t);
    }

    /** The in-order predecessor of the node at index `i`, or null at the start. */
    method FindPredecessor(node: Node, ghost i: nat) returns (y: Node?)
      requires Valid() && i < |InOrder(tree)| && InOrder(tree)[i].0 == node
      ensures y == if i > 0 then InOrder(tree)[i - 1].0 else null
    {
      EntryInBag(tree, i);
      ghost var p, t := Member(node);
      Neighbours(p, t, i);
      y := PredecessorAt(node, p, t);
    }

    // ----- Rebalancing after a removal -----

    /** Case 1: the sibling is red; rotate it above the parent. */
    method RotateRedSibling(w: Node, xp: Node, isLeft: bool, ghost p: Place, ghost t: Shape)
      requires p.Step? && At(p, t) && IsRed(p.sib) && Child(p.sib, isLeft).Branch?
      requires w == p.sib.id && xp == p.node && isLeft == p.isLeft
      modifies this`root, nodes`left, nodes`right, nodes`parent, nodes`color
      ensures At(RotateSibling(p), t)
    {
      FocusAcross(Snap(nodes), root, p, t);
      SetColor(w, Black, Across(p, t), p.sib);
      FocusUp(Snap(nodes), root, Across(p, t), Paint(p.sib, Black));
      ghost var u := Grow(Across(p, t), Paint(p.sib, Black));
      SetColor(xp, Red, p.up, u);
      Rotate(isLeft, xp, p.up, Paint(u, Red));
      ghost var q := RotateSibling(p);
      FocusUp(Snap(nodes), root, q.up, Grow(q, t));
      FocusUp(Snap(nodes), root, q, t);
    }

    /** Case 2: the sibling turns red and the missing black moves up to the parent. */
    method LiftToParent(w: Node, x: Node, ghost p: Place, ghost t: Shape) returns (xp: Node?, isLeft: bool)
      requires p.Step? && At(p, t) && p.sib.Branch? && w == p.sib.id && x == p.node
      modifies nodes`color
      ensures At(p.up, LiftDeficit(p, t)) && xp == Above(p.up) && (p.up.Step? ==> isLeft == p.up.isLeft)
    {
      FocusAcross(Snap(nodes), root, p, t);
      SetColor(w, Red, Across(p, t), p.sib);
      FocusUp(Snap(nodes), root, Across(p, t), Paint(p.sib, Red));
      xp := x.parent;
      isLeft := xp != null && x == xp.left;
    }

    /** Case 3: only the near nephew is red; rotate it above the sibling. */
    method RotateNearNephew(w: Node, near: Node, isLeft: bool, ghost p: Place, ghost t: Shape)
      requires p.Step? && At(p, t) && isLeft == p.isLeft && p.sib.Branch? && Child(p.sib, isLeft).Branch?
      requires w == p.sib.id && near == Child(p.sib, isLeft).id
      modifies this`root, nodes`left, nodes`right, nodes`parent, nodes`color
      ensures At(NephewUp(p), t)
    {
      ghost var q, u := Across(p, t), Paint(p.sib, Red);
      FocusAcross(Snap(nodes), root, p, t);
      SetColor(w, Red, q, p.sib);
      FocusDown(Snap(nodes), root, q, u);
      SetColor(near, Black, Down(isLeft, q, u), Child(u, isLeft));
      ghost var v := Grow(Down(isLeft, q, u), Paint(Child(u, isLeft), Black));
      FocusUp(Snap(nodes), root, Down(isLeft, q, u), Paint(Child(u, isLeft), Black));
      Rotate(!isLeft, w, q, v);
      FocusAcross(Snap(nodes), root, NephewUp(p), t);
    }

    /** Case 4: the far nephew is red; rotate the sibling above the parent and stop. */
    method RotateFarNephew(w: Node, xp: Node, far: Node, isLeft: bool, ghost p: Place, ghost t: Shape)
      requires p.Step? && At(p, t) && isLeft == p.isLeft && p.sib.Branch? && IsRed(Child(p.sib, !isLeft))
      requires w == p.sib.id && xp == p.node && far == Child(p.sib, !isLeft).id
      modifies this`root, nodes`left, nodes`right, nodes`parent, nodes`color
      ensures At(p.up, RemoveTurn(p, t))
    {
      RecolourFar(w, xp, far, isLeft, p, t);
      Rotate(isLeft, xp, p.up, FarPainted(p, t));
    }

    /** The sibling takes the parent's colour, the parent and the far nephew turn black. */
    method RecolourFar(w: Node, xp: Node, far: Node, isLeft: bool, ghost p: Place, ghost t: Shape)
      requires p.Step? && At(p, t) && isLeft == p.isLeft && p.sib.Branch? && IsRed(Child(p.sib, !isLeft))
      requires w == p.sib.id && xp == p.node && far == Child(p.sib, !isLeft).id
      modifies nodes`color
      ensures At(p.up, FarPainted(p, t))
    {
      FocusUp(Snap(nodes), root, p, t);
      FocusDown(Snap(nodes), root, p.up, Grow(p, t));
      ghost var q, u := Across(p, t), Paint(p.sib, p.color);
      FocusAcross(Snap(nodes), root, p, t);
      SetColor(w, xp.color, q, p.sib);
      FocusUp(Snap(nodes), root, q, u);
      SetColor(xp, Black, p.up, Grow(q, u));
      ghost var r := q.(color := Black);
      FocusUp(Snap(nodes), root, r, u);
      FocusDown(Snap(nodes), root, r, u);
      SetColor(far, Black, Down(!isLeft, r, u), Child(u, !isLeft));
      ghost var v := Grow(Down(!isLeft, r, u), Paint(Child(u, !isLeft), Black));
      FocusUp(Snap(nodes), root, Down(!isLeft, r, u), Paint(Child(u, !isLeft), Black));
      FocusUp(Snap(nodes), root, r, v);
    }

    /** Cases 3 and 4, after which the loop stops at the root. */
    method TurnNephews(w0: Node, xp: Node, isLeft: bool, ghost p: Place, ghost t: Shape)
      requires p.Step? && At(p, t) && isLeft == p.isLeft && p.sib.Branch? && !BlackNephews(p)
      requires w0 == p.sib.id && xp == p.node
      modifies this`root, nodes`left, nodes`right, nodes`parent, nodes`color
      ensures At(Top, Plug(p.up, RemoveTurn(p, t)))
    {
      var w := w0;
      ghost var q := p;
      SiblingSites(Snap(nodes), root, p, t);
      var wleft, wright := w.left, w.right;
      if isLeft && (wright == null || wright.color == Black) {
        RotateNearNephew(w, wleft, isLeft, p, t);
        q := NephewUp(p);
        SiblingSites(Snap(nodes), root, q, t);
        w := xp.right;
      } else if !isLeft && (wleft == null || wleft.color == Black) {
        RotateNearNephew(w, wright, isLeft, p, t);
        q := NephewUp(p);
        SiblingSites(Snap(nodes), root, q, t);
        w := xp.left;
      }
      wleft, wright := w.left, w.right;
      if isLeft && wright != null {
        RotateFarNephew(w, xp, wright, isLeft, q, t);
      } else if !isLeft && wleft != null {
        RotateFarNephew(w, xp, wleft, isLeft, q, t);
      }
      FocusTop(Snap(nodes), root, p.up, RemoveTurn(p, t));
    }

    /** The sibling, after a red one has been rotated above the parent: never null. */
    method BlackSibling(xp: Node, isLeft: bool, ghost p: Place, ghost t: Shape, ghost h: nat) returns (w: Node?)
      requires p.Step? && At(p, t) && xp == p.node && isLeft == p.isLeft && !IsRed(t) && RemoveInv(p, t, h)
      modifies this`root, nodes`left, nodes`right, nodes`parent, nodes`color
      ensures var q := RotateSibling(p);
              At(q, t) && RemoveInv(q, t, h) && q.sib.Branch? && !IsRed(q.sib) && w == q.sib.id
    {
      RotateSiblingInv(p, t, h);
      SiblingSites(Snap(nodes), root, p, t);
      w := if isLeft then xp.right else xp.left;
      if w != null && w.color == Red {
        RotateRedSibling(w, xp, isLeft, p, t);
        SiblingSites(Snap(nodes), root, RotateSibling(p), t);
        w := if isLeft then xp.right else xp.left;
      }
    }

    /** One round of the loop: `done` says that cases 3 and 4 have ended it at the root. */
    method RemoveRound(xp: Node, isLeft: bool, ghost p: Place, ghost t: Shape, ghost h: nat)
      returns (x: Node?, xp': Node?, isLeft': bool, ghost done: bool, ghost q: Place, ghost u: Shape, ghost g: nat)
      requires p.Step? && At(p, t) && xp == p.node && isLeft == p.isLeft && !IsRed(t) && RemoveInv(p, t, h)
      modifies this`root, nodes`left, nodes`right, nodes`parent, nodes`color
      ensures At(q, u) && x == Root(u)
      ensures done ==> x == root && q.Top? && Paint(u, Black) == RemoveFix(p, t)
      ensures !done ==> xp' == Above(q) && (q.Step? ==> isLeft' == q.isLeft)
      ensures !done ==> RemoveInv(q, u, g) && RemoveFix(q, u) == RemoveFix(p, t)
      ensures !done ==> RemoveMeasure(q, u) < RemoveMeasure(p, t)
    {
      var w := BlackSibling(xp, isLeft, p, t, h);
      q := RotateSibling(p);
      SiblingSites(Snap(nodes), root, q, t);
      var wleft := if w != null then w.left else null;
      var wright := if w != null then w.right else null;
      if (wleft == null || wleft.color == Black) && (wright == null || wright.color == Black) {
        LiftPlan(p, t, h);
        xp', isLeft' := LiftToParent(w, xp, q, t);
        x := xp;
        u, g, done := LiftDeficit(q, t), if q.color.Red? then h else h + 1, false;
        q := q.up;
      } else {
        TurnNephews(w, xp, isLeft, q, t);
        x, xp', isLeft' := root, xp, isLeft;
        u, g, done := Plug(q.up, RemoveTurn(q, t)), h, true;
        q := Top;
      }
    }

    method RemoveRebalance(
      node: Node?, parent: Node?, nodeIsLeft: bool,
      ghost p0: Place, ghost t0: Shape, ghost h0: nat)
      requires At(p0, t0) && node == Root(t0) && parent == Above(p0) && (p0.Step? ==> nodeIsLeft == p0.isLeft)
      requires RemoveInv(p0, t0, h0)
      modifies this`root, nodes`left, nodes`right, nodes`parent, nodes`color
      ensures At(Top, RemoveFix(p0, t0))
    {
      var x, xp, isLeft := node, parent, nodeIsLeft;
      ghost var done, p, t, h := false, p0, t0, h0;
      while x != root && (x == null || x.color == Black)
        invariant At(p, t) && x == Root(t)
        invariant done ==> x == root && p.Top? && Paint(t, Black) == RemoveFix(p0, t0)
        invariant !done ==> xp == Above(p) && (p.Step? ==> isLeft == p.isLeft)
        invariant !done ==> RemoveInv(p, t, h) && RemoveFix(p, t) == RemoveFix(p0, t0)
        decreases if done then 0 else 1 + RemoveMeasure(p, t)
      {
        x, xp, isLeft, done, p, t, h := RemoveRound(xp, isLeft, p, t, h);
      }
      HoleBelowRoot(Snap(nodes), root, p, t);
      FocusTop(Snap(nodes), root, p, Paint(t, Black));
      if x != null {
        SetColor(x, Black, p, t);
        FocusTop(Snap(nodes), root, p, Paint(t, Black));
      }
    }

    // ----- Removal -----

    /** Takes `y`, which has at most one child, out from between its child and its parent. */
    method Bypass(y: Node, ghost p: Place, ghost t: Shape) returns (x: Node?, xp: Node?, isLeft: bool)
      requires t.Branch? && t.id == y && (t.left.Leaf? || t.right.Leaf?) && At(p, t)
      modifies this`root, nodes`left, nodes`right, nodes`parent
      ensures At(p, OnlyChild(t)) && x == Root(OnlyChild(t)) && xp == Above(p) && (p.Step? ==> isLeft == p.isLeft)
    {
      ghost var m, r := Snap(nodes), root;
      FocusDown(m, root, p, t);
      BypassSites(m, root, p, t);
      if y.left != null {
        x := y.left;
      } else {
        x := y.right;
      }
      if x != null {
        x.parent := y.parent;
        xp := x.parent;
      } else {
        xp := y.parent;
      }
      isLeft := false;
      if y.parent == null {
        root := x;
        xp := null;
      } else {
        var yp := y.parent;
        if y == yp.left {
          yp.left := x;
          isLeft := true;
        } else {
          yp.right := x;
          isLeft := false;
        }
      }
      BypassLinks(m, r, Snap(nodes), root, p, t);
    }

    /** Puts `y`, which is in no tree, in the place of `x`. */
    method SwapFields(x: Node, y: Node)
      requires CanSwap(Snap(nodes), root, x, y)
      modifies this`root, nodes`left, nodes`right, nodes`parent, nodes`color
      ensures SwapsFields(old(Snap(nodes)), old(root), Snap(nodes), root, x, y)
    {
      var left, right, parent := x.left, x.right, x.parent;
      y.parent := parent;
      if parent != null {
        if parent.left == x {
          parent.left := y;
        } else {
          parent.right := y;
        }
      } else {
        if root == x {
          root := y;
        }
      }
      y.right := right;
      if right != null {
        right.parent := y;
      }
      x.right := null;
      y.left := left;
      if left != null {
        left.parent := y;
      }
      x.left := null;
      y.color := x.color;
      x.parent := null;
    }

    method SwapNode(x: Node, y: Node, ghost p: Place, ghost t: Shape)
      requires t.Branch? && t.id == x && At(p, t) && y in nodes && y !in PathNodes(p) && y !in Nodes(t)
      modifies this`root, nodes`left, nodes`right, nodes`parent, nodes`color
      ensures At(p, t.(id := y, key := y.key))
    {
      ghost var m, r := Snap(nodes), root;
      SwapSites(m, r, p, t, y);
      SwapFields(x, y);
      SwapLinks(m, r, Snap(nodes), root, p, t, y);
    }

    /** The links of a removal where `node` itself is taken out. */
    method RemoveShallow(node: Node, ghost p: Place, ghost t: Shape)
      requires At(p, t) && t.Branch? && t.id == node && (t.left.Leaf? || t.right.Leaf?) && RedBlack(Plug(p, t))
      modifies this`root, nodes`left, nodes`right, nodes`parent, nodes`color
      ensures At(Top, RemoveAt(p, t))
    {
      FocusDown(Snap(nodes), root, p, t);
      var yColor := node.color;
      var x, xp, isLeft := Bypass(node, p, t);
      if yColor == Black {
        ghost var h := SpliceInv(p, t);
        RemoveRebalance(x, xp, isLeft, p, OnlyChild(t), h);
      } else {
        FocusTop(Snap(nodes), root, p, OnlyChild(t));
      }
    }

    /** Takes out the successor `y` and puts it in the place of `node`. */
    method Replace(node: Node, y: Node, ghost p: Place, ghost t: Shape) returns (x: Node?, xp: Node?, isLeft: bool)
      requires At(p, t) && t.Branch? && t.id == node && t.right.Branch? && RedBlack(Plug(p, t))
      requires y == Leftmost(Down(false, p, t), t.right).1.id
      modifies this`root, nodes`left, nodes`right, nodes`parent, nodes`color
      ensures var (q, v) := Leftmost(StandIn(p, t), t.right);
              At(q, v.right) && x == Root(v.right) && xp == Above(q) && q.Step? && isLeft == q.isLeft
    {
      ghost var (q, v) := Leftmost(Down(false, p, t), t.right);
      DeepPlan(Snap(nodes), root, p, t);
      DeepRedBlack(p, t);
      DeepParent(p, t);
      assert y.key == v.key;
      x, xp, isLeft := Bypass(y, q, v);
      DeepBack(Snap(nodes), root, p, t);
      SwapNode(node, y, p, t.(right := DropLeftmost(t.right)));
      DeepForth(Snap(nodes), root, p, t);
      if xp == node {
        xp := y;
      }
    }

    /** The links of a removal where the successor `y` is taken out and then stands in for `node`. */
    method RemoveDeep(node: Node, y: Node, ghost p: Place, ghost t: Shape)
      requires At(p, t) && t.Branch? && t.id == node && t.left.Branch? && t.right.Branch? && RedBlack(Plug(p, t))
      requires y == Leftmost(Down(false, p, t), t.right).1.id
      modifies this`root, nodes`left, nodes`right, nodes`parent, nodes`color
      ensures At(Top, RemoveAt(p, t))
    {
      DeepPlan(Snap(nodes), root, p, t);
      DeepRedBlack(p, t);
      var yColor := y.color;
      var x, xp, isLeft := Replace(node, y, p, t);
      ghost var (q, v) := Leftmost(StandIn(p, t), t.right);
      if yColor == Black {
        ghost var h := SpliceInv(q, v);
        RemoveRebalance(x, xp, isLeft, q, v.right, h);
      } else {
        FocusTop(Snap(nodes), root, q, v.right);
      }
    }

    /** Which links to change, and what becomes of `rightmost`. */
    method RemoveLinks(node: Node, ghost p: Place, ghost t: Shape)
      requires At(p, t) && t.Branch? && t.id == node && RedBlack(Plug(p, t))
      modifies this`root, this`rightmost, nodes`left, nodes`right, nodes`parent, nodes`color
      ensures At(Top, RemoveAt(p, t))
      ensures rightmost == if (t.left.Leaf? || t.right.Leaf?) && old(rightmost) == node
                           then LastOf(Before(p) + InOrder(t.left)) else old(rightmost)
    {
      FocusDown(Snap(nodes), root, p, t);
      if node.left == null || node.right == null {
        if node == rightmost {
          rightmost := PredecessorAt(node, p, t);
        }
        RemoveShallow(node, p, t);
      } else {
        var y := SuccessorAt(node, p, t);
        LeftmostOrder(Down(false, p, t), t.right);
        RemoveDeep(node, y, p, t);
      }
    }

    /** Clears the links of a node that is no longer part of the tree. */
    method Forget(node: Node, ghost t: Shape)
      requires node in nodes && node !in Nodes(t) && At(Top, t)
      modifies this`nodes, node
      ensures nodes == old(nodes) - {node} && At(Top, t)
      ensures node.left == null && node.right == null && node.parent == null
    {
      ghost var m := Snap(nodes);
      node.parent, node.left, node.right := null, null, null;
      nodes := nodes - {node};
      LinkedFrame(m, Snap(nodes), {node}, t, null);
    }

    method Unlink(node: Node, ghost p: Place, ghost t: Shape)
      requires At(p, t) && t.Branch? && t.id == node && RedBlack(Plug(p, t))
      requires Nodes(RemoveAt(p, t)) == nodes - {node}
      modifies this`root, this`rightmost, this`nodes, this`tree, nodes
      ensures nodes == old(nodes) - {node} && tree == RemoveAt(p, t) && At(Top, tree)
      ensures node.left == null && node.right == null && node.parent == null
      ensures rightmost == if (t.left.Leaf? || t.right.Leaf?) && old(rightmost) == node
                           then LastOf(Before(p) + InOrder(t.left)) else old(rightmost)
    {
      RemoveLinks(node, p, t);
      tree := RemoveAt(p, t);
      Forget(node, tree);
    }

    /** Removes a member node; afterwards it has no links and may be inserted again. */
    method Remove(node: Node)
      requires Valid() && node in nodes
      modifies this, nodes
      ensures Valid() && used
      ensures node in Bag(old(tree)) && tree == RbTheorems.Remove(old(tree), node)
      ensures nodes == old(nodes) - {node} && node.left == null && node.right == null && node.parent == null
    {
      ghost var u, p, t := Plan(node);
      Unlink(node, p, t);
    }

    lemma Plan(node: Node) returns (u: Shape, p: Place, t: Shape)
      requires Valid() && node in nodes
      ensures At(p, t) && t.Branch? && t.id == node && RedBlack(Plug(p, t))
      ensures node in Bag(tree) && u == RbTheorems.Remove(tree, node) && u == RemoveAt(p, t)
      ensures Good(compare, u) && Nodes(u) == nodes - {node}
      ensures Last(u) == if (t.left.Leaf? || t.right.Leaf?) && rightmost == node
                         then LastOf(Before(p) + InOrder(t.left)) else rightmost
    {
      RemovePlan(compare, tree, node);
      u := RbTheorems.Remove(tree, node);
      p, t := Member(node);
    }

    // ----- Reading off the whole tree -----

    /** The greatest node, once anything has been inserted. */
    method GetRightmost() returns (node: Node?)
      requires Valid() && used
      ensures node == if tree.Leaf? then null else InOrder(tree)[|InOrder(tree)| - 1].0
    {
      node := rightmost;
    }

    /** Going from the minimum through successors visits every node once, in key order. */
    method Walk() returns (s: seq<Node>)
      requires Valid()
      ensures s == Ids(InOrder(tree))
    {
      s := [];
      if root == null {
        return;
      }
      var x: Node?, _, _ := Minimum(root, Top, tree);
      while x != null
        invariant |s| <= |InOrder(tree)| && s == Ids(InOrder(tree))[..|s|]
        invariant x == if |s| < |InOrder(tree)| then InOrder(tree)[|s|].0 else null
        decreases |InOrder(tree)| - |s|
      {
        var y := FindSuccessor(x, |s|);
        s := s + [x];
        x := y;
      }
    }
  }
}

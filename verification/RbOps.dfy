/**
 * What insertion and removal compute, as functions on tree values, and the proof that the
 * red-black invariants and the in-order sequence come out right.
 */
module RbOps {
  import opened RbSpec

  lemma PlugSameOrder<N, K>(p: Path<N, K>, t: Tree<N, K>, u: Tree<N, K>)
    requires InOrder(t) == InOrder(u)
    ensures InOrder(Plug(p, t)) == InOrder(Plug(p, u))
  {
    InOrderPlug(p, t);
    InOrderPlug(p, u);
  }

  /** `v` is `u` with its child on side `l` rotated up, whatever the colours. */
  ghost predicate Rotated<N, K>(l: bool, u: Tree<N, K>, v: Tree<N, K>) {
    && u.Branch? && Child(u, l).Branch? && v.Branch? && Child(v, !l).Branch?
    && var (x, y) := (Child(u, l), Child(v, !l));
    && v.id == x.id && v.key == x.key && y.id == u.id && y.key == u.key
    && Child(v, l) == Child(x, l) && Child(y, l) == Child(x, !l) && Child(y, !l) == Child(u, !l)
  }

  lemma RotationKeepsOrder<N, K>(l: bool, u: Tree<N, K>, v: Tree<N, K>)
    requires Rotated(l, u, v)
    ensures InOrder(u) == InOrder(v)
  {
  }

  // ----- Rebalancing after an insertion -----

  /** Cases 2 and 3: the uncle is black, so one or two rotations rebuild the grandparent's subtree. */
  function InsertTurn<N, K>(p: Path<N, K>, t: Tree<N, K>): Tree<N, K>
    requires p.Step? && p.up.Step? && t.Branch?
  {
    var g := p.up;
    if p.isLeft == g.isLeft then
      Join(g.isLeft, t, p.node, p.key, Black, Join(g.isLeft, p.sib, g.node, g.key, Red, g.sib))
    else
      Join(g.isLeft,
           Join(g.isLeft, p.sib, p.node, p.key, p.color, Child(t, g.isLeft)),
           t.id, t.key, Black,
           Join(g.isLeft, Child(t, !g.isLeft), g.node, g.key, Red, g.sib))
  }

  /** Case 1: the uncle is red, so recolour and carry the red up to the grandparent. */
  function InsertRecolour<N, K>(p: Path<N, K>, t: Tree<N, K>): Tree<N, K>
    requires p.Step? && p.up.Step?
  {
    var g := p.up;
    Join(g.isLeft, Join(p.isLeft, t, p.node, p.key, Black, p.sib), g.node, g.key, Red, Paint(g.sib, Black))
  }

  /** The tree that rebalancing leaves when the red subtree `t` has just been hung from `p`. */
  function InsertFix<N, K>(p: Path<N, K>, t: Tree<N, K>): Tree<N, K>
    decreases p
  {
    if p.Top? || p.color.Black? || p.up.Top? || t.Leaf? then Paint(Plug(p, t), Black)
    else if IsRed(p.up.sib) then InsertFix(p.up.up, InsertRecolour(p, t))
    else Paint(Plug(p.up.up, InsertTurn(p, t)), Black)
  }

  lemma TurnKeepsOrder<N, K>(p: Path<N, K>, t: Tree<N, K>)
    requires p.Step? && p.up.Step? && t.Branch?
    ensures InOrder(Plug(p.up.up, InsertTurn(p, t))) == InOrder(Plug(p, t))
  {
    var g := p.up;
    var u := Join(g.isLeft, Join(p.isLeft, t, p.node, p.key, p.color, p.sib), g.node, g.key, g.color, g.sib);
    var l, v := g.isLeft, InsertTurn(p, t);
    if p.isLeft == l {
      RotationKeepsOrder(l, u, v);
    } else {
      var x := Join(l, Child(v, l), t.id, t.key, t.color, Child(t, !l));
      RotationKeepsOrder(!l, Join(p.isLeft, t, p.node, p.key, p.color, p.sib), x);
      RotationKeepsOrder(l, Join(l, x, g.node, g.key, g.color, g.sib), v);
    }
    PlugSameOrder(g.up, v, u);
  }

  lemma RecolourKeepsOrder<N, K>(p: Path<N, K>, t: Tree<N, K>)
    requires p.Step? && p.up.Step?
    ensures InOrder(Plug(p.up.up, InsertRecolour(p, t))) == InOrder(Plug(p, t))
  {
    var g := p.up;
    var u := Join(g.isLeft, Join(p.isLeft, t, p.node, p.key, p.color, p.sib), g.node, g.key, g.color, g.sib);
    PlugSameOrder(g.up, InsertRecolour(p, t), u);
  }

  /** Rebalancing after an insertion neither adds, drops nor moves an entry. */
  lemma {:induction false} InsertFixKeepsOrder<N, K>(p: Path<N, K>, t: Tree<N, K>)
    ensures InOrder(InsertFix(p, t)) == InOrder(Plug(p, t))
    decreases p
  {
    if p.Top? || p.color.Black? || p.up.Top? || t.Leaf? {
    } else if IsRed(p.up.sib) {
      InsertFixKeepsOrder(p.up.up, InsertRecolour(p, t));
      RecolourKeepsOrder(p, t);
    } else {
      TurnKeepsOrder(p, t);
    }
  }

  /** The insertion loop's invariant: all is well except that the red `t` may hang from a red node. */
  ghost predicate InsertInv<N, K>(p: Path<N, K>, t: Tree<N, K>, h: nat) {
    IsRed(t) && RB(t, h) && PathRB(p, h)
  }

  lemma RecolourInv<N, K>(p: Path<N, K>, t: Tree<N, K>, h: nat)
    requires InsertInv(p, t, h) && p.Step? && p.color.Red?
    ensures p.up.Step? && p.up.color.Black?
    ensures IsRed(p.up.sib) ==> InsertInv(p.up.up, InsertRecolour(p, t), h + 1)
  {
    assert PathRB(p.up, h);
    assert RB(Paint(p.up.sib, Black), if IsRed(p.up.sib) then h + 1 else h);
    assert RB(Join(p.isLeft, t, p.node, p.key, Black, p.sib), h + 1);
  }

  lemma TurnRB<N, K>(p: Path<N, K>, t: Tree<N, K>, h: nat)
    requires InsertInv(p, t, h) && p.Step? && p.color.Red? && p.up.Step? && !IsRed(p.up.sib)
    ensures RB(InsertTurn(p, t), h + 1) && !IsRed(InsertTurn(p, t)) && PathRB(p.up.up, h + 1)
  {
    assert PathRB(p.up, h);
    var v := InsertTurn(p, t);
    assert RB(v.left, h) && RB(v.right, h);
  }

  /** Rebalancing after an insertion ends in a red-black tree. */
  lemma {:induction false} InsertFixRedBlack<N, K>(p: Path<N, K>, t: Tree<N, K>, h: nat)
    requires InsertInv(p, t, h)
    ensures RedBlack(InsertFix(p, t))
    decreases p
  {
    if p.Top? {
      assert RB(Paint(t, Black), h + 1);
    } else if p.color.Black? {
      PlugRB(p, t, h);
    } else {
      RecolourInv(p, t, h);
      if IsRed(p.up.sib) {
        InsertFixRedBlack(p.up.up, InsertRecolour(p, t), h + 1);
      } else {
        TurnRB(p, t, h);
        PlugRB(p.up.up, InsertTurn(p, t), h + 1);
      }
    }
  }

  // ----- Rebalancing after a removal -----

  /** The only child of a node with at most one child. */
  function OnlyChild<N, K>(y: Tree<N, K>): Tree<N, K>
    requires y.Branch?
  {
    if y.left.Branch? then y.left else y.right
  }

  /** Case 1: a red sibling is rotated above the parent, so that the sibling is black afterwards. */
  function RotateSibling<N, K>(p: Path<N, K>): (q: Path<N, K>)
    requires p.Step?
    ensures q.Step?
  {
    var w := p.sib;
    if !IsRed(w) then p
    else
      Step(p.isLeft,
           Step(p.isLeft, p.up, w.id, w.key, Black, Child(w, !p.isLeft)),
           p.node, p.key, Red, Child(w, p.isLeft))
  }

  /** Case 2: the sibling and its children are black, so the missing black moves up. */
  function LiftDeficit<N, K>(p: Path<N, K>, t: Tree<N, K>): Tree<N, K>
    requires p.Step?
  {
    Join(p.isLeft, t, p.node, p.key, p.color, Paint(p.sib, Red))
  }

  /** Cases 3 and 4: a red child of the black sibling pays for the missing black. */
  function RemoveTurn<N, K>(p: Path<N, K>, t: Tree<N, K>): Tree<N, K>
    requires p.Step? && p.sib.Branch?
    requires IsRed(Child(p.sib, p.isLeft)) || IsRed(Child(p.sib, !p.isLeft))
  {
    var w := p.sib;
    var near, far := Child(w, p.isLeft), Child(w, !p.isLeft);
    if IsRed(far) then
      Join(p.isLeft, Join(p.isLeft, t, p.node, p.key, Black, near), w.id, w.key, p.color, Paint(far, Black))
    else
      Join(p.isLeft,
           Join(p.isLeft, t, p.node, p.key, Black, Child(near, p.isLeft)),
           near.id, near.key, p.color,
           Join(p.isLeft, Child(near, !p.isLeft), w.id, w.key, Black, far))
  }

  predicate BlackNephews<N, K>(p: Path<N, K>)
    requires p.Step?
  {
    p.sib.Leaf? || (!IsRed(p.sib.left) && !IsRed(p.sib.right))
  }

  function Depth<N, K>(p: Path<N, K>): nat {
    if p.Top? then 0 else 1 + Depth(p.up)
  }

  /** The tree that rebalancing leaves when the subtree `t` hung from `p` is one black short. */
  function RemoveFix<N, K>(p: Path<N, K>, t: Tree<N, K>): Tree<N, K>
    decreases if IsRed(t) then 0 else 1 + Depth(p)
  {
    if p.Top? || IsRed(t) then Plug(p, Paint(t, Black))
    else
      var q := RotateSibling(p);
      if BlackNephews(q) then RemoveFix(q.up, LiftDeficit(q, t))
      else Paint(Plug(q.up, RemoveTurn(q, t)), Black)
  }

  lemma RotateSiblingKeepsOrder<N, K>(p: Path<N, K>, t: Tree<N, K>)
    requires p.Step?
    ensures InOrder(Plug(RotateSibling(p), t)) == InOrder(Plug(p, t))
  {
    var w := p.sib;
    if IsRed(w) {
      var u := Join(p.isLeft, t, p.node, p.key, p.color, w);
      var v := Join(p.isLeft, Join(p.isLeft, t, p.node, p.key, Red, Child(w, p.isLeft)),
                    w.id, w.key, Black, Child(w, !p.isLeft));
      RotationKeepsOrder(!p.isLeft, u, v);
      PlugSameOrder(p.up, u, v);
    }
  }

  lemma LiftKeepsOrder<N, K>(p: Path<N, K>, t: Tree<N, K>)
    requires p.Step?
    ensures InOrder(Plug(p.up, LiftDeficit(p, t))) == InOrder(Plug(p, t))
  {
    PlugSameOrder(p.up, LiftDeficit(p, t), Join(p.isLeft, t, p.node, p.key, p.color, p.sib));
  }

  lemma RemoveTurnKeepsOrder<N, K>(p: Path<N, K>, t: Tree<N, K>)
    requires p.Step? && !BlackNephews(p)
    ensures InOrder(Plug(p.up, RemoveTurn(p, t))) == InOrder(Plug(p, t))
  {
    var u := Join(p.isLeft, t, p.node, p.key, p.color, p.sib);
    var l, v, w := p.isLeft, RemoveTurn(p, t), p.sib;
    var near, far := Child(w, l), Child(w, !l);
    if IsRed(far) {
      assert InOrder(Paint(far, Black)) == InOrder(far);
      RotationKeepsOrder(!l, u, Join(l, Join(l, t, p.node, p.key, Black, near), w.id, w.key, p.color, far));
    } else {
      var x := Join(l, Child(near, l), near.id, near.key, Black, Child(v, !l));
      RotationKeepsOrder(l, w, x);
      RotationKeepsOrder(!l, Join(l, t, p.node, p.key, p.color, x), v);
    }
    PlugSameOrder(p.up, v, u);
  }

  /** Rebalancing after a removal neither adds, drops nor moves an entry. */
  lemma {:induction false} RemoveFixKeepsOrder<N, K>(p: Path<N, K>, t: Tree<N, K>)
    ensures InOrder(RemoveFix(p, t)) == InOrder(Plug(p, t))
    decreases if IsRed(t) then 0 else 1 + Depth(p)
  {
    if p.Top? || IsRed(t) {
      PlugSameOrder(p, Paint(t, Black), t);
    } else {
      var q := RotateSibling(p);
      RotateSiblingKeepsOrder(p, t);
      if BlackNephews(q) {
        LiftKeepsOrder(q, t);
        RemoveFixKeepsOrder(q.up, LiftDeficit(q, t));
      } else {
        RemoveTurnKeepsOrder(q, t);
      }
    }
  }

  /**
   * The removal loop's invariant: the path wants black height `h + 1` and the subtree has `h`.
   * A red subtree may have red children, because it is about to be painted black.
   */
  ghost predicate RemoveInv<N, K>(p: Path<N, K>, t: Tree<N, K>, h: nat) {
    && PathRB(p, h + 1)
    && if IsRed(t) then RB(t.left, h) && RB(t.right, h) else RB(t, h)
  }

  /** After case 1 the sibling is a black node: it is never NULL. */
  lemma RotateSiblingInv<N, K>(p: Path<N, K>, t: Tree<N, K>, h: nat)
    requires RemoveInv(p, t, h) && p.Step? && !IsRed(t)
    ensures p.sib.Branch?
    ensures var q := RotateSibling(p); RemoveInv(q, t, h) && q.sib.Branch? && !IsRed(q.sib)
  {
  }

  lemma RemoveTurnRB<N, K>(p: Path<N, K>, t: Tree<N, K>, h: nat)
    requires RemoveInv(p, t, h) && p.Step? && !IsRed(t)
    requires p.sib.Branch? && !IsRed(p.sib) && !BlackNephews(p)
    ensures var g := if p.color.Red? then h + 1 else h + 2;
            && RB(RemoveTurn(p, t), g) && PathRB(p.up, g)
            && (IsRed(RemoveTurn(p, t)) ==> !NeedsBlack(p.up))
  {
    var v, near, far := RemoveTurn(p, t), Child(p.sib, p.isLeft), Child(p.sib, !p.isLeft);
    assert RB(near, h) && RB(far, h);
    assert RB(v.left, h + 1) && RB(v.right, h + 1);
  }

  /** Rebalancing after a removal ends in a red-black tree. */
  lemma {:induction false} RemoveFixRedBlack<N, K>(p: Path<N, K>, t: Tree<N, K>, h: nat)
    requires RemoveInv(p, t, h)
    ensures RedBlack(RemoveFix(p, t))
    decreases if IsRed(t) then 0 else 1 + Depth(p)
  {
    if IsRed(t) {
      PlugRB(p, Paint(t, Black), h + 1);
    } else if p.Top? {
      PlugRB(p, t, h);
    } else {
      var q := RotateSibling(p);
      RotateSiblingInv(p, t, h);
      if BlackNephews(q) {
        RemoveFixRedBlack(q.up, LiftDeficit(q, t), if q.color.Red? then h else h + 1);
      } else {
        RemoveTurnRB(q, t, h);
        PlugRB(q.up, RemoveTurn(q, t), if q.color.Red? then h + 1 else h + 2);
      }
    }
  }
}

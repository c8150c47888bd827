/** Circular doubly linked lists of entries that are rewritten in place. */
module Lists {

  /** A list head or an item. A deleted item's links are poisoned: they lead to no entry. */
  class Entry {
    var prev: Entry?
    var next: Entry?

    constructor ()
      ensures List(this, [])
    {
      prev, next := this, this;
      new;
      assert Round(this, []) == [this, this];
      assert JoinedAt(Round(this, []), 0);
    }
  }

  ghost predicate Joined(a: Entry, b: Entry)
    reads a, b
  {
    a.next == b && b.prev == a
  }

  ghost predicate JoinedAt(c: seq<Entry>, i: nat)
    reads set e | e in c
  {
    i + 1 < |c| && Joined(c[i], c[i + 1])
  }

  ghost predicate Distinct(c: seq<Entry>) {
    forall i, j :: 0 <= i < j < |c| ==> c[i] != c[j]
  }

  /** Once around the list, from the head back to the head. */
  ghost function Round(head: Entry, items: seq<Entry>): seq<Entry> {
    [head] + items + [head]
  }

  /** The links both ways run through exactly these items. */
  ghost predicate List(head: Entry, items: seq<Entry>)
    reads set e | e in [head] + items
  {
    && Distinct([head] + items)
    && var c := Round(head, items);
       assert forall e :: e in c ==> e in [head] + items;
       forall i: nat :: i + 1 < |c| ==> JoinedAt(c, i)
  }

  ghost function Inserted(items: seq<Entry>, k: nat, node: Entry): seq<Entry>
    requires k <= |items|
  {
    items[..k] + [node] + items[k..]
  }

  method Init(node: Entry)
    modifies node
    ensures List(node, [])
  {
    node.prev := node;
    node.next := node;
    assert JoinedAt(Round(node, []), 0);
  }

  /** Every entry is left once and reached once on the way around. */
  lemma OnceAround(head: Entry, items: seq<Entry>, i: nat, j: nat)
    requires Distinct([head] + items) && i <= |items| && j <= |items|
    ensures var c := Round(head, items); (c[i] == c[j] <==> i == j) && (c[i + 1] == c[j + 1] <==> i == j)
  {
    var all, c := [head] + items, Round(head, items);
    assert c[i] == all[i] && c[j] == all[j] && all[0] == head;
    assert i == |items| ==> c[i + 1] == head;
    assert j == |items| ==> c[j + 1] == head;
    assert i < |items| ==> c[i + 1] == all[i + 1];
    assert j < |items| ==> c[j + 1] == all[j + 1];
  }

  lemma InsertedDistinct(head: Entry, items: seq<Entry>, k: nat, node: Entry)
    requires Distinct([head] + items) && k <= |items| && node !in [head] + items
    ensures Distinct([head] + Inserted(items, k, node))
  {
    var all, more := [head] + items, [head] + Inserted(items, k, node);
    forall i, j | 0 <= i < j < |more|
      ensures more[i] != more[j]
    {
      assert i != k + 1 ==> more[i] == all[if i <= k then i else i - 1];
      assert j != k + 1 ==> more[j] == all[if j <= k then j else j - 1];
    }
  }

  /**
   * Links the node in between its neighbours-to-be.  A node that is in the list already, linked in
   * once more at the end, leaves links that are no list at all.
   */
  method Add(node: Entry, prev: Entry, next: Entry, ghost head: Entry, ghost items: seq<Entry>, ghost k: nat)
    requires List(head, items) && node != head && k <= |items|
    requires prev == Round(head, items)[k] && next == Round(head, items)[k + 1]
    modifies node, prev, next
    ensures node !in items ==> List(head, Inserted(items, k, node))
    ensures node in items && k == |items| ==> Broken(head, items)
  {
    ghost var c, d := Round(head, items), Round(head, Inserted(items, k, node));
    prev.next := node;
    node.prev := prev;
    next.prev := node;
    node.next := next;
    if node !in items {
      InsertedDistinct(head, items, k, node);
      assert d == c[..k + 1] + [node] + c[k + 1..];
      forall i: nat | i + 1 < |d|
        ensures JoinedAt(d, i)
      {
        if i < k || i > k + 1 {
          ghost var was := if i < k then i else i - 1;
          assert old(JoinedAt(c, was));
          OnceAround(head, items, was, k);
          assert c[was] in [head] + items && c[was + 1] in [head] + items;
        }
      }
    } else if k == |items| {
      ghost var m: nat :| m < |items| && items[m] == node;
      forall i: nat | i <= m
        ensures LeadsOn(c, head, i)
      {
        assert old(JoinedAt(c, i));
        OnceAround(head, items, i, k);
        OnceAround(head, items, i, m + 1);
      }
      OnceAround(head, items, m, k);
      assert BrokenAt(head, items, m);
    }
  }

  /** The i-th entry leads on to the next one, which is not the head. */
  ghost predicate LeadsOn(c: seq<Entry>, head: Entry, i: nat)
    reads set e | e in c
  {
    i + 1 < |c| && c[i].next == c[i + 1] && c[i + 1] != head
  }

  /** The links lead on from the head to the m-th item, which does not lead back to where they came from. */
  ghost predicate BrokenAt(head: Entry, items: seq<Entry>, m: nat)
    reads set e | e in [head] + items
  {
    assert forall e :: e in Round(head, items) ==> e in [head] + items;
    && m < |items| && items[m].prev != Round(head, items)[m]
    && forall k: nat :: k <= m ==> LeadsOn(Round(head, items), head, k)
  }

  ghost predicate Broken(head: Entry, items: seq<Entry>)
    reads set e | e in [head] + items
  {
    exists m: nat :: BrokenAt(head, items, m)
  }

  /** Broken links are no list of anything. */
  lemma BrokenNoList(head: Entry, items: seq<Entry>, t: seq<Entry>)
    requires Broken(head, items)
    ensures !List(head, t)
  {
    var m: nat :| BrokenAt(head, items, m);
    if List(head, t) {
      BackAgain(head, items, m, t);
    }
  }

  /** The way along `next` from the head is the same as far as the links are. */
  lemma {:induction false} SameWay(head: Entry, items: seq<Entry>, m: nat, t: seq<Entry>, i: nat)
    requires List(head, t) && i <= m + 1 && m < |items|
    requires forall k: nat :: k <= m ==> LeadsOn(Round(head, items), head, k)
    ensures i <= |t| && Round(head, t)[i] == Round(head, items)[i]
  {
    if i > 0 {
      SameWay(head, items, m, t, i - 1);
      assert LeadsOn(Round(head, items), head, i - 1);
      assert JoinedAt(Round(head, t), i - 1);
    }
  }

  /** In a list, `prev` leads back to where `next` came from. */
  lemma BackAgain(head: Entry, items: seq<Entry>, m: nat, t: seq<Entry>)
    requires List(head, t) && m < |items|
    requires forall k: nat :: k <= m ==> LeadsOn(Round(head, items), head, k)
    ensures items[m].prev == Round(head, items)[m]
  {
    SameWay(head, items, m, t, m);
    assert LeadsOn(Round(head, items), head, m);
    assert JoinedAt(Round(head, t), m);
  }

  method InsertAt(pos: Entry, node: Entry, ghost head: Entry, ghost items: seq<Entry>, ghost k: nat)
    requires List(head, items) && node !in [head] + items && k <= |items| && pos == ([head] + items)[k]
    modifies node, pos, pos.next
    ensures List(head, Inserted(items, k, node))
  {
    assert JoinedAt(Round(head, items), k);
    Add(node, pos, pos.next, head, items, k);
  }

  /** The node becomes the last item; one that is an item already destroys the list. */
  method Append(head: Entry, node: Entry, ghost items: seq<Entry>)
    requires List(head, items) && node != head
    modifies node, head, head.prev
    ensures node !in items ==> List(head, items + [node])
    ensures node in items ==> Broken(head, items)
  {
    assert JoinedAt(Round(head, items), |items|);
    Add(node, head.prev, head, head, items, |items|);
    assert Inserted(items, |items|, node) == items + [node];
  }

  method Prepend(head: Entry, node: Entry, ghost items: seq<Entry>)
    requires List(head, items) && node !in [head] + items
    modifies node, head, head.next
    ensures List(head, [node] + items)
  {
    assert JoinedAt(Round(head, items), 0);
    Add(node, head, head.next, head, items, 0);
    assert Inserted(items, 0, node) == [node] + items;
  }

  ghost function Removed(items: seq<Entry>, k: nat): seq<Entry>
    requires k < |items|
  {
    items[..k] + items[k + 1..]
  }

  /** The item's neighbours are linked to each other, and its own links poisoned. */
  method Del(node: Entry, ghost head: Entry, ghost items: seq<Entry>, ghost k: nat)
    requires List(head, items) && k < |items| && items[k] == node
    modifies node, node.prev, node.next
    ensures List(head, Removed(items, k)) && node.prev == null && node.next == null
  {
    ghost var c, d := Round(head, items), Round(head, Removed(items, k));
    assert c[k + 1] == node && JoinedAt(c, k) && JoinedAt(c, k + 1);
    var prev, next := node.prev, node.next;
    prev.next := next;
    next.prev := prev;
    node.next := null;
    node.prev := null;
    assert d == c[..k + 1] + c[k + 2..];
    RemovedDistinct(head, items, k);
    forall i: nat | i + 1 < |d|
      ensures JoinedAt(d, i)
    {
      OnceAround(head, items, k, k + 1);
      if i != k {
        ghost var was := if i < k then i else i + 1;
        assert old(JoinedAt(c, was));
        OnceAround(head, items, was, k);
        OnceAround(head, items, was, k + 1);
      }
    }
  }

  lemma RemovedDistinct(head: Entry, items: seq<Entry>, k: nat)
    requires Distinct([head] + items) && k < |items|
    ensures Distinct([head] + Removed(items, k)) && items[k] !in [head] + Removed(items, k)
  {
    var all, fewer := [head] + items, [head] + Removed(items, k);
    forall i | 0 <= i < |fewer|
      ensures fewer[i] == all[if i <= k then i else i + 1] && fewer[i] != all[k + 1]
    {
    }
  }

  // ----- Splicing -----

  /** What splicing takes from a list: its items, or the head itself if it has none. */
  ghost function Taken(head: Entry, items: seq<Entry>): seq<Entry> {
    if items == [] then [head] else items
  }

  lemma TakenEnds(head: Entry, items: seq<Entry>)
    requires List(head, items)
    ensures head.next == Taken(head, items)[0] && head.prev == Taken(head, items)[|Taken(head, items)| - 1]
  {
    assert JoinedAt(Round(head, items), 0) && JoinedAt(Round(head, items), |items|);
  }

  lemma TakenJoined(head: Entry, items: seq<Entry>, i: nat)
    requires List(head, items) && i + 1 < |Taken(head, items)|
    ensures JoinedAt(Taken(head, items), i)
  {
    assert JoinedAt(Round(head, items), i + 1);
    assert Round(head, items)[i + 1] == items[i] && Round(head, items)[i + 2] == items[i + 1];
  }

  /** The target heads an operand without items, which splicing takes for an item. */
  ghost predicate HeadsEmpty(target: Entry, first: Entry, second: Entry, s: seq<Entry>, t: seq<Entry>) {
    (target == first && s == []) || (target == second && t == [])
  }

  /**
   * The target becomes the head of what is taken from the first list and then from the second.
   * These are the items of both lists exactly when neither is empty.
   */
  method Splice(target: Entry, first: Entry, second: Entry, ghost s: seq<Entry>, ghost t: seq<Entry>)
    requires List(first, s) && List(second, t) && Distinct([first] + s + ([second] + t))
    requires target !in s && target !in t
    modifies target, first.prev, first.next, second.prev, second.next
    ensures !HeadsEmpty(target, first, second, s, t) ==> List(target, Taken(first, s) + Taken(second, t))
    ensures List(target, s + t) <==> s != [] && t != []
  {
    ghost var a, b := Taken(first, s), Taken(second, t);
    ghost var d := Round(target, a + b);
    TakenEnds(first, s);
    TakenEnds(second, t);
    TakenDistinct(target, first, second, s, t);
    SplicePlan(target, first, second, s, t);
    var firstPrev, firstNext, secondPrev, secondNext := first.prev, first.next, second.prev, second.next;
    firstPrev.next := secondNext;
    secondNext.prev := firstPrev;
    secondPrev.next := target;
    firstNext.prev := target;
    target.prev := secondPrev;
    target.next := firstNext;
    if !HeadsEmpty(target, first, second, s, t) {
      forall i: nat | i + 1 < |d|
        ensures JoinedAt(d, i)
      {
        assert i != 0 && i != |a| && i != |a + b| ==> old(JoinedAt(d, i));
        OnceAround(target, a + b, i, 0);
        OnceAround(target, a + b, i, |a|);
        OnceAround(target, a + b, i, |a + b|);
      }
      SpliceExact(target, first, second, s, t);
    } else {
      NotTheItems(target, first, second, s, t, a[0], b[|b| - 1]);
    }
  }

  lemma TakenDistinct(target: Entry, first: Entry, second: Entry, s: seq<Entry>, t: seq<Entry>)
    requires Distinct([first] + s + ([second] + t)) && target !in s && target !in t
    ensures !HeadsEmpty(target, first, second, s, t) ==> Distinct([target] + (Taken(first, s) + Taken(second, t)))
    ensures first != second && first !in t && second !in s
    ensures Taken(first, s)[0] != Taken(second, t)[|Taken(second, t)| - 1]
  {
    Apart([first] + s, [second] + t);
    TakenPart(first, s);
    TakenPart(second, t);
    assert first in [first] + s && second in [second] + t;
    assert forall e :: e in s ==> e in [first] + s;
    assert forall e :: e in t ==> e in [second] + t;
    Together(Taken(first, s), Taken(second, t));
    assert Taken(first, s)[0] in Taken(first, s) && Taken(second, t)[|Taken(second, t)| - 1] in Taken(second, t);
    if !HeadsEmpty(target, first, second, s, t) {
      Together([target], Taken(first, s) + Taken(second, t));
    }
  }

  lemma TakenPart(head: Entry, items: seq<Entry>)
    requires Distinct([head] + items)
    ensures Distinct(Taken(head, items)) && forall e :: e in Taken(head, items) ==> e in [head] + items
  {
    var all := [head] + items;
    assert forall i :: 0 <= i < |items| ==> items[i] == all[i + 1];
  }

  lemma Apart(a: seq<Entry>, b: seq<Entry>)
    requires Distinct(a + b)
    ensures Distinct(a) && Distinct(b) && forall e :: e in a ==> e !in b
  {
    var c := a + b;
    assert forall i :: 0 <= i < |a| ==> c[i] == a[i];
    assert forall i :: 0 <= i < |b| ==> c[|a| + i] == b[i];
  }

  lemma Together(a: seq<Entry>, b: seq<Entry>)
    requires Distinct(a) && Distinct(b) && forall e :: e in a ==> e !in b
    ensures Distinct(a + b)
  {
    var c := a + b;
    forall i, j | 0 <= i < j < |c|
      ensures c[i] != c[j]
    {
      if i < |a| <= j {
        assert c[i] in a && c[j] in b;
      }
    }
  }

  /** An operand's head taken for an item, and overwritten as the target, leaves links that are no list of the items. */
  lemma NotTheItems(target: Entry, first: Entry, second: Entry, s: seq<Entry>, t: seq<Entry>, next: Entry, prev: Entry)
    requires HeadsEmpty(target, first, second, s, t) && target !in s && target !in t && first != second
    requires target.next == Taken(first, s)[0] && target.prev == Taken(second, t)[|Taken(second, t)| - 1]
    requires next == Taken(first, s)[0] && prev == Taken(second, t)[|Taken(second, t)| - 1] && next != prev
    ensures !List(target, s + t)
  {
    if List(target, s + t) {
      TakenEnds(target, s + t);
    }
  }

  lemma SplicePlan(target: Entry, first: Entry, second: Entry, s: seq<Entry>, t: seq<Entry>)
    requires List(first, s) && List(second, t)
    ensures var (a, b) := (Taken(first, s), Taken(second, t));
            var d := Round(target, a + b);
            && d[0] == target && d[1] == a[0] && d[|a|] == a[|a| - 1] && d[|a| + 1] == b[0]
            && d[|a + b|] == b[|b| - 1] && d[|a + b| + 1] == target
            && (forall i: nat :: 0 < i < |a + b| && i != |a| ==> JoinedAt(d, i))
  {
    var (a, b) := (Taken(first, s), Taken(second, t));
    var d := Round(target, a + b);
    forall i: nat | 0 < i < |a + b| && i != |a|
      ensures JoinedAt(d, i)
    {
      if i < |a| {
        TakenJoined(first, s, i - 1);
        assert d[i] == a[i - 1] && d[i + 1] == a[i];
      } else {
        TakenJoined(second, t, i - |a| - 1);
        assert d[i] == b[i - |a| - 1] && d[i + 1] == b[i - |a|];
      }
    }
  }

  lemma SpliceExact(target: Entry, first: Entry, second: Entry, s: seq<Entry>, t: seq<Entry>)
    requires List(target, Taken(first, s) + Taken(second, t))
    ensures List(target, s + t) <==> s != [] && t != []
  {
    if List(target, s + t) {
      Unique(target, s + t, Taken(first, s) + Taken(second, t));
    }
  }

  // ----- Looking at a list -----

  method Empty(head: Entry, ghost items: seq<Entry>) returns (r: bool)
    requires List(head, items)
    ensures r <==> items == []
  {
    TakenEnds(head, items);
    assert items != [] ==> ([head] + items)[0] != ([head] + items)[1];
    r := head.next == head;
  }

  method IsLast(head: Entry, item: Entry, ghost items: seq<Entry>, ghost k: nat) returns (r: bool)
    requires List(head, items) && k < |items| && items[k] == item
    ensures r <==> k == |items| - 1
  {
    assert JoinedAt(Round(head, items), k + 1);
    OnceAround(head, items, k + 1, |items|);
    r := item.next == head;
  }

  /** Which entry follows an item. */
  lemma NextOf(head: Entry, items: seq<Entry>, k: nat)
    requires List(head, items) && k < |items|
    ensures items[k] != head && items[k].next == if k + 1 < |items| then items[k + 1] else head
  {
    var c := Round(head, items);
    assert JoinedAt(c, k + 1) && c[k + 1] == items[k];
    OnceAround(head, items, k + 1, 0);
  }

  /** The neighbours of an item, and what is left without it, are in the list. */
  lemma BesideItem(head: Entry, items: seq<Entry>, k: nat)
    requires List(head, items) && k < |items|
    ensures items[k] in items && items[k].prev in [head] + items && items[k].next in [head] + items
    ensures forall x :: x in [head] + Removed(items, k) ==> x in [head] + items
  {
    var c := Round(head, items);
    assert JoinedAt(c, k) && JoinedAt(c, k + 1) && c[k + 1] == items[k];
    assert c[k] in c && c[k + 2] in c;
    assert forall x :: x in c ==> x in [head] + items;
  }

  /** Walking along `next` meets exactly the items, in order. */
  method Forward(head: Entry, ghost items: seq<Entry>) returns (met: seq<Entry>)
    requires List(head, items)
    ensures met == items
  {
    ghost var c := Round(head, items);
    assert JoinedAt(c, 0);
    met := [];
    var at := head.next;
    while at != head
      invariant |met| <= |items| && met == items[..|met|] && at == c[|met| + 1]
      decreases |items| - |met|
    {
      OnceAround(head, items, |met|, |items|);
      assert JoinedAt(c, |met| + 1);
      met := met + [at];
      at := at.next;
    }
    OnceAround(head, items, |met|, |items|);
  }

  /** Walking along `prev` meets exactly the items, in reverse order. */
  method Backward(head: Entry, ghost items: seq<Entry>) returns (met: seq<Entry>)
    requires List(head, items)
    ensures |met| == |items| && forall i :: 0 <= i < |items| ==> met[i] == items[|items| - 1 - i]
  {
    ghost var c := Round(head, items);
    assert JoinedAt(c, |items|);
    met := [];
    var at := head.prev;
    while at != head
      invariant |met| <= |items| && at == c[|items| - |met|]
      invariant forall i :: 0 <= i < |met| ==> met[i] == items[|items| - 1 - i]
      decreases |items| - |met|
    {
      OnceAround(head, items, |items| - |met|, 0);
      assert JoinedAt(c, |items| - |met| - 1);
      met := met + [at];
      at := at.prev;
    }
    OnceAround(head, items, |items| - |met|, 0);
  }

  /** The links determine the items. */
  lemma {:induction false} SameItem(head: Entry, s: seq<Entry>, t: seq<Entry>, i: nat)
    requires List(head, s) && List(head, t) && i <= |s|
    ensures i <= |t| && Round(head, s)[i] == Round(head, t)[i]
  {
    if i > 0 {
      SameItem(head, s, t, i - 1);
      assert JoinedAt(Round(head, s), i - 1) && JoinedAt(Round(head, t), i - 1);
      OnceAround(head, s, i, 0);
    }
  }

  lemma Unique(head: Entry, s: seq<Entry>, t: seq<Entry>)
    requires List(head, s) && List(head, t)
    ensures s == t
  {
    SameItem(head, s, t, |s|);
    SameItem(head, t, s, |t|);
    forall i | 0 <= i < |s|
      ensures s[i] == t[i]
    {
      SameItem(head, s, t, i + 1);
      assert Round(head, s)[i + 1] == s[i] && Round(head, t)[i + 1] == t[i];
    }
  }

  // ----- Deleting during a walk -----

  function Kept(items: seq<Entry>, drop: Entry -> bool): seq<Entry> {
    if items == [] then [] else (if drop(items[0]) then [] else [items[0]]) + Kept(items[1..], drop)
  }

  /** The first entry of what is still to be walked. */
  ghost function First(head: Entry, rest: seq<Entry>): Entry {
    if rest == [] then head else rest[0]
  }

  lemma Neighbours(head: Entry, done: seq<Entry>, rest: seq<Entry>)
    requires List(head, done + rest) && rest != []
    ensures rest[0] != head && rest[0].next == First(head, rest[1..])
    ensures rest[0].prev in [head] + done && rest[0].next in [head] + rest
  {
    var (c, k) := (Round(head, done + rest), |done|);
    assert JoinedAt(c, k) && JoinedAt(c, k + 1);
    assert c[k + 1] == rest[0] && c[k] in [head] + done;
    var all := [head] + (done + rest);
    assert all[0] == head && all[k + 1] == rest[0];
  }

  ghost predicate Among(head: Entry, items: seq<Entry>, all: set<Entry>) {
    head in all && forall e :: e in items ==> e in all
  }

  lemma KeptStep(done: seq<Entry>, rest: seq<Entry>, drop: Entry -> bool)
    requires rest != []
    ensures (if drop(rest[0]) then done else done + [rest[0]]) + Kept(rest[1..], drop) == done + Kept(rest, drop)
  {
    if drop(rest[0]) {
      assert [] + Kept(rest[1..], drop) == Kept(rest[1..], drop);
    }
  }

  lemma Parts(done: seq<Entry>, rest: seq<Entry>)
    requires rest != []
    ensures (done + rest)[|done|] == rest[0] && Removed(done + rest, |done|) == done + rest[1..]
    ensures done + [rest[0]] + rest[1..] == done + rest
  {
  }

  /** One item of the walk: it is deleted or left behind. */
  method SweepOne(
    at: Entry, head: Entry, drop: Entry -> bool,
    ghost done: seq<Entry>, ghost rest: seq<Entry>, ghost all: set<Entry>)
    returns (ghost done': seq<Entry>)
    requires List(head, done + rest) && rest != [] && at == rest[0] && Among(head, done + rest, all)
    modifies all
    ensures List(head, done' + rest[1..]) && Among(head, done' + rest[1..], all)
    ensures done' + Kept(rest[1..], drop) == done + Kept(rest, drop)
  {
    KeptStep(done, rest, drop);
    Parts(done, rest);
    if drop(at) {
      Neighbours(head, done, rest);
      Del(at, head, done + rest, |done|);
      done' := done;
    } else {
      done' := done + [at];
    }
  }

  /** A walk that looks one entry ahead may delete the items it meets: exactly the others remain, in order. */
  method Sweep(head: Entry, drop: Entry -> bool, ghost items: seq<Entry>, ghost all: set<Entry>)
    requires List(head, items) && Among(head, items, all)
    modifies all
    ensures List(head, Kept(items, drop))
  {
    ghost var done: seq<Entry>, rest := [], items;
    assert done + rest == items && done + Kept(rest, drop) == Kept(items, drop);
    TakenEnds(head, items);
    var at := head.next;
    var ahead := at.next;
    while at != head
      invariant List(head, done + rest) && Among(head, done + rest, all)
      invariant at == First(head, rest) && ahead == at.next
      invariant done + Kept(rest, drop) == Kept(items, drop)
      decreases |rest|
    {
      Neighbours(head, done, rest);
      done := SweepOne(at, head, drop, done, rest, all);
      rest := rest[1..];
      at := ahead;
      ahead := at.next;
    }
    if rest != [] {
      Neighbours(head, done, rest);
    }
    assert done + rest == done && done + Kept(rest, drop) == done;
  }
}

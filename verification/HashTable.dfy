/**
 * The chained hash table over circular lists: every bucket is the head of a list, every node has
 * a list entry in it, and only list operations change the links.
 */
module HashTable {
  import opened Results
  import opened HashSpec
  import opened Lists

  class Node {
    const link: Entry
    var hash: nat

    constructor ()
      ensures hash == 0 && fresh(link) && List(link, [])
    {
      link := new Entry();
      hash := 0;
    }
  }

  type Order = seq<Item<Node>>

  // ----- Buckets -----

  ghost function Links(items: Order): (r: seq<Entry>)
    ensures |r| == |items| && forall i :: 0 <= i < |r| ==> r[i] == items[i].node.link
  {
    seq(|items|, i requires 0 <= i < |items| => items[i].node.link)
  }

  /** The list entries of one bucket. */
  ghost function Chain(order: Order, b: nat, buckets: nat): seq<Entry>
    requires buckets > 0
  {
    Links(InBucket(order, b, buckets))
  }

  ghost predicate Absent(order: Order, node: Node) {
    forall i :: 0 <= i < |order| ==> order[i].node != node
  }

  /** No node, and no list entry, is in the order twice. */
  ghost predicate Once(order: Order) {
    forall i, j :: 0 <= i < j < |order| ==> order[i].node != order[j].node && order[i].node.link != order[j].node.link
  }

  lemma {:induction false} OnceWithout(order: Order, node: Node)
    requires Once(order)
    ensures Once(Without(order, node))
  {
    if order != [] {
      var (front, last) := (order[..|order| - 1], order[|order| - 1]);
      OnceWithout(front, node);
      var rest := Without(front, node);
      forall i | 0 <= i < |rest|
        ensures rest[i].node != last.node && rest[i].node.link != last.node.link
      {
        assert rest[i] in front;
      }
    }
  }

  /** Deleting a node takes its entry out of its own bucket only. */
  lemma ChainWithout(order: Order, item: Item<Node>, b: nat, buckets: nat)
    requires buckets > 0 && Once(order) && item in order && b != Offset(item.hash, buckets)
    ensures Chain(Without(order, item.node), b, buckets) == Chain(order, b, buckets)
  {
    var items := InBucket(order, b, buckets);
    DeleteCommutes(order, item.node, b, buckets);
    forall i | 0 <= i < |items|
      ensures items[i].node != item.node
    {
      assert items[i] in order;
    }
    WithoutAbsent(items, item.node);
  }

  lemma {:induction false} OnceBucket(order: Order, b: nat, buckets: nat)
    requires buckets > 0 && Once(order)
    ensures Once(InBucket(order, b, buckets))
  {
    if order != [] {
      var (front, last) := (order[..|order| - 1], order[|order| - 1]);
      OnceBucket(front, b, buckets);
      var rest := InBucket(front, b, buckets);
      forall i | 0 <= i < |rest|
        ensures rest[i].node != last.node && rest[i].node.link != last.node.link
      {
        assert rest[i] in front;
      }
    }
  }

  lemma {:induction false} InOwnBucket(order: Order, item: Item<Node>, buckets: nat)
    requires buckets > 0 && item in order
    ensures item in InBucket(order, Offset(item.hash, buckets), buckets)
  {
    var (front, last) := (order[..|order| - 1], order[|order| - 1]);
    if item != last {
      var i :| 0 <= i < |order| && order[i] == item;
      assert front[i] == item;
      InOwnBucket(front, item, buckets);
    }
  }

  lemma {:induction false} WithoutBetween(a: Order, item: Item<Node>, b: Order)
    requires Absent(a, item.node) && Absent(b, item.node)
    ensures Without(a + [item] + b, item.node) == a + b
    decreases |b|
  {
    if b == [] {
      assert a + [item] + b == a + [item] && a + b == a;
      WithoutAbsent(a, item.node);
    } else {
      var (front, last) := (b[..|b| - 1], b[|b| - 1]);
      assert b == front + [last];
      WithoutBetween(a, item, front);
      JoinLast(a + [item], front, last);
      JoinLast(a, front, last);
    }
  }

  lemma JoinLast(a: Order, b: Order, last: Item<Node>)
    ensures a + (b + [last]) == (a + b) + [last]
  {
  }

  lemma WithoutAt(items: Order, k: nat)
    requires Once(items) && k < |items|
    ensures Without(items, items[k].node) == items[..k] + items[k + 1..]
  {
    var (a, b) := (items[..k], items[k + 1..]);
    SplitAround(items, k);
    assert Absent(a, items[k].node);
    forall i | 0 <= i < |b|
      ensures b[i].node != items[k].node
    {
      assert b[i] == items[k + 1 + i];
    }
    WithoutBetween(a, items[k], b);
  }

  lemma SplitAround(items: Order, k: nat)
    requires k < |items|
    ensures items == items[..k] + [items[k]] + items[k + 1..]
  {
  }

  /** In its own bucket, the entry of a deleted node, and no other, is gone. */
  lemma ChainDeleted(order: Order, item: Item<Node>, buckets: nat) returns (k: nat)
    requires buckets > 0 && Once(order) && item in order
    ensures var (b, e) := (Offset(item.hash, buckets), item.node.link);
            && k < |Chain(order, b, buckets)| && Chain(order, b, buckets)[k] == e
            && Chain(Without(order, item.node), b, buckets) == Removed(Chain(order, b, buckets), k)
  {
    var b := Offset(item.hash, buckets);
    var items := InBucket(order, b, buckets);
    InOwnBucket(order, item, buckets);
    k :| k < |items| && items[k] == item;
    OnceBucket(order, b, buckets);
    WithoutAt(items, k);
    DeleteCommutes(order, item.node, b, buckets);
    LinksRemoved(items, k);
  }

  lemma LinksRemoved(items: Order, k: nat)
    requires k < |items|
    ensures Links(items[..k] + items[k + 1..]) == Removed(Links(items), k)
  {
  }

  // ----- An array of lists -----

  ghost predicate In(heads: seq<Entry>, chains: seq<seq<Entry>>, b: nat, e: Entry) {
    b < |heads| == |chains| && e in [heads[b]] + chains[b]
  }

  ghost predicate Within(s: seq<Entry>, entries: set<Entry>) {
    forall i :: 0 <= i < |s| ==> s[i] in entries
  }

  /** No two of the lists share an entry, and all entries are known. */
  ghost predicate Separate(heads: seq<Entry>, chains: seq<seq<Entry>>, entries: set<Entry>) {
    && |heads| == |chains|
    && (forall b: nat :: b < |heads| ==> Within([heads[b]] + chains[b], entries))
    && (forall b: nat, c: nat, e :: e in entries && In(heads, chains, b, e) && In(heads, chains, c, e) ==> b == c)
  }

  ghost predicate ListAt(heads: seq<Entry>, chains: seq<seq<Entry>>, entries: set<Entry>, b: nat)
    requires Separate(heads, chains, entries) && b < |heads|
    reads entries
  {
    assert forall e :: e in [heads[b]] + chains[b] ==> In(heads, chains, b, e);
    List(heads[b], chains[b])
  }

  ghost predicate AllLists(heads: seq<Entry>, chains: seq<seq<Entry>>, entries: set<Entry>)
    reads entries
  {
    Separate(heads, chains, entries) && forall b: nat :: b < |heads| ==> ListAt(heads, chains, entries, b)
  }

  lemma InEntries(heads: seq<Entry>, chains: seq<seq<Entry>>, entries: set<Entry>, b: nat, e: Entry)
    requires Separate(heads, chains, entries) && In(heads, chains, b, e)
    ensures e in entries
  {
    assert Within([heads[b]] + chains[b], entries);
  }

  lemma SeparateMore(heads: seq<Entry>, chains: seq<seq<Entry>>, entries: set<Entry>, b: nat, e: Entry)
    requires Separate(heads, chains, entries) && b < |heads| && e !in entries
    ensures Separate(heads, chains[b := chains[b] + [e]], entries + {e})
  {
    var more := chains[b := chains[b] + [e]];
    forall c: nat, x | In(heads, more, c, x)
      ensures In(heads, chains, c, x) || (c == b && x == e)
      ensures In(heads, chains, c, x) ==> x in entries
    {
      if In(heads, chains, c, x) {
        InEntries(heads, chains, entries, c, x);
      }
    }
    forall c: nat | c < |heads|
      ensures Within([heads[c]] + more[c], entries + {e})
    {
      var s := [heads[c]] + more[c];
      assert forall i :: 0 <= i < |s| ==> In(heads, more, c, s[i]);
    }
  }

  lemma LessIn(heads: seq<Entry>, chains: seq<seq<Entry>>, entries: set<Entry>, b: nat, k: nat, c: nat, x: Entry)
    requires Separate(heads, chains, entries) && b < |heads| && k < |chains[b]| && Distinct([heads[b]] + chains[b])
    requires In(heads, chains[b := Removed(chains[b], k)], c, x)
    ensures In(heads, chains, c, x) && x in entries && x != chains[b][k]
  {
    var (less, e) := (chains[b := Removed(chains[b], k)], chains[b][k]);
    RemovedDistinct(heads[b], chains[b], k);
    assert c == b ==> less[c] == Removed(chains[b], k);
    assert c != b ==> less[c] == chains[c];
    assert In(heads, chains, c, x);
    InEntries(heads, chains, entries, c, x);
    assert e in [heads[b]] + chains[b];
    assert x == e ==> In(heads, chains, b, x);
  }

  lemma SeparateLess(heads: seq<Entry>, chains: seq<seq<Entry>>, entries: set<Entry>, b: nat, k: nat)
    requires Separate(heads, chains, entries) && b < |heads| && k < |chains[b]| && Distinct([heads[b]] + chains[b])
    ensures Separate(heads, chains[b := Removed(chains[b], k)], entries - {chains[b][k]})
  {
    var (less, e) := (chains[b := Removed(chains[b], k)], chains[b][k]);
    forall c: nat, x | In(heads, less, c, x)
      ensures In(heads, chains, c, x) && x in entries && x != e
    {
      LessIn(heads, chains, entries, b, k, c, x);
    }
    forall c: nat | c < |heads|
      ensures Within([heads[c]] + less[c], entries - {e})
    {
      var s := [heads[c]] + less[c];
      assert forall i :: 0 <= i < |s| ==> In(heads, less, c, s[i]);
    }
  }

  /** Appending to one list leaves the others alone. */
  method AppendIn(
    head: Entry, e: Entry, ghost heads: seq<Entry>, ghost chains: seq<seq<Entry>>,
    ghost entries: set<Entry>, ghost b: nat)
    requires AllLists(heads, chains, entries) && b < |heads| && head == heads[b] && e !in entries
    modifies e, head, head.prev
    ensures AllLists(heads, chains[b := chains[b] + [e]], entries + {e})
  {
    ghost var more := chains[b := chains[b] + [e]];
    SeparateMore(heads, chains, entries, b, e);
    assert ListAt(heads, chains, entries, b);
    TakenEnds(head, chains[b]);
    assert In(heads, chains, b, head) && In(heads, chains, b, head.prev);
    assert forall x :: x in [head] + chains[b] ==> In(heads, chains, b, x);
    if e in chains[b] {
      InEntries(heads, chains, entries, b, e);
    }
    Append(head, e, chains[b]);
    forall c: nat | c < |heads|
      ensures ListAt(heads, more, entries + {e}, c)
    {
      if c != b {
        assert old(ListAt(heads, chains, entries, c));
        assert forall x :: x in [heads[c]] + chains[c] ==> In(heads, chains, c, x);
      }
    }
  }

  /** Deleting an entry through its own links leaves the other lists alone. */
  method DeleteIn(
    e: Entry, ghost heads: seq<Entry>, ghost chains: seq<seq<Entry>>,
    ghost entries: set<Entry>, ghost b: nat, ghost k: nat)
    requires AllLists(heads, chains, entries) && b < |heads| && k < |chains[b]| && chains[b][k] == e
    modifies e, e.prev, e.next
    ensures AllLists(heads, chains[b := Removed(chains[b], k)], entries - {e}) && e.prev == null && e.next == null
  {
    ghost var less := chains[b := Removed(chains[b], k)];
    assert ListAt(heads, chains, entries, b);
    SeparateLess(heads, chains, entries, b, k);
    assert chains[b][..k] + chains[b][k..] == chains[b];
    Neighbours(heads[b], chains[b][..k], chains[b][k..]);
    assert In(heads, chains, b, e) && In(heads, chains, b, e.prev) && In(heads, chains, b, e.next);
    Del(e, heads[b], chains[b], k);
    forall c: nat | c < |heads|
      ensures ListAt(heads, less, entries - {e}, c)
    {
      if c != b {
        assert old(ListAt(heads, chains, entries, c));
        assert forall x :: x in [heads[c]] + chains[c] ==> In(heads, chains, c, x);
      }
    }
  }

  // ----- The table -----

  /** The entries of all buckets. */
  ghost function Chains(order: Order, buckets: nat): (r: seq<seq<Entry>>)
    requires buckets > 0
    ensures |r| == buckets && forall b: nat :: b < buckets ==> r[b] == Chain(order, b, buckets)
  {
    seq(buckets, b requires 0 <= b < buckets => Chain(order, b, buckets))
  }

  /** Heads of empty lists. */
  method EmptyLists(size: nat) returns (made: array<Entry>)
    ensures fresh(made) && made.Length == size
    ensures forall b: nat :: b < size ==> fresh(made[b]) && List(made[b], [])
    ensures forall b: nat, c: nat :: b < c < size ==> made[b] != made[c]
  {
    var spare := new Entry();
    made := new Entry[size](_ => spare);
    for i := 0 to size
      invariant forall b: nat :: b < i ==> fresh(made[b]) && List(made[b], [])
      invariant forall b: nat, c: nat :: b < c < i ==> made[b] != made[c]
    {
      made[i] := new Entry();
    }
  }

  class HashTable<!K> {
    const heads: array<Entry>
    const hash: (K, nat) -> Option<nat>
    const compare: (Node, K, nat) -> Option<bool>
    /** From the list entries in the buckets to the nodes that contain them. */
    var container: map<Entry, Node>
    /** Everything inserted and not deleted, in the order of insertion. */
    ghost var order: Order
    /** The heads of the buckets and the entries of the nodes in them. */
    ghost var entries: set<Entry>

    constructor (size: nat, hash: (K, nat) -> Option<nat>, compare: (Node, K, nat) -> Option<bool>)
      requires size > 0
      ensures Valid() && fresh(heads) && fresh(entries) && heads.Length == size && order == []
      ensures this.hash == hash && this.compare == compare
    {
      var made := EmptyLists(size);
      heads := made;
      this.hash, this.compare, container, order := hash, compare, map[], [];
      entries := set b: nat | b < size :: made[b];
      new;
    }

    /** The node has the hash it was inserted under, and its list entry leads back to it. */
    ghost predicate Stored(item: Item<Node>)
      reads this, item.node
    {
      item.node.hash == item.hash && item.node.link in container && container[item.node.link] == item.node
    }

    ghost predicate Valid()
      reads this, heads, entries, set i | 0 <= i < |order| :: order[i].node
    {
      && heads.Length > 0 && Once(order) && (forall i :: 0 <= i < |order| ==> Stored(order[i]))
      && AllLists(heads[..], Chains(order, heads.Length), entries)
    }

    /** The bucket and the hash of a key, if it can be hashed. */
    method GetBucket(key: K, keySize: nat) returns (found: Option<(nat, nat)>)
      requires heads.Length > 0
      ensures hash(key, keySize).None? ==> found == None
      ensures hash(key, keySize).Some? ==>
                found == Some((Offset(hash(key, keySize).value, heads.Length), hash(key, keySize).value))
    {
      var h := hash(key, keySize);
      match h
      case None => found := None;
      case Some(value) => found := Some((Offset(value, heads.Length), value));
    }

    /** Looks the key up in its bucket: the same answer as a scan of everything inserted and not deleted. */
    method Find(key: K, keySize: nat) returns (status: Status, found: Option<Node>)
      requires Valid()
      ensures keySize == 0 ==> status == BadArgs && found == None
      ensures keySize > 0 && hash(key, keySize).None? ==> status == HashFailed && found == None
      ensures keySize > 0 && hash(key, keySize).Some? ==>
                && found == Search(order, hash(key, keySize).value, (n: Node) => compare(n, key, keySize))
                && status == if found.Some? then Ok else NotFound
    {
      if keySize == 0 {
        return BadArgs, None;
      }
      var at := GetBucket(key, keySize);
      if at.None? {
        return HashFailed, None;
      }
      var (b, h) := at.value;
      found := ScanBucket(b, h, key, keySize);
      BucketEnough(order, h, heads.Length, (n: Node) => compare(n, key, keySize));
      status := if found.Some? then Ok else NotFound;
    }

    /** Walks along the bucket's links. */
    method ScanBucket(b: nat, h: nat, key: K, keySize: nat) returns (found: Option<Node>)
      requires Valid() && b < heads.Length
      ensures found == Search(InBucket(order, b, heads.Length), h, (n: Node) => compare(n, key, keySize))
    {
      ghost var accepts := (n: Node) => compare(n, key, keySize);
      ghost var items, k := InBucket(order, b, heads.Length), 0;
      Walkable(b);
      var at := heads[b].next;
      while at != heads[b]
        invariant k <= |items| && at == At(b, k)
        invariant Search(items[k..], h, accepts) == Search(items, h, accepts)
        decreases |items| - k
      {
        var node := container[at];
        SearchFrom(items, k, h, accepts);
        if node.hash == h {
          var res := compare(node, key, keySize);
          if res.None? {
            return None;
          }
          if res.value {
            return Some(node);
          }
        }
        at := at.next;
        k := k + 1;
      }
      return None;
    }

    /** The k-th entry of bucket `b`, or its head behind the last. */
    ghost function At(b: nat, k: nat): Entry
      requires b < heads.Length
      reads this, heads
    {
      var items := InBucket(order, b, heads.Length);
      if k < |items| then items[k].node.link else heads[b]
    }

    /** Where the links of a bucket lead, and what is found there. */
    lemma Walkable(b: nat)
      requires Valid() && b < heads.Length
      ensures heads[b].next == At(b, 0)
      ensures var items := InBucket(order, b, heads.Length);
              forall k: nat :: k < |items| ==>
                At(b, k) != heads[b] && At(b, k).next == At(b, k + 1) && Stored(items[k])
    {
      var items := InBucket(order, b, heads.Length);
      assert ListAt(heads[..], Chains(order, heads.Length), entries, b);
      TakenEnds(heads[b], Links(items));
      forall k: nat | k < |items|
        ensures At(b, k) != heads[b] && At(b, k).next == At(b, k + 1) && Stored(items[k])
      {
        NextOf(heads[b], Links(items), k);
        assert items[k] in order;
      }
    }

    // ----- Changing the table -----

    method Insert(key: K, keySize: nat, node: Node) returns (status: Status)
      requires Valid() && Absent(order, node) && node.link !in entries
      modifies this, entries, node, node.link
      ensures Valid()
      ensures status == if keySize == 0 then BadArgs else if hash(key, keySize).None? then HashFailed else Ok
      ensures status == Ok ==>
                order == old(order) + [Item(node, hash(key, keySize).value)]
                && entries == old(entries) + {node.link}
      ensures status != Ok ==> order == old(order) && entries == old(entries) && node.hash == old(node.hash)
    {
      if keySize == 0 {
        return BadArgs;
      }
      var found := GetBucket(key, keySize);
      if found.None? {
        return HashFailed;
      }
      var (b, h) := found.value;
      Link(b, h, node);
      status := Ok;
    }

    /** Appends the node to its bucket's list. */
    method Link(b: nat, h: nat, node: Node)
      requires Valid() && Absent(order, node) && node.link !in entries
      requires b == Offset(h, heads.Length)
      modifies this, entries, node, node.link
      ensures Valid() && entries == old(entries) + {node.link} && order == old(order) + [Item(node, h)]
    {
      node.hash := h;
      container := container[node.link := node];
      LinkEntry(b, Item(node, h));
      forall i | 0 <= i < |order|
        ensures Stored(order[i])
      {
        ghost var last := |order| - 1;
        assert order[last] == Item(node, h);
        if i < last {
          assert order[i] == old(order)[i] && order[i].node.link != order[last].node.link;
          assert old(Stored(order[i]));
        }
      }
    }

    /** Appends the node's entry to its bucket's list. */
    method LinkEntry(b: nat, item: Item<Node>)
      requires heads.Length > 0 && Once(order) && AllLists(heads[..], Chains(order, heads.Length), entries)
      requires Absent(order, item.node) && item.node.link !in entries && b == Offset(item.hash, heads.Length)
      modifies this`order, this`entries, entries, item.node.link
      ensures Once(order) && AllLists(heads[..], Chains(order, heads.Length), entries)
      ensures entries == old(entries) + {item.node.link} && order == old(order) + [item]
    {
      InsertPlan(heads[..], order, entries, item);
      HeadPrev(heads[..], Chains(order, heads.Length), entries, b);
      AppendIn(heads[b], item.node.link, heads[..], Chains(order, heads.Length), entries, b);
      order := order + [item];
      entries := entries + {item.node.link};
    }

    /** Takes the node out of its list through its own links and forgets its hash. */
    method Delete(node: Node)
      requires Valid() && !Absent(order, node)
      modifies this, entries, node
      ensures Valid() && order == Without(old(order), node) && entries == old(entries) - {node.link} && node.hash == 0
      ensures node.link.prev == null && node.link.next == null
    {
      ghost var i :| 0 <= i < |order| && order[i].node == node;
      ghost var item, rest := order[i], Without(order, node);
      forall j | 0 <= j < |rest|
        ensures Stored(rest[j]) && rest[j].node != node && rest[j].node.link != node.link
      {
        assert rest[j] in order;
      }
      Unlink(node, item);
      container := container - {node.link};
      node.hash := 0;
    }

    /** The list entry's neighbours are linked to each other. */
    method Unlink(node: Node, ghost item: Item<Node>)
      requires Valid() && item in order && item.node == node
      modifies this`order, this`entries, entries
      ensures Once(order) && AllLists(heads[..], Chains(order, heads.Length), entries)
      ensures order == Without(old(order), node) && entries == old(entries) - {node.link}
      ensures node.link.prev == null && node.link.next == null
    {
      ghost var k := DeletePlan(heads[..], order, entries, item);
      DeleteIn(node.link, heads[..], Chains(order, heads.Length), entries, Offset(item.hash, heads.Length), k);
      order := Without(order, node);
      entries := entries - {node.link};
    }
  }

  // ----- Why the changes are right -----

  lemma HeadPrev(heads: seq<Entry>, chains: seq<seq<Entry>>, entries: set<Entry>, b: nat)
    requires AllLists(heads, chains, entries) && b < |heads|
    ensures heads[b] in entries && heads[b].prev in entries
  {
    assert ListAt(heads, chains, entries, b);
    TakenEnds(heads[b], chains[b]);
    InEntries(heads, chains, entries, b, heads[b]);
    InEntries(heads, chains, entries, b, heads[b].prev);
  }

  /** What insertion does to the order and to the buckets' entries. */
  lemma InsertPlan(heads: seq<Entry>, order: Order, entries: set<Entry>, item: Item<Node>)
    requires |heads| > 0 && Once(order) && Separate(heads, Chains(order, |heads|), entries)
    requires Absent(order, item.node) && item.node.link !in entries
    ensures Once(order + [item])
    ensures var (chains, b) := (Chains(order, |heads|), Offset(item.hash, |heads|));
            Chains(order + [item], |heads|) == chains[b := chains[b] + [item.node.link]]
  {
    var (n, chains) := (|heads|, Chains(order, |heads|));
    forall i | 0 <= i < |order|
      ensures order[i].node.link != item.node.link
    {
      OwnEntry(heads, order, entries, order[i]);
    }
    forall b: nat | b < n
      ensures Chains(order + [item], n)[b] ==
              chains[Offset(item.hash, n) := chains[Offset(item.hash, n)] + [item.node.link]][b]
    {
    }
  }

  /** The entry of a node that is in the table is in its bucket, and known. */
  lemma OwnEntry(heads: seq<Entry>, order: Order, entries: set<Entry>, item: Item<Node>)
    requires |heads| > 0 && Separate(heads, Chains(order, |heads|), entries) && item in order
    ensures item.node.link in entries
  {
    var b := Offset(item.hash, |heads|);
    InOwnBucket(order, item, |heads|);
    var i :| 0 <= i < |InBucket(order, b, |heads|)| && InBucket(order, b, |heads|)[i] == item;
    assert Chain(order, b, |heads|)[i] == item.node.link;
    InEntries(heads, Chains(order, |heads|), entries, b, item.node.link);
  }

  /** What deletion does to the order and to the buckets' entries. */
  lemma DeletePlan(heads: seq<Entry>, order: Order, entries: set<Entry>, item: Item<Node>) returns (k: nat)
    requires |heads| > 0 && Once(order) && AllLists(heads, Chains(order, |heads|), entries) && item in order
    ensures Once(Without(order, item.node))
    ensures var (chains, b) := (Chains(order, |heads|), Offset(item.hash, |heads|));
            && k < |chains[b]| && chains[b][k] == item.node.link
            && Chains(Without(order, item.node), |heads|) == chains[b := Removed(chains[b], k)]
    ensures item.node.link in entries && item.node.link.prev in entries && item.node.link.next in entries
  {
    var (n, chains, b) := (|heads|, Chains(order, |heads|), Offset(item.hash, |heads|));
    OnceWithout(order, item.node);
    k := ChainDeleted(order, item, n);
    forall c: nat | c < n && c != b
      ensures Chain(Without(order, item.node), c, n) == Chain(order, c, n)
    {
      ChainWithout(order, item, c, n);
    }
    OwnEntry(heads, order, entries, item);
    NeighboursKnown(heads, chains, entries, b, k);
  }

  lemma NeighboursKnown(heads: seq<Entry>, chains: seq<seq<Entry>>, entries: set<Entry>, b: nat, k: nat)
    requires AllLists(heads, chains, entries) && b < |heads| && k < |chains[b]|
    ensures chains[b][k].prev in entries && chains[b][k].next in entries
  {
    assert ListAt(heads, chains, entries, b);
    BesideItem(heads[b], chains[b], k);
    InEntries(heads, chains, entries, b, chains[b][k].prev);
    InEntries(heads, chains, entries, b, chains[b][k].next);
  }
}

// Callers that build the objects and use them: what the contracts ask for can be had.

module TimerClient {
  import opened Results
  import opened TimerSpec
  import Lists
  import Timers

  /** A timer armed for a time fires then, and not before; it is the last one. */
  method ArmAndFire(when: nat) returns (early: Option<Timer>, due: Option<Timer>, status: Status)
    requires when > 0
    ensures early == None && due == Some(Timer(0, when)) && status == Empty
  {
    var m := OneArmed(when);
    early, due, status := FireTwice(m, when);
  }

  function Armed(when: nat): Manager { Manager([Timer(0, when)], [Timer(0, when)], 2) }

  method OneArmed(when: nat) returns (m: Timers.TimerManager)
    ensures m.Valid() && m.State() == Armed(when) && 0 in m.entry
    ensures fresh({m, m.armed, m.armed.heap} + m.entries)
  {
    m := new Timers.TimerManager(2);
    var tnode := new Lists.Entry();
    MayArm(m.head, tnode, when);
    var _ := m.ArmAt(0, tnode, when);
  }

  /** Arming a timer that is live destroys the list. */
  method ArmTwice(when: nat) returns (m: Timers.TimerManager)
    ensures !Agree(m)
  {
    m := OneArmed(when);
    StillLive(when);
    var _ := m.AddTimer(Timer(0, when + 1), m.entry[0]);
  }

  /** Arming on a full heap leaves a timer in the list that will never fire. */
  method ArmOnFull(when: nat) returns (m: Timers.TimerManager, status: Status)
    ensures !Agree(m) && status == Inval
  {
    m := new Timers.TimerManager(0);
    var tnode := new Lists.Entry();
    MayArm(m.head, tnode, when);
    status := m.AddTimer(Timer(0, when), tnode);
  }

  /** The links are a list of exactly the heap's timers. */
  ghost predicate Agree(m: Timers.TimerManager)
    reads m, m.armed, m.armed.heap, {m.head} + m.entry.Values
  {
    && m.armed.Valid()
    && exists ts: seq<Timer> :: Timers.Heads(m.head, ts, m.entry) && multiset(ts) == multiset(m.armed.Contents())
  }

  lemma StillLive(when: nat)
    ensures !Timers.NotLive([Timer(0, when)], Timer(0, when + 1))
  {
    var ts := [Timer(0, when)] + [Timer(0, when + 1)];
    assert ts[0].id == ts[1].id;
  }

  method FireTwice(m: Timers.TimerManager, when: nat)
    returns (early: Option<Timer>, due: Option<Timer>, status: Status)
    requires m.Valid() && m.State() == Armed(when) && when > 0
    modifies m, m.armed, m.armed.heap, m.entries
    ensures early == None && due == Some(Timer(0, when)) && status == Empty
  {
    Fires(when);
    var _, f := Attempt(m, when - 1);
    early := f;
    status, due := Attempt(m, when);
  }

  /** An attempt to fire a timer whose function arms nothing. */
  method Attempt(m: Timers.TimerManager, now: nat) returns (status: Status, fired: Option<Timer>)
    requires m.Valid()
    modifies m, m.armed, m.armed.heap, m.entries
    ensures m.Valid() && m.entries <= old(m.entries)
    ensures var o := Fire(old(m.State()), now, NoArms);
            m.State() == o.m && status == o.status && fired == o.fired
  {
    NothingArmed(m.head, m.entry, m.State());
    var last, _, f := m.FireNext(now, NoArms, map[]);
    status, fired := last, f;
  }

  lemma MayArm(head: Lists.Entry, tnode: Lists.Entry, when: nat)
    requires tnode != head
    ensures Timers.MayOwn(head, map[], 0, tnode) && Timers.NotLive([], Timer(0, 0))
    ensures Timers.NotLive([], Timer(0, when))
    ensures Add(Manager([], [], 2), Timer(0, when)) == (Armed(when), Ok)
  {
    var t := Timer(0, when);
    assert [] + [t] == [t];
  }

  lemma NothingArmed(head: Lists.Entry, entry: Timers.EntryMap, m: Manager)
    requires Timers.OwnEntries(head, entry) && DistinctIds(m.live)
    ensures Timers.Compatible(head, entry, map[])
    ensures m.armed != [] ==> DistinctIds(Popped(m).live + NoArms(m.armed[0]))
  {
    assert entry + map[] == entry;
    if m.armed != [] {
      UnlinkIds(m.live, m.armed[0]);
      assert Popped(m).live + [] == Popped(m).live;
    }
  }

  lemma Fires(when: nat)
    requires when > 0
    ensures Fire(Armed(when), when - 1, NoArms) == Outcome(Armed(when), Ok, when, None)
    ensures Fire(Armed(when), when, NoArms) == Outcome(Manager([], [], 2), Empty, 0, Some(Timer(0, when)))
  {
    var t := Timer(0, when);
    assert Unlink([t], t) == [];
    assert Popped(Armed(when)) == Manager([], [], 2);
  }
}

module HashClient {
  import opened Results
  import opened HashSpec
  import opened HashTable

  /** A node made after the table is found until it is deleted. */
  method FoundUntilDeleted(size: nat, h: nat) returns (before: Option<Node>, node: Node, after: Option<Node>)
    requires size > 0
    ensures before == Some(node) && after == None
  {
    var table := new HashTable<int>(size, (k, s) => Some(h), (n, k, s) => Some(true));
    node := new Node();
    var _ := table.Insert(7, 4, node);
    before, after := FindAndDelete(table, node, h);
  }

  method FindAndDelete(table: HashTable<int>, node: Node, h: nat)
    returns (before: Option<Node>, after: Option<Node>)
    requires table.Valid() && table.order == [Item(node, h)]
    requires table.hash(7, 4) == Some(h) && table.compare(node, 7, 4) == Some(true)
    modifies table, table.entries, node
    ensures before == Some(node) && after == None
  {
    var _, found := table.Find(7, 4);
    before := found;
    assert Without(table.order[..0], node) == [];
    table.Delete(node);
    var _, gone := table.Find(7, 4);
    after := gone;
  }
}

module TreeClient {
  import opened RbSpec
  import RbLinks
  import RbTree

  function Minus(a: int, b: int): int { a - b }

  /** A node is found once it is inserted, and not any more once it is removed. */
  method FoundUntilRemoved(k: int) returns (node: RbLinks.Node, before: RbLinks.Node?, after: RbLinks.Node?)
    ensures before == node && after == null
  {
    assert TotalOrder(Minus);
    var tree := new RbTree.RbTree(Minus, null);
    node := new RbLinks.Node(k);
    var _ := tree.Insert(k, node);
    before, after := FindAndRemove(tree, node, k);
  }

  method FindAndRemove(tree: RbTree.RbTree, node: RbLinks.Node, k: int)
    returns (before: RbLinks.Node?, after: RbLinks.Node?)
    requires tree.Valid() && tree.compare == Minus && tree.tree == Branch(Leaf, node, k, Black, Leaf)
    modifies tree, tree.nodes
    ensures before == node && after == null
  {
    var _, found, _ := tree.Find(k);
    before := found;
    tree.Remove(node);
    var _, gone, _ := tree.Find(k);
    after := gone;
  }
}

module LogClient {
  import opened Results
  import opened LogSpec
  import LogTheorems
  import LogAlloc

  /** The first allocation from a new log gets the first cell; a second reference lets it be freed twice. */
  method TakeAndFree(cells: nat) returns (at: Option<nat>, first: Status, second: Status, third: Status)
    requires cells > 0
    ensures at == Some(0) && first == Ok && second == Ok && third == Inval
  {
    var zeros := seq(cells, _ => 0);
    var log := new LogAlloc.LogAlloc(16, zeros, zeros);
    FirstCell(log.State());
    var _, got := log.Alloc(1);
    at := got;
    var _ := log.Reference(0);
    first := log.Free(0);
    second := log.Free(0);
    third := log.Free(0);
  }

  lemma FirstCell(s: Log)
    requires LogTheorems.Fresh(s)
    ensures Alloc(s, 1).1 == Some(0) && Alloc(s, 1).0.rc[0] == 1 && LogAlloc.CellsFor(1, 16) == 1
  {
    assert Scan(s, 0, 1, 0, 0) == (|s.nr|, 0);
  }
}

module SlabClient {
  import opened Results
  import opened Arith
  import opened SlabSpec
  import opened SlabState
  import opened SlabRuns
  import Slab

  /** Two items from an allocator with one page of 128 bytes do not overlap, and the first can be returned. */
  method TwoItems() returns (made: Status, s1: Status, first: nat, s2: Status, second: nat)
    ensures made == Ok && s1 == Ok && (s2 == Ok ==> first + 16 <= second || second + 16 <= first)
  {
    SmallPage();
    var c := new Slab.SlabClass(7, 8, 128, 1, map[]);
    var status, _ := c.New(0, 16, 1, false);
    made := status;
    FreshHasFree(c.Now(), 0);
    var t1, i1, p1, k1 := c.Alloc(0);
    s1, first := t1, i1;
    ghost var before := c.Now();
    var t2, i2, p2, k2 := c.Alloc(0);
    s2, second := t2, i2;
    if s2 == Ok {
      BothHeld(128, c.pages, before, c.Now(), 0, p1, k1, i1, p2, k2, i2);
      c.Free(0, i1, p1, k1);
    }
  }

  lemma SmallPage()
    ensures Pow2(7) == 128 && Pow2(8) == 256 && PageOk(128, 128)
    ensures Capacity(128, 16) == 4 && Slab.PerPage(128, 16) == 8 && Slab.PagesFor(128, 16, 1) == 1
  {
    assert Pow2(4) == 16;
    assert Pow2(6) == 64;
  }

  lemma FreshHasFree(s: State, a: nat)
    requires a in s.allocators && FreeIn(s, s.allocators[a].slabs) > 0 && |s.allocators[a].slabs| == 1
    ensures HasFree(s, s.allocators[a].slabs[0])
  {
    assert s.allocators[a].slabs[1..] == [];
  }

  /** The first item stays where it is, and the second one does not overlap it. */
  lemma BothHeld(bytes: nat, pages: set<nat>, s: State, t: State, a: nat,
                 p: nat, k: nat, item: nat, q: nat, j: nat, other: nat)
    requires Allocates(bytes, pages, s, t, a, Ok, other) && LiveItem(s, a, p, k, item)
    requires LiveItem(t, a, q, j, other) && NewItem(s, t, q, j)
    ensures LiveItem(t, a, p, k, item)
    ensures item + t.allocators[a].itemSize <= other || other + t.allocators[a].itemSize <= item
  {
    assert Live(t, p, k);
    StaysPut(bytes, pages, s, t, a, p, k, item);
    LiveDisjoint(bytes, pages, t, a, p, k, item, a, q, j, other);
  }
}

/**
 * The timer manager: a heap of armed timers and a circular list of live ones, both changed in
 * place.  A timer's list entry is part of it, so that entries and timers correspond.
 */
module Timers {
  import opened Lists
  import Arith
  import Results
  import HeapSpec
  import HeapTheorems
  import Heaps = FixedHeap
  import opened TimerSpec

  /** When a timer armed for `usecs` microseconds from `now` fires, in 64-bit arithmetic. */
  function DeadlineFor(now: nat, usecs: nat): (d: nat)
    ensures d == (now + usecs * 1000) % FULL_64
    ensures now + usecs * 1000 < FULL_64 ==> d == now + usecs * 1000
  {
    Arith.ModInside(now, usecs * 1000, FULL_64);
    (now + (usecs * 1000) % FULL_64) % FULL_64
  }

  /** From timers to the list entries that are part of them. */
  type EntryMap = map<nat, Entry>

  ghost predicate Known(ts: seq<Timer>, entry: EntryMap) {
    forall i :: 0 <= i < |ts| ==> ts[i].id in entry
  }

  /** The list entries of timers. */
  ghost function Entries(ts: seq<Timer>, entry: EntryMap): (r: seq<Entry>)
    requires Known(ts, entry)
    ensures |r| == |ts| && forall i :: 0 <= i < |r| ==> r[i] == entry[ts[i].id]
  {
    seq<Entry>(|ts|, i requires 0 <= i < |ts| => entry[ts[i].id])
  }

  /** No two timers share an entry, and none has the head for its own. */
  ghost predicate OwnEntries(head: Entry, entry: EntryMap) {
    && (forall i, j :: i in entry && j in entry && entry[i] == entry[j] ==> i == j)
    && (forall i :: i in entry ==> entry[i] != head)
  }

  /** The entries `more` are those of timers, too, and the same for the timers known already. */
  ghost predicate Compatible(head: Entry, entry: EntryMap, more: EntryMap) {
    OwnEntries(head, entry + more) && forall i :: i in entry && i in more ==> entry[i] == more[i]
  }

  /** Only entries of `more` have become known. */
  ghost predicate Grown(entry: EntryMap, after: EntryMap, more: EntryMap) {
    && (forall i :: i in entry ==> i in after && after[i] == entry[i])
    && (forall i :: i in after && i !in entry ==> i in more && after[i] == more[i])
  }

  /** `e` may be the entry of the timer `id`: it is the one known, or it is nobody else's. */
  ghost predicate MayOwn(head: Entry, entry: EntryMap, id: nat, e: Entry) {
    if id in entry then entry[id] == e else e != head && forall i :: i in entry ==> entry[i] != e
  }

  /** Another timer's entry changes nothing for those known. */
  lemma EntriesGrow(ts: seq<Timer>, head: Entry, entry: EntryMap, id: nat, e: Entry)
    requires Known(ts, entry) && OwnEntries(head, entry) && MayOwn(head, entry, id, e)
    ensures Known(ts, entry[id := e]) && Entries(ts, entry[id := e]) == Entries(ts, entry)
    ensures OwnEntries(head, entry[id := e])
  {
  }

  /** The timer is not live. */
  ghost predicate NotLive(live: seq<Timer>, t: Timer) {
    DistinctIds(live + [t])
  }

  lemma EntryAbsent(live: seq<Timer>, t: Timer, head: Entry, entry: EntryMap)
    requires OwnEntries(head, entry) && DistinctIds(live) && Known(live, entry) && t.id in entry
    ensures NotLive(live, t) <==> entry[t.id] !in Entries(live, entry)
  {
    var all := live + [t];
    if NotLive(live, t) {
      forall i | 0 <= i < |live|
        ensures entry[live[i].id] != entry[t.id]
      {
        assert all[i].id != all[|live|].id;
      }
    } else {
      var i, j :| 0 <= i < j < |all| && all[i].id == all[j].id;
      assert j == |live| && Entries(live, entry)[i] == entry[t.id];
    }
  }

  /** What linking the timer in does to the list's entries. */
  lemma LinkPlan(live: seq<Timer>, t: Timer, head: Entry, entry: EntryMap, e: Entry)
    requires OwnEntries(head, entry) && DistinctIds(live) && Known(live, entry) && MayOwn(head, entry, t.id, e)
    ensures var (was, after) := (Entries(live, entry), entry[t.id := e]);
            && e != head && (NotLive(live, t) <==> e !in was)
            && Known(live, after) && Entries(live, after) == was
            && Known(live + [t], after) && Entries(live + [t], after) == was + [e]
            && [head] + (was + [e]) == ([head] + was) + [e]
  {
    EntriesGrow(live, head, entry, t.id, e);
    EntryAbsent(live, t, head, entry[t.id := e]);
  }

  class TimerManager {
    const armed: Heaps.FixedHeap<Timer>
    const head: Entry
    /** The list entries of the timers armed so far. */
    var entry: EntryMap
    ghost var live: seq<Timer>
    /** The head of the live list and the entries of the timers in it. */
    ghost var entries: set<Entry>

    ghost predicate Valid()
      reads this, armed, armed.heap, entries
    {
      && armed.compare == Later && armed.Valid() && OwnEntries(head, entry)
      && DistinctIds(live) && multiset(armed.Contents()) <= multiset(live)
      && Linked()
    }

    /** The live list is a list of exactly the live timers' entries. */
    ghost predicate Linked()
      reads this, entries
    {
      && Known(live, entry) && entries == (set e | e in [head] + Entries(live, entry))
      && List(head, Entries(live, entry))
    }

    ghost function State(): Manager
      requires armed.Valid()
      reads this, armed, armed.heap
    {
      Manager(armed.Contents(), live, armed.heap.Length)
    }

    constructor (maxTimers: nat)
      ensures Valid() && fresh(armed) && fresh(armed.heap) && fresh(entries)
      ensures State() == Manager([], [], maxTimers) && Good(State()) && entry == map[] && entries == {head}
    {
      armed := new Heaps.FixedHeap<Timer>(maxTimers, Later, Timer(0, 0));
      var h := new Entry();
      head, entry, live, entries := h, map[], [], {h};
      new;
      assert Entries([], map[]) == [] && [head] + [] == [head];
    }

    /**
     * Links the timer into the live list and pushes it on the heap.  Afterwards the links are a list
     * of exactly the heap's timers if and only if the timer was not live and the heap had room.
     */
    method AddTimer(t: Timer, tnode: Entry) returns (status: Results.Status)
      requires Valid() && MayOwn(head, entry, t.id, tnode)
      modifies this, armed, armed.heap, entries, tnode
      ensures armed.Valid() && entry == old(entry)[t.id := tnode]
      ensures NotLive(old(live), t) ==>
                && Valid() && (State(), status) == TimerSpec.Add(old(State()), t)
                && entries == old(entries) + {tnode}
      ensures multiset(old(live)) == multiset(old(armed.Contents())) ==>
                ((exists ts: seq<Timer> :: Heads(head, ts, entry) && multiset(ts) == multiset(armed.Contents()))
                 <==> NotLive(old(live), t) && old(armed.entries) < armed.heap.Length)
    {
      ghost var contents := armed.Contents();
      EntriesGrow(live, head, entry, t.id, tnode);
      LinkTimer(t, tnode);
      status := PushTimer(t, if NotLive(old(live), t) then Entries(live, entry) else [], Entries(old(live), entry));
      Pushed(contents, old(live), t);
      if multiset(old(live)) == multiset(contents) {
        ArmedExactly(head, entry, old(live), contents, t, armed.Contents(), old(armed.entries) < armed.heap.Length);
      }
    }

    /** Appends the timer's entry to the live list; that of a live timer destroys the list. */
    method LinkTimer(t: Timer, tnode: Entry)
      requires Valid() && MayOwn(head, entry, t.id, tnode)
      modifies this`live, this`entries, this`entry, entries, tnode
      ensures live == old(live) + [t] && entries == old(entries) + {tnode} && entry == old(entry)[t.id := tnode]
      ensures Known(live, entry) && Known(old(live), entry)
      ensures NotLive(old(live), t) ==> Linked()
      ensures !NotLive(old(live), t) ==> Broken(head, Entries(old(live), entry))
    {
      ghost var was := Entries(live, entry);
      LinkPlan(live, t, head, entry, tnode);
      HeadLinked();
      Append(head, tnode, was);
      entry := entry[t.id := tnode];
      live := live + [t];
      entries := entries + {tnode};
    }

    /** Pushes the timer on the heap; the list is not touched. */
    method PushTimer(t: Timer, ghost list: seq<Entry>, ghost was: seq<Entry>) returns (status: Results.Status)
      requires armed.Valid() && armed.compare == Later
      modifies armed, armed.heap
      ensures armed.Valid()
      ensures (List(head, list) <==> old(List(head, list))) && (Broken(head, was) <==> old(Broken(head, was)))
      ensures armed.Contents() == if old(armed.entries) < armed.heap.Length
                                  then HeapSpec.Push(Later, old(armed.Contents()), t) else old(armed.Contents())
      ensures status == if old(armed.entries) < armed.heap.Length then Results.Ok else Results.Inval
    {
      var pushed := armed.Push(t);
      status := if pushed == Results.Ok then Results.Ok else Results.Inval;
    }

    method Arm(id: nat, tnode: Entry, now: nat, usecs: nat) returns (status: Results.Status)
      requires Valid() && MayOwn(head, entry, id, tnode) && NotLive(live, Timer(id, 0))
      modifies this, armed, armed.heap, entries, tnode
      ensures Valid() && entries == old(entries) + {tnode} && entry == old(entry)[id := tnode]
      ensures (State(), status) == TimerSpec.Add(old(State()), Timer(id, DeadlineFor(now, usecs)))
    {
      SameId(live, Timer(id, 0), Timer(id, DeadlineFor(now, usecs)));
      status := AddTimer(Timer(id, DeadlineFor(now, usecs)), tnode);
    }

    method ArmAt(id: nat, tnode: Entry, when: nat) returns (status: Results.Status)
      requires Valid() && MayOwn(head, entry, id, tnode) && NotLive(live, Timer(id, 0))
      modifies this, armed, armed.heap, entries, tnode
      ensures Valid() && entries == old(entries) + {tnode} && entry == old(entry)[id := tnode]
      ensures (State(), status) == TimerSpec.Add(old(State()), Timer(id, when))
    {
      SameId(live, Timer(id, 0), Timer(id, when));
      status := AddTimer(Timer(id, when), tnode);
    }

    /** What a timer's function arms while it runs: timers that are not live. */
    method RunArms(ts: seq<Timer>, tnodes: EntryMap)
      requires Valid() && DistinctIds(live + ts) && Known(ts, tnodes) && Compatible(head, entry, tnodes)
      modifies this, armed, armed.heap, entries, tnodes.Values
      ensures Valid() && State() == AddAll(old(State()), ts)
      ensures entries <= old(entries) + tnodes.Values && Grown(old(entry), entry, tnodes)
    {
      var k := 0;
      while k < |ts|
        invariant k <= |ts| && Valid() && DistinctIds(live + ts[k..]) && Compatible(head, entry, tnodes)
        invariant entries <= old(entries) + tnodes.Values && Grown(old(entry), entry, tnodes)
        invariant AddAll(State(), ts[k..]) == AddAll(old(State()), ts)
      {
        RunArm(ts, k, tnodes);
        k := k + 1;
      }
    }

    method RunArm(ts: seq<Timer>, k: nat, tnodes: EntryMap)
      requires Valid() && k < |ts| && DistinctIds(live + ts[k..])
      requires Known(ts, tnodes) && Compatible(head, entry, tnodes)
      modifies this, armed, armed.heap, entries, tnodes.Values
      ensures Valid() && DistinctIds(live + ts[k + 1..]) && Compatible(head, entry, tnodes)
      ensures entries <= old(entries) + tnodes.Values && Grown(old(entry), entry, tnodes)
      ensures AddAll(State(), ts[k + 1..]) == AddAll(old(State()), ts[k..])
    {
      ArmNext(State(), ts, k);
      MoreEntries(head, entry, tnodes, ts[k].id);
      var _ := AddTimer(ts[k], tnodes[ts[k].id]);
    }

    /** Takes the timer at the head of the heap off the heap; the list is not touched. */
    method PopHeap(ghost list: seq<Entry>) returns (top: Timer)
      requires armed.Valid() && armed.compare == Later && armed.entries > 0
      modifies armed, armed.heap
      ensures armed.Valid() && top == old(armed.Contents())[0]
      ensures armed.Contents() == HeapSpec.RemoveAt(Later, old(armed.Contents()), 0)
      ensures List(head, list) <==> old(List(head, list))
    {
      var _, first := armed.Pop();
      top := first;
    }

    /** Takes a live timer out of the list through its own links. */
    method UnlinkTimer(t: Timer, ghost k: nat)
      requires DistinctIds(live) && k < |live| && live[k] == t && Linked()
      modifies this`live, this`entries, entries
      ensures live == TimerSpec.Unlink(old(live), t) && entries <= old(entries) && Linked()
    {
      ghost var links := Entries(live, entry);
      UnlinkEntry(live, k, entry, head);
      Del(entry[t.id], head, links, k);
      live := TimerSpec.Unlink(live, t);
      entries := set e | e in [head] + Entries(live, entry);
    }

    /** Takes the timer at the head of the heap off the heap and out of the live list. */
    method PopTimer() returns (top: Timer)
      requires Valid() && armed.entries > 0
      modifies this, armed, armed.heap, entries
      ensures Valid() && top == old(State()).armed[0] && State() == Popped(old(State()))
      ensures entries <= old(entries) && entry == old(entry)
    {
      ghost var was := State();
      ghost var k := TopLive(was);
      PopPlan(was, k);
      top := PopHeap(Entries(live, entry));
      UnlinkTimer(top, k);
    }

    /** Fires the timer at the head of the heap and looks for the next one. */
    method FireTop(arms: Timer -> seq<Timer>, tnodes: EntryMap)
      returns (status: Results.Status, next: nat, fired: Timer)
      requires Valid() && armed.entries > 0 && Compatible(head, entry, tnodes)
      requires DistinctIds(Popped(State()).live + arms(State().armed[0])) && Known(arms(State().armed[0]), tnodes)
      modifies this, armed, armed.heap, entries, tnodes.Values
      ensures Valid() && fired == old(State()).armed[0] && State() == AddAll(Popped(old(State())), arms(fired))
      ensures entries <= old(entries) + tnodes.Values && Grown(old(entry), entry, tnodes)
      ensures if State().armed == [] then status == Results.Empty && next == 0
              else status == Results.Ok && next == State().armed[0].deadline
    {
      fired := PopAndRun(arms, tnodes);
      status, next := NextDeadline();
    }

    /** Takes the timer at the head of the heap away and runs its function. */
    method PopAndRun(arms: Timer -> seq<Timer>, tnodes: EntryMap) returns (fired: Timer)
      requires Valid() && armed.entries > 0 && Compatible(head, entry, tnodes)
      requires DistinctIds(Popped(State()).live + arms(State().armed[0])) && Known(arms(State().armed[0]), tnodes)
      modifies this, armed, armed.heap, entries, tnodes.Values
      ensures Valid() && fired == old(State()).armed[0] && State() == AddAll(Popped(old(State())), arms(fired))
      ensures entries <= old(entries) + tnodes.Values && Grown(old(entry), entry, tnodes)
    {
      fired := PopTimer();
      RunArms(arms(fired), tnodes);
    }

    /** The least deadline armed, or "empty". */
    method NextDeadline() returns (status: Results.Status, next: nat)
      requires Valid()
      ensures if State().armed == [] then status == Results.Empty && next == 0
              else status == Results.Ok && next == State().armed[0].deadline
    {
      var peeked, t := armed.PeekHead();
      if peeked != Results.Ok {
        return Results.Empty, 0;
      }
      return Results.Ok, t.deadline;
    }

    /** One attempt to fire; a timer's function arms what `arms` gives, with entries from `tnodes`. */
    method FireNext(now: nat, arms: Timer -> seq<Timer>, tnodes: EntryMap)
      returns (status: Results.Status, next: nat, fired: Results.Option<Timer>)
      requires Valid() && Compatible(head, entry, tnodes)
      requires armed.entries > 0 && State().armed[0].deadline <= now ==>
                 && DistinctIds(Popped(State()).live + arms(State().armed[0]))
                 && Known(arms(State().armed[0]), tnodes)
      modifies this, armed, armed.heap, entries, tnodes.Values
      ensures Valid() && Outcome(State(), status, next, fired) == Fire(old(State()), now, arms)
      ensures entries <= old(entries) + tnodes.Values && Grown(old(entry), entry, tnodes)
    {
      status, next, fired := Results.Ok, 0, Results.None;
      var peeked, t := armed.PeekHead();
      if peeked != Results.Ok {
        return;
      }
      if now >= t.deadline {
        var top;
        status, next, top := FireTop(arms, tnodes);
        fired := Results.Some(top);
      } else {
        next := t.deadline;
      }
    }

    lemma HeadLinked()
      requires Valid()
      ensures head in entries && head.prev in entries
    {
      TakenEnds(head, Entries(live, entry));
    }
  }

  /** The links are a list of exactly these timers' entries. */
  ghost predicate Heads(head: Entry, ts: seq<Timer>, entry: EntryMap)
    reads {head} + entry.Values
  {
    && Known(ts, entry)
    && assert forall e :: e in [head] + Entries(ts, entry) ==> e == head || e in entry.Values;
       List(head, Entries(ts, entry))
  }

  /** A timer that may be armed has an entry of its own, and then there are no more entries than before. */
  lemma MoreEntries(head: Entry, entry: EntryMap, more: EntryMap, id: nat)
    requires Compatible(head, entry, more) && id in more
    ensures MayOwn(head, entry, id, more[id]) && Compatible(head, entry[id := more[id]], more)
  {
    var all := entry + more;
    assert entry[id := more[id]] + more == all;
    assert all[id] == more[id];
    forall i | i in entry && id !in entry
      ensures entry[i] != more[id]
    {
      assert all[i] == entry[i];
    }
  }

  lemma SameId(live: seq<Timer>, t: Timer, u: Timer)
    requires NotLive(live, t) && u.id == t.id
    ensures NotLive(live, u)
  {
    var (a, b) := (live + [t], live + [u]);
    forall i, j | 0 <= i < j < |b|
      ensures b[i].id != b[j].id
    {
      assert a[i].id == b[i].id && a[j].id == b[j].id;
    }
  }

  /** Arming several timers is arming the first and then the others. */
  lemma ArmNext(m: Manager, ts: seq<Timer>, k: nat)
    requires k < |ts| && DistinctIds(m.live + ts[k..])
    ensures NotLive(m.live, ts[k]) && DistinctIds(m.live + [ts[k]] + ts[k + 1..]) && ts[k] in ts
    ensures AddAll(m, ts[k..]) == AddAll(TimerSpec.Add(m, ts[k]).0, ts[k + 1..])
  {
    assert ts[k..] == [ts[k]] + ts[k + 1..];
    FirstIds(m.live, ts[k], ts[k + 1..]);
    assert ts[k..][0] == ts[k] && ts[k..][1..] == ts[k + 1..];
  }

  /** Where the timer at the head of the heap is in the live list. */
  lemma TopLive(m: Manager) returns (k: nat)
    requires m.armed != [] && multiset(m.armed) <= multiset(m.live)
    ensures k < |m.live| && m.live[k] == m.armed[0]
  {
    assert m.armed[0] in multiset(m.armed);
    assert m.armed[0] in multiset(m.live);
    k :| k < |m.live| && m.live[k] == m.armed[0];
  }

  lemma Pushed(s: seq<Timer>, live: seq<Timer>, t: Timer)
    requires multiset(s) <= multiset(live)
    ensures multiset(HeapSpec.Push(Later, s, t)) == multiset(s) + multiset{t}
    ensures multiset(HeapSpec.Push(Later, s, t)) <= multiset(live + [t]) && multiset(s) <= multiset(live + [t])
    ensures multiset(s) == multiset(live) ==> |s| == |live|
  {
    HeapSpec.SiftUpBag(Later, s + [t], |s|);
    if multiset(s) == multiset(live) {
      SameSize(s, live);
    }
  }

  /** When the links are a list of exactly the heap's timers after arming. */
  lemma ArmedExactly(
    head: Entry, entry: EntryMap, was: seq<Timer>, before: seq<Timer>, t: Timer, after: seq<Timer>, room: bool)
    requires multiset(before) == multiset(was) && after == if room then HeapSpec.Push(Later, before, t) else before
    requires Known(was, entry) && t.id in entry
    requires NotLive(was, t) ==> Heads(head, was + [t], entry)
    requires !NotLive(was, t) ==> Broken(head, Entries(was, entry))
    ensures (exists ts: seq<Timer> :: Heads(head, ts, entry) && multiset(ts) == multiset(after))
            <==> NotLive(was, t) && room
  {
    Pushed(before, was, t);
    if NotLive(was, t) {
      forall ts: seq<Timer> | Heads(head, ts, entry) && multiset(ts) == multiset(after)
        ensures room
      {
        Unique(head, Entries(ts, entry), Entries(was + [t], entry));
        SameSize(ts, after);
      }
      if room {
        assert multiset(was + [t]) == multiset(after);
      }
    } else {
      forall ts: seq<Timer>
        ensures !Heads(head, ts, entry)
      {
        if Known(ts, entry) {
          BrokenNoList(head, Entries(was, entry), Entries(ts, entry));
        }
      }
    }
  }

  /** What taking the timer at the head of the heap away does to the live list. */
  lemma PopPlan(m: Manager, k: nat)
    requires m.armed != [] && multiset(m.armed) <= multiset(m.live) && DistinctIds(m.live)
    requires k < |m.live| && m.live[k] == m.armed[0]
    ensures Popped(m).live == m.live[..k] + m.live[k + 1..] && DistinctIds(Popped(m).live)
    ensures multiset(Popped(m).armed) <= multiset(Popped(m).live)
  {
    HeapTheorems.RemoveBag(Later, m.armed, 0);
    UnlinkAt(m.live, k);
    UnlinkBag(m.live, m.armed[0]);
    UnlinkIds(m.live, m.armed[0]);
  }

  /** What unlinking a timer does to the list's entries, and that its neighbours are in the list. */
  lemma UnlinkEntry(live: seq<Timer>, k: nat, entry: EntryMap, head: Entry)
    requires DistinctIds(live) && k < |live| && Known(live, entry) && List(head, Entries(live, entry))
    ensures var (e, links) := (entry[live[k].id], Entries(live, entry));
            && Known(TimerSpec.Unlink(live, live[k]), entry)
            && Entries(TimerSpec.Unlink(live, live[k]), entry) == Removed(links, k)
            && e in links && e.prev in [head] + links && e.next in [head] + links
            && forall x :: x in [head] + Removed(links, k) ==> x in [head] + links
  {
    UnlinkAt(live, k);
    EntriesRemoved(live, k, entry);
    BesideItem(head, Entries(live, entry), k);
  }

  lemma EntriesRemoved(live: seq<Timer>, k: nat, entry: EntryMap)
    requires k < |live| && Known(live, entry)
    ensures Known(live[..k] + live[k + 1..], entry)
    ensures Entries(live[..k] + live[k + 1..], entry) == Removed(Entries(live, entry), k)
  {
  }

  lemma SameSize(a: seq<Timer>, b: seq<Timer>)
    requires multiset(a) == multiset(b)
    ensures |a| == |b|
  {
    assert |multiset(a)| == |a| && |multiset(b)| == |b|;
  }
}

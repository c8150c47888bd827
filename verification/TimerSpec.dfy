/** Deadline timers on values: the truncating comparison, arming and firing, and whole runs of them. */
module TimerSpec {
  import opened Results
  import opened HeapSpec
  import opened HeapTheorems

  /** A timer as armed: its deadline, in nanoseconds, does not change while it is armed. */
  datatype Timer = Timer(id: nat, deadline: nat)

  // ----- The comparison -----

  const HALF_32 := 0x8000_0000
  const FULL_32 := 0x1_0000_0000
  const HALF_64 := 0x8000_0000_0000_0000
  const FULL_64 := 0x1_0000_0000_0000_0000

  /** Conversion to a signed 64-bit integer. */
  function ToInt64(x: int): int {
    (x + HALF_64) % FULL_64 - HALF_64
  }

  /** Conversion to a signed 32-bit integer. */
  function ToInt32(x: int): int {
    (x + HALF_32) % FULL_32 - HALF_32
  }

  /** The 64-bit difference of the deadlines, cut down to the comparison's 32-bit result. */
  function Later(lhs: Timer, rhs: Timer): int {
    ToInt32(ToInt64(ToInt64(rhs.deadline) - ToInt64(lhs.deadline)))
  }

  /** The comparison ranks the earlier deadline higher. */
  ghost predicate Correct(a: Timer, b: Timer) {
    && (Later(a, b) > 0 <==> a.deadline < b.deadline)
    && (Later(a, b) < 0 <==> a.deadline > b.deadline)
  }

  lemma CutDown(x: int, k: int)
    ensures ToInt32(x + k * FULL_64) == ToInt32(x)
  {
    assert k * FULL_64 == (k * FULL_32) * FULL_32;
  }

  /** Only the low 32 bits of the difference matter. */
  lemma LaterIs(a: Timer, b: Timer)
    ensures Later(a, b) == ToInt32(b.deadline - a.deadline)
  {
    var (x, y) := (ToInt64(b.deadline), ToInt64(a.deadline));
    CutDown(x - y, -((x - y + HALF_64) / FULL_64));
    CutDown(b.deadline - a.deadline, (a.deadline + HALF_64) / FULL_64 - (b.deadline + HALF_64) / FULL_64);
  }

  /** Two timers compare correctly both ways exactly when their distance, modulo 2^32, is in range. */
  lemma PairExact(a: Timer, b: Timer)
    ensures var d := if a.deadline < b.deadline then b.deadline - a.deadline else a.deadline - b.deadline;
            Correct(a, b) && Correct(b, a) <==> d == 0 || 0 < d % FULL_32 < HALF_32
  {
    LaterIs(a, b);
    LaterIs(b, a);
    Signs(if a.deadline < b.deadline then b.deadline - a.deadline else a.deadline - b.deadline);
  }

  lemma Signs(d: nat)
    ensures ToInt32(d) > 0 <==> 0 < d % FULL_32 < HALF_32
    ensures ToInt32(0 - d) < 0 <==> 0 < d % FULL_32 <= HALF_32
    ensures ToInt32(d) == 0 <==> d % FULL_32 == 0
  {
    var q, r := d / FULL_32, d % FULL_32;
    if r < HALF_32 {
      Remainder32(d + HALF_32, q, r + HALF_32);
    } else {
      Remainder32(d + HALF_32, q + 1, r - HALF_32);
    }
    if r <= HALF_32 {
      Remainder32(0 - d + HALF_32, 0 - q, HALF_32 - r);
    } else {
      Remainder32(0 - d + HALF_32, 0 - q - 1, HALF_32 - r + FULL_32);
    }
  }

  lemma Remainder32(x: int, q: int, r: int)
    requires x == q * FULL_32 + r && 0 <= r < FULL_32
    ensures x % FULL_32 == r
  {
  }

  /** At most `w` apart. */
  predicate Within(a: Timer, b: Timer, w: nat) {
    a.deadline <= b.deadline + w && b.deadline <= a.deadline + w
  }

  lemma CloseCorrect(a: Timer, b: Timer)
    requires Within(a, b, HALF_32 - 1)
    ensures Correct(a, b) && Later(a, b) == b.deadline - a.deadline
  {
    LaterIs(a, b);
  }

  /** Distances up to `w` all compare correctly exactly when `w` is below 2^31. */
  lemma WindowExact(w: nat)
    ensures (forall a: Timer, b: Timer ::
              a.deadline < FULL_64 && b.deadline < FULL_64 && Within(a, b, w) ==> Correct(a, b))
              <==> w < HALF_32
  {
    if w < HALF_32 {
      forall a, b | Within(a, b, w)
        ensures Correct(a, b)
      {
        CloseCorrect(a, b);
      }
    } else {
      var a, b := Timer(0, 0), Timer(1, HALF_32);
      LaterIs(a, b);
      assert Within(a, b, w) && !Correct(a, b);
    }
  }

  /** Any two of the timers are less than 2^31 nanoseconds apart. */
  ghost predicate Near(items: multiset<Timer>) {
    forall a, b :: a in items && b in items ==> Within(a, b, HALF_32 - 1)
  }

  lemma NearFewer(items: multiset<Timer>, fewer: multiset<Timer>)
    requires Near(items) && fewer <= items
    ensures Near(fewer)
  {
    forall a, b | a in fewer && b in fewer
      ensures Within(a, b, HALF_32 - 1)
    {
      assert a in items && b in items;
    }
  }

  lemma NearOrder(items: multiset<Timer>)
    requires Near(items)
    ensures Preorder(Later, items)
  {
    forall a, b | a in items && b in items
      ensures Opposite(Later, a, b) && Later(a, b) == b.deadline - a.deadline
    {
      CloseCorrect(a, b);
      CloseCorrect(b, a);
    }
  }

  ghost predicate Earliest(items: multiset<Timer>, t: Timer) {
    t in items && forall u :: u in items ==> t.deadline <= u.deadline
  }

  lemma GreatestEarliest(items: multiset<Timer>, t: Timer)
    requires Near(items) && Greatest(Later, items, t)
    ensures Earliest(items, t)
  {
    forall u | u in items
      ensures t.deadline <= u.deadline
    {
      CloseCorrect(t, u);
    }
  }

  // ----- Arming and firing -----

  /** The heap of armed timers, the list of live ones in arming order, and the heap's capacity. */
  datatype Manager = Manager(armed: seq<Timer>, live: seq<Timer>, capacity: nat)

  function Add(m: Manager, t: Timer): (Manager, Status) {
    var listed := m.(live := m.live + [t]);
    if |m.armed| >= m.capacity then (listed, Inval) else (listed.(armed := Push(Later, m.armed, t)), Ok)
  }

  function AddAll(m: Manager, ts: seq<Timer>): Manager
    decreases |ts|
  {
    if ts == [] then m else AddAll(Add(m, ts[0]).0, ts[1..])
  }

  /** The list without the timer. */
  function Unlink(live: seq<Timer>, t: Timer): seq<Timer> {
    if live == [] then [] else if live[0] == t then live[1..] else [live[0]] + Unlink(live[1..], t)
  }

  /** The state in which a timer's function runs: it is neither armed nor live any more. */
  function Popped(m: Manager): Manager
    requires m.armed != []
  {
    m.(armed := RemoveAt(Later, m.armed, 0), live := Unlink(m.live, m.armed[0]))
  }

  datatype Outcome = Outcome(m: Manager, status: Status, next: nat, fired: Option<Timer>)

  /** One attempt to fire at the time `now`; a timer's function arms the timers `arms` gives. */
  function Fire(m: Manager, now: nat, arms: Timer -> seq<Timer>): Outcome {
    if m.armed == [] then Outcome(m, Ok, 0, None)
    else if now < m.armed[0].deadline then Outcome(m, Ok, m.armed[0].deadline, None)
    else
      var t := m.armed[0];
      var m' := AddAll(Popped(m), arms(t));
      if m'.armed == [] then Outcome(m', Empty, 0, Some(t)) else Outcome(m', Ok, m'.armed[0].deadline, Some(t))
  }

  // ----- What they keep -----

  ghost predicate DistinctIds(ts: seq<Timer>) {
    forall i, j :: 0 <= i < j < |ts| ==> ts[i].id != ts[j].id
  }

  /** A heap of timers close to each other, with exactly the armed timers in the live list. */
  ghost predicate Good(m: Manager) {
    && |m.armed| <= m.capacity && Heap(Later, m.armed) && Near(multiset(m.armed))
    && multiset(m.live) == multiset(m.armed) && DistinctIds(m.live)
  }

  /** There is room for these timers, none of them is live, and all are close to the armed ones. */
  ghost predicate Armable(m: Manager, ts: seq<Timer>) {
    && |m.armed| + |ts| <= m.capacity && Near(multiset(m.armed) + multiset(ts)) && DistinctIds(m.live + ts)
  }

  /**
   * Arming a timer that is not live puts it on the list, and on the heap exactly when that has room:
   * then, and only then, the call succeeds and the live list stays equal to the heap.
   */
  lemma AddExact(m: Manager, t: Timer)
    requires multiset(m.live) == multiset(m.armed) && |m.armed| <= m.capacity && DistinctIds(m.live + [t])
    ensures var (m', status) := Add(m, t);
            && (multiset(m'.live) == multiset(m'.armed) <==> |m.armed| < m.capacity)
            && status == (if |m.armed| < m.capacity then Ok else Inval)
            && multiset(m'.live) == multiset(m.live) + multiset{t} && m'.capacity == m.capacity
            && multiset(m'.armed) == multiset(m.armed) + if |m.armed| < m.capacity then multiset{t} else multiset{}
  {
    SiftUpBag(Later, m.armed + [t], |m.armed|);
    assert multiset(m.live + [t])[t] == multiset(m.live)[t] + 1;
  }

  lemma AddGood(m: Manager, t: Timer)
    requires Good(m) && Armable(m, [t])
    ensures Good(Add(m, t).0) && multiset(Add(m, t).0.armed) == multiset(m.armed) + multiset{t}
  {
    assert multiset([t]) == multiset{t};
    NearOrder(multiset(m.armed) + multiset{t});
    PushCorrect(Later, m.armed, t);
    SiftUpBag(Later, m.armed + [t], |m.armed|);
  }

  lemma FirstIds(live: seq<Timer>, t: Timer, rest: seq<Timer>)
    requires DistinctIds(live + ([t] + rest))
    ensures DistinctIds(live + [t]) && DistinctIds(live + [t] + rest)
  {
    var all := live + ([t] + rest);
    assert live + [t] + rest == all;
    assert live + [t] == all[..|live| + 1];
  }

  lemma ArmableSplit(m: Manager, ts: seq<Timer>)
    requires Good(m) && ts != [] && Armable(m, ts)
    ensures Armable(m, [ts[0]]) && Armable(Add(m, ts[0]).0, ts[1..])
  {
    var (t, rest) := (ts[0], ts[1..]);
    assert ts == [t] + rest;
    SiftUpBag(Later, m.armed + [t], |m.armed|);
    FirstIds(m.live, t, rest);
    assert multiset(m.armed) + multiset(ts) == multiset(m.armed + [t]) + multiset(rest);
    NearFewer(multiset(m.armed) + multiset(ts), multiset(m.armed) + multiset([t]));
  }

  lemma {:induction false} AddAllGood(m: Manager, ts: seq<Timer>)
    requires Good(m) && Armable(m, ts)
    ensures Good(AddAll(m, ts)) && multiset(AddAll(m, ts).armed) == multiset(m.armed) + multiset(ts)
    ensures AddAll(m, ts).capacity == m.capacity
    decreases |ts|
  {
    if ts != [] {
      ArmableSplit(m, ts);
      AddGood(m, ts[0]);
      AddAllGood(Add(m, ts[0]).0, ts[1..]);
      assert ts == [ts[0]] + ts[1..];
    }
  }

  lemma {:induction false} UnlinkBag(live: seq<Timer>, t: Timer)
    ensures multiset(Unlink(live, t)) == multiset(live) - multiset{t}
  {
    if live != [] {
      assert live == [live[0]] + live[1..];
      if live[0] != t {
        UnlinkBag(live[1..], t);
      }
    }
  }

  /** The list without one of its timers: the others, in their order. */
  lemma {:induction false} UnlinkAt(live: seq<Timer>, k: nat)
    requires DistinctIds(live) && k < |live|
    ensures Unlink(live, live[k]) == live[..k] + live[k + 1..]
  {
    if k > 0 {
      var rest := live[1..];
      assert live[0] != live[k] && rest[k - 1] == live[k];
      UnlinkAt(rest, k - 1);
      assert [live[0]] + (rest[..k - 1] + rest[k..]) == live[..k] + live[k + 1..];
    }
  }

  /** Unlinking keeps the others in their order. */
  lemma {:induction false} UnlinkIds(live: seq<Timer>, t: Timer)
    requires DistinctIds(live)
    ensures DistinctIds(Unlink(live, t))
    ensures forall u :: u in Unlink(live, t) ==> u in live
  {
    if live != [] {
      UnlinkIds(live[1..], t);
      if live[0] != t {
        var rest := Unlink(live[1..], t);
        forall j | 0 <= j < |rest|
          ensures rest[j].id != live[0].id
        {
          assert rest[j] in live[1..];
        }
      }
    }
  }

  lemma PoppedGood(m: Manager)
    requires Good(m) && m.armed != []
    ensures Good(Popped(m)) && multiset(Popped(m).armed) == multiset(m.armed) - multiset{m.armed[0]}
    ensures Earliest(multiset(m.armed), m.armed[0])
  {
    NearOrder(multiset(m.armed));
    PopCorrect(Later, m.armed);
    GreatestEarliest(multiset(m.armed), m.armed[0]);
    UnlinkBag(m.live, m.armed[0]);
    UnlinkIds(m.live, m.armed[0]);
  }

  lemma HeadEarliest(m: Manager)
    requires Good(m) && m.armed != []
    ensures Earliest(multiset(m.armed), m.armed[0])
  {
    PoppedGood(m);
  }

  /** What the timer that would fire now arms can be armed. */
  ghost predicate Fireable(m: Manager, now: nat, arms: Timer -> seq<Timer>) {
    m.armed != [] && m.armed[0].deadline <= now ==> Armable(Popped(m), arms(m.armed[0]))
  }

  ghost predicate Due(m: Manager, now: nat) {
    exists t :: t in m.armed && t.deadline <= now
  }

  /** The least deadline armed, or 0 if none is. */
  ghost predicate NextIs(m: Manager, next: nat) {
    if m.armed == [] then next == 0 else exists t :: Earliest(multiset(m.armed), t) && next == t.deadline
  }

  lemma HeadDue(m: Manager, now: nat)
    requires Good(m) && m.armed != []
    ensures Due(m, now) <==> m.armed[0].deadline <= now
    ensures NextIs(m, m.armed[0].deadline)
  {
    HeadEarliest(m);
    assert m.armed[0] in m.armed;
  }

  /**
   * One attempt fires at most one timer: the one with the least deadline, if that is not after
   * `now`. It tells the least deadline then armed, and is "empty" only after the last firing.
   */
  lemma FireCorrect(m: Manager, now: nat, arms: Timer -> seq<Timer>)
    requires Good(m) && Fireable(m, now, arms)
    ensures var o := Fire(m, now, arms);
            && Good(o.m)
            && (o.fired.Some? <==> Due(m, now))
            && (o.fired.None? ==> o.m == m)
            && (o.fired.Some? ==>
                  && Earliest(multiset(m.armed), o.fired.value) && o.fired.value.deadline <= now
                  && multiset(o.m.armed) == multiset(m.armed) - multiset{o.fired.value} + multiset(arms(o.fired.value)))
            && NextIs(o.m, o.next)
            && o.status == (if o.fired.Some? && o.m.armed == [] then Empty else Ok) && o.m.capacity == m.capacity
  {
    if m.armed != [] {
      HeadDue(m, now);
      if m.armed[0].deadline <= now {
        HeadEarliest(m);
        FiringGood(m, arms);
      }
    }
  }

  lemma FiringGood(m: Manager, arms: Timer -> seq<Timer>)
    requires Good(m) && m.armed != [] && Armable(Popped(m), arms(m.armed[0]))
    ensures var m' := AddAll(Popped(m), arms(m.armed[0]));
            && Good(m') && multiset(m'.armed) == multiset(m.armed) - multiset{m.armed[0]} + multiset(arms(m.armed[0]))
            && m'.capacity == m.capacity
            && (m'.armed != [] ==> NextIs(m', m'.armed[0].deadline))
  {
    PoppedGood(m);
    AddAllGood(Popped(m), arms(m.armed[0]));
    var m' := AddAll(Popped(m), arms(m.armed[0]));
    if m'.armed != [] {
      HeadDue(m', 0);
    }
  }

  /**
   * Two timers 2^31 nanoseconds apart: the later one gets to the head of the heap, so that the
   * other one does not fire when it is due.
   */
  lemma FarApart(arms: Timer -> seq<Timer>)
    ensures var (a, b) := (Timer(0, 5), Timer(1, 5 + HALF_32));
            var m := Add(Add(Manager([], [], 2), a).0, b).0;
            a in m.armed && Fire(m, 5, arms).fired == None
  {
    var (a, b) := (Timer(0, 5), Timer(1, 5 + HALF_32));
    LaterIs(a, b);
    assert SiftUp(Later, [b, a], 0) == [b, a];
    assert SiftUp(Later, [a], 0) == [a];
    assert Swap([a, b], 1, 0) == [b, a];
    assert [a] + [b] == [a, b];
    assert SiftUp(Later, [a, b], 1) == [b, a];
    assert [] + [a] == [a];
  }

  // ----- Runs -----

  datatype Op =
    | ArmAt(t: Timer)
    | FireNext(now: nat, arms: Timer -> seq<Timer>)

  /** A manager with all that was ever armed and all that fired, in that order. */
  datatype History = History(m: Manager, armed: multiset<Timer>, fired: seq<Timer>)

  ghost predicate Allowed(m: Manager, op: Op) {
    match op
    case ArmAt(t) => Armable(m, [t])
    case FireNext(now, arms) => Fireable(m, now, arms)
  }

  ghost function Apply(h: History, op: Op): History {
    match op
    case ArmAt(t) => History(Add(h.m, t).0, h.armed + multiset{t}, h.fired)
    case FireNext(now, arms) =>
      var o := Fire(h.m, now, arms);
      if o.fired.Some? then History(o.m, h.armed + multiset(arms(o.fired.value)), h.fired + [o.fired.value])
      else h.(m := o.m)
  }

  ghost function After(capacity: nat, run: seq<Op>): History {
    if run == [] then History(Manager([], [], capacity), multiset{}, [])
    else Apply(After(capacity, run[..|run| - 1]), run[|run| - 1])
  }

  ghost predicate Legal(capacity: nat, run: seq<Op>) {
    run != [] ==> Legal(capacity, run[..|run| - 1]) && Allowed(After(capacity, run[..|run| - 1]).m, run[|run| - 1])
  }

  lemma Account(fired: seq<Timer>, t: Timer, live: multiset<Timer>, more: multiset<Timer>)
    requires t in live
    ensures multiset(fired + [t]) + (live - multiset{t} + more) == multiset(fired) + live + more
  {
  }

  lemma StepKeeps(h: History, op: Op)
    requires Good(h.m) && Allowed(h.m, op) && h.armed == multiset(h.fired) + multiset(h.m.live)
    ensures var h' := Apply(h, op); Good(h'.m) && h'.armed == multiset(h'.fired) + multiset(h'.m.live)
  {
    match op
    case ArmAt(t) => AddGood(h.m, t);
    case FireNext(now, arms) =>
      FireCorrect(h.m, now, arms);
      var o := Fire(h.m, now, arms);
      if o.fired.Some? {
        Account(h.fired, o.fired.value, multiset(h.m.armed), multiset(arms(o.fired.value)));
      }
  }

  /**
   * In every run the live list holds exactly the heap's timers, and every timer that was armed
   * has fired once or is still live.
   */
  lemma {:induction false} EveryRun(capacity: nat, run: seq<Op>)
    requires Legal(capacity, run)
    ensures var h := After(capacity, run); Good(h.m) && h.armed == multiset(h.fired) + multiset(h.m.live)
    decreases |run|
  {
    if run != [] {
      EveryRun(capacity, run[..|run| - 1]);
      StepKeeps(After(capacity, run[..|run| - 1]), run[|run| - 1]);
    }
  }

  // ----- Runs with deadlines however far apart -----

  /** The heap has room for what the operation arms, and none of that is live. */
  ghost predicate HasRoom(m: Manager, op: Op) {
    match op
    case ArmAt(t) => |m.armed| < m.capacity && DistinctIds(m.live + [t])
    case FireNext(now, arms) =>
      m.armed != [] && m.armed[0].deadline <= now ==>
        |m.armed| - 1 + |arms(m.armed[0])| <= m.capacity && DistinctIds(Popped(m).live + arms(m.armed[0]))
  }

  ghost predicate Roomy(capacity: nat, run: seq<Op>) {
    run != [] ==> Roomy(capacity, run[..|run| - 1]) && HasRoom(After(capacity, run[..|run| - 1]).m, run[|run| - 1])
  }

  lemma {:induction false} AddAllBag(m: Manager, ts: seq<Timer>)
    requires |m.armed| + |ts| <= m.capacity
    ensures multiset(AddAll(m, ts).armed) == multiset(m.armed) + multiset(ts)
    ensures multiset(AddAll(m, ts).live) == multiset(m.live) + multiset(ts)
    decreases |ts|
  {
    if ts != [] {
      SiftUpBag(Later, m.armed + [ts[0]], |m.armed|);
      AddAllBag(Add(m, ts[0]).0, ts[1..]);
      assert ts == [ts[0]] + ts[1..];
    }
  }

  /**
   * However wrong the comparison, at most one timer fires, an armed one and never early, and none is
   * forgotten.  The one that fires is at the head of the heap, and does when it is due; the time told
   * is that of the one at the head afterwards.
   */
  lemma FireAccounts(m: Manager, now: nat, arms: Timer -> seq<Timer>)
    requires multiset(m.live) == multiset(m.armed) && HasRoom(m, FireNext(now, arms))
    ensures var o := Fire(m, now, arms);
            && multiset(o.m.live) == multiset(o.m.armed)
            && (o.fired.Some? <==> m.armed != [] && m.armed[0].deadline <= now)
            && o.next == (if o.m.armed == [] then 0 else o.m.armed[0].deadline)
            && o.status == (if o.fired.Some? && o.m.armed == [] then Empty else Ok)
            && (o.fired.None? ==> o.m == m)
            && (o.fired.Some? ==>
                  && o.fired.value == m.armed[0] && o.fired.value in multiset(m.armed) && o.fired.value.deadline <= now
                  && multiset(o.m.armed) == multiset(m.armed) - multiset{o.fired.value} + multiset(arms(o.fired.value)))
  {
    if m.armed != [] && m.armed[0].deadline <= now {
      FiringBags(m, arms(m.armed[0]));
    }
  }

  lemma FiringBags(m: Manager, more: seq<Timer>)
    requires multiset(m.live) == multiset(m.armed) && m.armed != [] && |m.armed| - 1 + |more| <= m.capacity
    ensures var (m', t) := (AddAll(Popped(m), more), m.armed[0]);
            && multiset(m'.live) == multiset(m'.armed) == multiset(m.armed) - multiset{t} + multiset(more)
            && t in multiset(m.armed)
  {
    RemoveBag(Later, m.armed, 0);
    UnlinkBag(m.live, m.armed[0]);
    AddAllBag(Popped(m), more);
  }

  lemma StepAccounts(h: History, op: Op)
    requires multiset(h.m.live) == multiset(h.m.armed) && HasRoom(h.m, op)
    requires h.armed == multiset(h.fired) + multiset(h.m.live)
    ensures var h' := Apply(h, op);
            multiset(h'.m.live) == multiset(h'.m.armed) && h'.armed == multiset(h'.fired) + multiset(h'.m.live)
  {
    match op
    case ArmAt(t) =>
      SiftUpBag(Later, h.m.armed + [t], |h.m.armed|);
    case FireNext(now, arms) =>
      FireAccounts(h.m, now, arms);
      var o := Fire(h.m, now, arms);
      if o.fired.Some? {
        Account(h.fired, o.fired.value, multiset(h.m.armed), multiset(arms(o.fired.value)));
      }
  }

  /**
   * In every run that never arms a live timer or on a full heap, whatever the deadlines, every timer
   * armed has fired once or is live and in the heap.
   */
  lemma {:induction false} EveryRunAccounts(capacity: nat, run: seq<Op>)
    requires Roomy(capacity, run)
    ensures var h := After(capacity, run);
            multiset(h.m.live) == multiset(h.m.armed) && h.armed == multiset(h.fired) + multiset(h.m.live)
    decreases |run|
  {
    if run != [] {
      EveryRunAccounts(capacity, run[..|run| - 1]);
      StepAccounts(After(capacity, run[..|run| - 1]), run[|run| - 1]);
    }
  }

  // ----- Firing everything -----

  ghost predicate AllDue(m: Manager, now: nat) {
    forall t :: t in m.armed ==> t.deadline <= now
  }

  ghost predicate InOrder(ts: seq<Timer>) {
    forall i, j :: 0 <= i < j < |ts| ==> ts[i].deadline <= ts[j].deadline
  }

  function NoArms(t: Timer): seq<Timer> { [] }

  /** What as many attempts as there are armed timers fire, when all are due and arm nothing. */
  ghost function FireAll(m: Manager, now: nat): seq<Timer>
    requires Good(m) && AllDue(m, now)
    decreases |m.armed|
  {
    if m.armed == [] then []
    else
      var o := Fire(m, now, NoArms);
      FireDue(m, now);
      [o.fired.value] + FireAll(o.m, now)
  }

  lemma FireDue(m: Manager, now: nat)
    requires Good(m) && m.armed != [] && AllDue(m, now)
    ensures Fire(m, now, NoArms).fired == Some(m.armed[0]) && Fire(m, now, NoArms).m == Popped(m) && Good(Popped(m))
    ensures AllDue(Popped(m), now)
  {
    PoppedGood(m);
    assert m.armed[0] in m.armed;
    forall t | t in Popped(m).armed
      ensures t.deadline <= now
    {
      assert t in multiset(Popped(m).armed);
      assert t in multiset(m.armed);
    }
  }

  /** When all timers are due, firing them one by one fires each once, in the order of their deadlines. */
  lemma {:induction false} FiresInOrder(m: Manager, now: nat)
    requires Good(m) && AllDue(m, now)
    ensures multiset(FireAll(m, now)) == multiset(m.armed) && InOrder(FireAll(m, now))
    decreases |m.armed|
  {
    if m.armed != [] {
      FireDue(m, now);
      PoppedGood(m);
      FiresInOrder(Popped(m), now);
      assert FireAll(m, now) == [m.armed[0]] + FireAll(Popped(m), now);
      EarliestFirst(multiset(m.armed), m.armed[0], FireAll(Popped(m), now));
    }
  }

  lemma EarliestFirst(items: multiset<Timer>, t: Timer, r: seq<Timer>)
    requires Earliest(items, t) && InOrder(r) && multiset(r) == items - multiset{t}
    ensures multiset([t] + r) == items && InOrder([t] + r)
  {
    forall j | 0 <= j < |r|
      ensures t.deadline <= r[j].deadline
    {
      assert r[j] in multiset(r);
    }
  }
}

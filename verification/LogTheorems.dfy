/** What allocation, referencing and freeing do to the regions in use, call by call and over whole runs. */
module LogTheorems {
  import opened Results
  import opened LogSpec

  /** Whether an allocation gets as far as looking for free cells. */
  predicate Tries(s: Log, req: nat)
    requires |s.rc| == |s.nr| && s.head < |s.nr|
  {
    req <= 255 && req <= |s.nr| && s.rc[s.head] == 0
  }

  predicate Sized(s: Log) {
    |s.nr| == |s.rc| && s.head < |s.nr|
  }

  /** The log head behind a region that ends at `e`: at the end it goes back to the start. */
  function HeadAt(e: nat, n: nat): nat {
    if e == n then 0 else e
  }

  lemma HeadIndex(s: Log, b: seq<nat>) returns (h: nat)
    requires Tiling(s, b)
    ensures h + 1 < |b| && b[h] == s.head
  {
    h :| h < |b| && b[h] == s.head;
  }

  /** The state in which an allocation scans, and the boundary from which it does. */
  lemma ScanState(s: Log, b: seq<nat>, req: nat) returns (t: Log, d: seq<nat>, j: nat)
    requires Tiling(s, b) && req > 0 && Tries(s, req)
    ensures t == (if Wraps(s, req) then WrapWrite(s) else s) && Tiling(t, d) && |t.nr| == |s.nr|
    ensures j + 1 < |d| && d[j] == (if Wraps(s, req) then 0 else s.head) && d[j] + req <= |t.nr|
    ensures forall p: nat, len: nat, r: nat ::
              Region(t, d, p, len, r) <==> Region(s, b, p, len, r) && (Wraps(s, req) ==> p < s.head)
  {
    var h := HeadIndex(s, b);
    if Wraps(s, req) {
      t, d, j := WrapWrite(s), WrapBounds(s, b, h), 0;
      WrapTiling(s, b, h);
      forall p: nat, len: nat, r: nat
        ensures Region(t, d, p, len, r) <==> Region(s, b, p, len, r) && p < s.head
      {
        WrapRegions(s, b, h, p, len, r);
      }
    } else {
      t, d, j := s, b, h;
    }
  }

  /** No region in use reaches into the cells from `lo` to `hi`. */
  ghost predicate Clear(s: Log, b: seq<nat>, lo: nat, hi: nat) {
    forall p: nat, len: nat, r: nat :: Region(s, b, p, len, r) ==> p + len <= lo || hi <= p
  }

  /** The scan finds enough exactly when the wanted cells are clear. */
  lemma ScanEnough(s: Log, b: seq<nat>, j: nat, req: nat) returns (e: nat)
    requires Tiling(s, b) && j + 1 < |b| && b[j] + req <= |s.nr| && req > 0
    ensures j <= e < |b| && Scan(s, b[j], req, 0, 0).0 == b[e] - b[j]
    ensures b[e] - b[j] >= req <==> Clear(s, b, b[j], b[j] + req)
    ensures b[e] - b[j] >= req && req < 256 ==>
              Markable(s, b, j, e, req)
              && Scan(s, b[j], req, 0, 0).1 == s.nr[b[e - 1]]
  {
    e := ScanStops(s, b, j, j, req);
    if b[e] - b[j] >= req {
      forall p: nat, len: nat, r: nat | Region(s, b, p, len, r)
        ensures p + len <= b[j] || b[j] + req <= p
      {
        var i: nat :| RegionAt(s, b, i, p, len, r);
        assert j <= i < e ==> FreeTile(s, b, i);
        if i < j {
          assert b[i + 1] <= b[j];
        } else {
          assert b[e] <= b[i];
        }
      }
    } else {
      assert RegionAt(s, b, e, b[e], b[e + 1] - b[e], s.rc[b[e]]);
      assert Region(s, b, b[e], b[e + 1] - b[e], s.rc[b[e]]);
    }
  }

  /**
   * An allocation succeeds exactly when the request is at most 255 cells and at most all cells,
   * the cell at the log head is free, and no region in use reaches into the wanted cells: those
   * at the head, or those at the start when the request does not fit behind the head.
   */
  lemma AllocSucceeds(s: Log, b: seq<nat>, req: nat)
    requires Tiling(s, b) && req > 0
    ensures Alloc(s, req).1.Some? <==>
            && Tries(s, req)
            && var lo := if Wraps(s, req) then 0 else s.head;
            forall p: nat, len: nat, r: nat ::
              Region(s, b, p, len, r) && (Wraps(s, req) ==> p < s.head) ==> p + len <= lo || lo + req <= p
  {
    if Tries(s, req) {
      var t, d, j := ScanState(s, b, req);
      var e := ScanEnough(t, d, j, req);
    }
  }

  /** What an allocation that looks for cells returns: the state it scanned in, marked if it found enough. */
  lemma AllocPlan(s: Log, b: seq<nat>, req: nat) returns (t: Log, d: seq<nat>, j: nat, e: nat)
    requires Tiling(s, b) && req > 0 && Tries(s, req)
    ensures Tiling(t, d)
    ensures forall p: nat, len: nat, r: nat ::
              Region(t, d, p, len, r) <==> Region(s, b, p, len, r) && (Wraps(s, req) ==> p < s.head)
    ensures Alloc(s, req) == (t, None)
            || (Markable(t, d, j, e, req) && Alloc(s, req) == (Marked(t, d, j, e, req), Some(d[j])))
  {
    t, d, j := ScanState(s, b, req);
    e := ScanEnough(t, d, j, req);
  }

  /** Every allocation, successful or not, leaves headers that tile the cells. */
  lemma AllocTiles(s: Log, b: seq<nat>, req: nat) returns (c: seq<nat>)
    requires Tiling(s, b) && req > 0
    ensures var (t, got) := Alloc(s, req);
            && Tiling(t, c)
            && (forall p: nat, len: nat, r: nat ::
                  Region(t, c, p, len, r) <==>
                  || (Region(s, b, p, len, r) && (Tries(s, req) && Wraps(s, req) ==> p < s.head))
                  || (got == Some(p) && len == req && r == 1))
  {
    if !Tries(s, req) {
      return b;
    }
    var t, d, j, e := AllocPlan(s, b, req);
    if Alloc(s, req) == (t, None) {
      return d;
    }
    c := Carve(d, j, e, d[j] + req);
    MarkedTiling(t, d, j, e, req);
    MarkedRegions(t, d, j, e, req);
    var (t', got) := Alloc(s, req);
    assert t' == Marked(t, d, j, e, req) && got == Some(d[j]);
    forall p: nat, len: nat, r: nat
      ensures Region(t', c, p, len, r) <==>
              (Region(s, b, p, len, r) && (Wraps(s, req) ==> p < s.head)) || (p == d[j] && len == req && r == 1)
    {
      assert Region(t, d, p, len, r) <==> Region(s, b, p, len, r) && (Wraps(s, req) ==> p < s.head);
    }
  }

  /**
   * Where allocations go: a failing one leaves the log head where it is, and all the headers unless
   * it wraps; a successful one starts at the log head, or at cell 0 exactly when the request does
   * not fit behind it, and leaves the log head behind the new region.
   */
  lemma AllocHead(s: Log, req: nat)
    requires Sized(s) && req > 0
    ensures var (t, got) := Alloc(s, req);
            && Sized(t) && |t.nr| == |s.nr|
            && (got.None? ==> t.head == s.head && (!Tries(s, req) || !Wraps(s, req) ==> t == s))
            && (got.Some? ==> got.value == (if s.head + req <= |s.nr| then s.head else 0)
                              && got.value + req <= |s.nr| && t.head == HeadAt(got.value + req, |s.nr|))
  {
  }

  // ----- Runs -----

  /** What clients hold: for each start cell, the length and the number of references. */
  type Held = map<nat, (nat, nat)>

  datatype Op =
    | DoAlloc(req: nat)
    | DoReference(p: nat)
    | DoFree(p: nat)
    | DoWrite(p: nat, cell: nat, nr: nat, rc: nat)

  /** The call is about cells that there are. */
  predicate InRange(op: Op, n: nat) {
    match op
    case DoAlloc(req) => req > 0
    case DoReference(p) => p < n
    case DoFree(p) => p < n
    case DoWrite(_, c, _, _) => c < n
  }

  /**
   * What clients may do: use what they hold, write behind headers of what they hold, and ask
   * for cells; a request that wraps must come when nothing behind the log head is held.
   */
  predicate Allowed(s: Log, held: Held, op: Op) {
    && |s.rc| == |s.nr| && s.head < |s.nr|
    && match op
       case DoAlloc(req) => req > 0 && (Tries(s, req) && Wraps(s, req) ==> forall p :: p in held ==> p < s.head)
       case DoReference(p) => p in held && p < |s.rc|
       case DoFree(p) => p in held && p < |s.rc|
       case DoWrite(p, c, x, y) => p in held && p < c < p + held[p].0 && c < |s.nr| && x < 256 && y < 256
  }

  /** One call: the new state, the status, and the cell of a new region. */
  function Do(s: Log, op: Op): (r: (Log, Status, Option<nat>))
    requires Sized(s) && InRange(op, |s.nr|)
    ensures Sized(r.0) && |r.0.nr| == |s.nr|
  {
    match op
    case DoAlloc(req) =>
      var (t, got) := Alloc(s, req);
      AllocHead(s, req);
      (t, if got.Some? then Ok else NoMem, got)
    case DoReference(p) => var (t, status) := Reference(s, p); (t, status, None)
    case DoFree(p) => var (t, status) := Release(s, p); (t, status, None)
    case DoWrite(_, c, x, y) => (s.(nr := s.nr[c := x], rc := s.rc[c := y]), Ok, None)
  }

  /**
   * What clients hold after a call, by their own count: all they look at is where a new region is.
   * A reference is theirs unless it would be the 256th.
   */
  function Keep(held: Held, op: Op, got: Option<nat>): Held {
    match op
    case DoAlloc(req) => if got.Some? then held[got.value := (req, 1)] else held
    case DoReference(p) => if 1 <= Count(held, p) <= 254 then held[p := (held[p].0, held[p].1 + 1)] else held
    case DoFree(p) => if Count(held, p) > 1 then held[p := (held[p].0, held[p].1 - 1)] else held - {p}
    case DoWrite(_, _, _, _) => held
  }

  /** The number of references that clients hold. */
  function Count(held: Held, p: nat): nat {
    if p in held then held[p].1 else 0
  }

  function Apply(s: Log, held: Held, op: Op): (Log, Held)
    requires Allowed(s, held, op)
  {
    var (t, _, got) := Do(s, op);
    (t, Keep(held, op, got))
  }

  /** The regions in use are exactly what clients hold. */
  ghost predicate Matches(s: Log, b: seq<nat>, held: Held) {
    && Tiling(s, b)
    && forall p: nat, len: nat, r: nat :: Region(s, b, p, len, r) <==> p in held && held[p] == (len, r)
  }

  lemma AllocMatches(s: Log, b: seq<nat>, held: Held, req: nat) returns (c: seq<nat>)
    requires Matches(s, b, held) && Allowed(s, held, DoAlloc(req))
    ensures var (t, held') := Apply(s, held, DoAlloc(req)); Matches(t, c, held')
    ensures Alloc(s, req).1.Some? ==> Alloc(s, req).1.value !in held
  {
    c := AllocTiles(s, b, req);
    var (t, got) := Alloc(s, req);
    if got.Some? {
      if got.value in held {
        assert Region(s, b, got.value, held[got.value].0, held[got.value].1);
      }
      AllocFresh(s, b, req);
    }
  }

  /** A new region starts where none was in use. */
  lemma AllocFresh(s: Log, b: seq<nat>, req: nat)
    requires Tiling(s, b) && req > 0 && Alloc(s, req).1.Some?
    ensures forall len: nat, r: nat :: (Tries(s, req) && Wraps(s, req) ==> Alloc(s, req).1.value < s.head) ==>
              !Region(s, b, Alloc(s, req).1.value, len, r)
  {
    AllocSucceeds(s, b, req);
    var p := Alloc(s, req).1.value;
    forall len: nat, r: nat | (Wraps(s, req) ==> p < s.head) && Region(s, b, p, len, r)
      ensures false
    {
    }
  }

  lemma CountMatches(s: Log, b: seq<nat>, held: Held, op: Op)
    requires Matches(s, b, held) && Allowed(s, held, op) && (op.DoReference? || op.DoFree?)
    ensures var (t, held') := Apply(s, held, op); Matches(t, b, held')
  {
    HeldCount(s, b, held, op.p);
    if op.DoReference? {
      ReferenceExact(s, b, held, op.p);
    } else {
      FreeExact(s, b, held, op.p);
    }
  }

  /**
   * Where a region starts, a further reference is granted exactly when clients hold at least one
   * and at most 254, and is then one more that they hold; otherwise it is "busy" and nothing changes.
   */
  lemma ReferenceExact(s: Log, b: seq<nat>, held: Held, p: nat)
    requires Matches(s, b, held) && p in b && p < |s.rc|
    ensures var (t, status) := Reference(s, p);
            if 1 <= Count(held, p) <= 254
            then status == Ok && Matches(t, b, held[p := (held[p].0, Count(held, p) + 1)])
            else status == Busy && t == s
  {
    CountIs(s, b, held, p);
    if 1 <= s.rc[p] <= 254 {
      CountHeld(s, b, held, p, s.rc[p] + 1);
    }
  }

  /**
   * Where a region starts, a reference is taken back exactly when clients hold one, and they then
   * hold one less, and nothing of the region after the last; otherwise it is "invalid" and nothing changes.
   */
  lemma FreeExact(s: Log, b: seq<nat>, held: Held, p: nat)
    requires Matches(s, b, held) && p in b && p < |s.rc|
    ensures var (t, status) := Release(s, p);
            if Count(held, p) == 0 then status == Inval && t == s
            else
              && status == Ok
              && Matches(t, b, if Count(held, p) == 1 then held - {p} else held[p := (held[p].0, Count(held, p) - 1)])
  {
    CountIs(s, b, held, p);
    if s.rc[p] > 0 {
      CountHeld(s, b, held, p, s.rc[p] - 1);
    }
  }

  /** The count in the header of a region is the number of references held. */
  lemma CountIs(s: Log, b: seq<nat>, held: Held, p: nat)
    requires Matches(s, b, held) && p in b && p < |s.rc|
    ensures s.rc[p] == Count(held, p) < 256
  {
    var i: nat :| i < |b| && b[i] == p;
    if p in held {
      assert Region(s, b, p, held[p].0, held[p].1);
    } else {
      var len := b[i + 1] - p;
      assert RegionAt(s, b, i, p, len, s.rc[p]);
      assert !Region(s, b, p, len, s.rc[p]);
    }
  }

  lemma HeldCount(s: Log, b: seq<nat>, held: Held, p: nat)
    requires Matches(s, b, held) && p in held
    ensures p in b && p < |s.rc| && held[p].1 == s.rc[p] && 0 < s.rc[p] < 256
  {
    assert Region(s, b, p, held[p].0, held[p].1);
  }

  /** Another count for a region is another number of references held. */
  lemma CountHeld(s: Log, b: seq<nat>, held: Held, p: nat, r: nat)
    requires Matches(s, b, held) && p in held && p < |s.rc| && r < 256
    ensures Matches(s.(rc := s.rc[p := r]), b, if r > 0 then held[p := (held[p].0, r)] else held - {p})
  {
    assert Region(s, b, p, held[p].0, held[p].1);
    CountChanged(s, b, p, held[p].0, held[p].1, r);
  }

  /** Every allowed call keeps the regions in use equal to what clients hold. */
  lemma StepMatches(s: Log, b: seq<nat>, held: Held, op: Op) returns (c: seq<nat>)
    requires Matches(s, b, held) && Allowed(s, held, op)
    ensures var (t, held') := Apply(s, held, op); Matches(t, c, held')
  {
    match op
    case DoAlloc(req) => c := AllocMatches(s, b, held, req);
    case DoReference(_) =>
      CountMatches(s, b, held, op);
      c := b;
    case DoFree(_) =>
      CountMatches(s, b, held, op);
      c := b;
    case DoWrite(p, cell, x, y) =>
      assert Region(s, b, p, held[p].0, held[p].1);
      InsideRegion(s, b, p, held[p].0, held[p].1, cell);
      InteriorWrite(s, b, cell, x, y);
      c := b;
  }

  /** Every call of the run was allowed when it was made, starting with all cells free. */
  ghost predicate Legal(start: Log, run: seq<Op>)
    decreases |run|, 0
  {
    run != [] ==>
      && Legal(start, run[..|run| - 1])
      && var (s, held) := After(start, run[..|run| - 1]); Allowed(s, held, run[|run| - 1])
  }

  ghost function After(start: Log, run: seq<Op>): (Log, Held)
    requires Legal(start, run)
    decreases |run|, 1
  {
    if run == [] then (start, map[])
    else
      var (s, held) := After(start, run[..|run| - 1]);
      Apply(s, held, run[|run| - 1])
  }

  /** A new log: the first header says "free to the end", the other cells hold anything. */
  ghost predicate Fresh(s: Log) {
    Shaped(s) && s.nr[0] == 0 && s.rc[0] == 0 && s.head == 0
  }

  /** In every run the headers tile the cells and the regions in use are exactly what clients hold. */
  lemma {:induction false} EveryRun(start: Log, run: seq<Op>) returns (b: seq<nat>)
    requires Fresh(start) && Legal(start, run)
    ensures var (s, held) := After(start, run); Matches(s, b, held)
    decreases |run|
  {
    if run == [] {
      b := [0, |start.nr|];
      assert Tile(start, b, 0);
      forall p: nat, len: nat, r: nat
        ensures !Region(start, b, p, len, r)
      {
      }
    } else {
      var front := run[..|run| - 1];
      var d := EveryRun(start, front);
      var (s, held) := After(start, front);
      b := StepMatches(s, d, held, run[|run| - 1]);
    }
  }

  /** In every run what clients hold never overlaps and lies within the cells. */
  lemma EveryRunDisjoint(start: Log, run: seq<Op>, p: nat, q: nat)
    requires Fresh(start) && Legal(start, run)
    requires var held := After(start, run).1; p in held && q in held && p != q
    ensures var (s, held) := After(start, run);
            && 0 < held[p].0 && p + held[p].0 <= |s.nr|
            && (p + held[p].0 <= q || q + held[q].0 <= p)
  {
    var b := EveryRun(start, run);
    var (s, held) := After(start, run);
    assert Region(s, b, p, held[p].0, held[p].1) && Region(s, b, q, held[q].0, held[q].1);
    RegionsDisjoint(s, b, p, held[p].0, held[p].1, q, held[q].0, held[q].1);
  }

  /** In every run, what counts as held by clients decides what reference and free answer. */
  lemma EveryRunAnswers(start: Log, run: seq<Op>, p: nat) returns (b: seq<nat>)
    requires Fresh(start) && Legal(start, run)
    ensures var (s, held) := After(start, run);
            && Matches(s, b, held)
            && (p in held ==> p in b)
            && (p in b && p < |s.rc| ==>
                  && Reference(s, p).1 == (if 1 <= Count(held, p) <= 254 then Ok else Busy)
                  && Release(s, p).1 == (if Count(held, p) > 0 then Ok else Inval))
  {
    b := EveryRun(start, run);
    var (s, held) := After(start, run);
    if p in held {
      HeldCount(s, b, held, p);
    }
    if p in b && p < |s.rc| {
      ReferenceExact(s, b, held, p);
      FreeExact(s, b, held, p);
    }
  }

  // ----- A log is written in order -----

  ghost predicate AllInRange(run: seq<Op>, n: nat) {
    forall i :: 0 <= i < |run| ==> InRange(run[i], n)
  }

  /** Any calls whatever: where they lead, and the end of the last region that was allocated. */
  ghost function Calls(start: Log, run: seq<Op>): (r: (Log, nat))
    requires Sized(start) && AllInRange(run, |start.nr|)
    ensures Sized(r.0) && |r.0.nr| == |start.nr|
  {
    if run == [] then (start, 0)
    else
      var ((s, end), op) := (Calls(start, run[..|run| - 1]), run[|run| - 1]);
      var (t, _, got) := Do(s, op);
      (t, if op.DoAlloc? && got.Some? then got.value + op.req else end)
  }

  /** Whatever calls there were, the log head is behind the region that was allocated last. */
  lemma {:induction false} HeadBehindLast(start: Log, run: seq<Op>)
    requires Sized(start) && start.head == 0 && AllInRange(run, |start.nr|)
    ensures var (s, end) := Calls(start, run); end <= |s.nr| && s.head == HeadAt(end, |s.nr|)
  {
    if run != [] {
      var front, op := run[..|run| - 1], run[|run| - 1];
      HeadBehindLast(start, front);
      if op.DoAlloc? {
        AllocHead(Calls(start, front).0, op.req);
      }
    }
  }

  /**
   * A log is written in order: whatever calls there were, failing and wrapping ones included, the
   * next region starts right behind the one that was allocated last, or at cell 0 exactly when it
   * does not fit there.
   */
  lemma LogOrder(start: Log, run: seq<Op>, req: nat)
    requires Sized(start) && start.head == 0 && AllInRange(run, |start.nr|) && req > 0
    ensures var (s, end) := Calls(start, run);
            Alloc(s, req).1.Some? ==> Alloc(s, req).1.value == if end + req <= |s.nr| then end else 0
  {
    HeadBehindLast(start, run);
    AllocHead(Calls(start, run).0, req);
  }

  lemma {:induction false} SameLog(start: Log, run: seq<Op>)
    requires Fresh(start) && Legal(start, run)
    ensures AllInRange(run, |start.nr|) && Calls(start, run).0 == After(start, run).0
    decreases |run|
  {
    if run != [] {
      SameLog(start, run[..|run| - 1]);
      forall i | 0 <= i < |run|
        ensures InRange(run[i], |start.nr|)
      {
        assert i < |run| - 1 ==> run[i] == run[..|run| - 1][i];
      }
    }
  }

  /**
   * What an allocation answers, told by what clients know: the region starts behind the last one, or
   * at cell 0 when it does not fit there, exactly when it has at most 255 cells and all cells, none of
   * its cells is held, and the cell behind the last region is not the start of one that is held.
   */
  lemma EveryRunAllocates(start: Log, run: seq<Op>, req: nat)
    requires Fresh(start) && Legal(start, run)
    requires var (s, held) := After(start, run); Allowed(s, held, DoAlloc(req))
    ensures AllInRange(run, |start.nr|)
    ensures var ((s, held), end) := (After(start, run), Calls(start, run).1);
            Alloc(s, req).1 == Answer(held, |s.nr|, end, req)
  {
    var b := EveryRun(start, run);
    SameLog(start, run);
    HeadBehindLast(start, run);
    AllocAnswer(After(start, run).0, b, After(start, run).1, Calls(start, run).1, req);
  }

  /** In a log of `n` cells, with the last region ending at `end`: where the next one is to be. */
  function Answer(held: Held, n: nat, end: nat, req: nat): Option<nat> {
    var lo := if end + req <= n then end else 0;
    if req <= 255 && req <= n && HeadAt(end, n) !in held && Untouched(held, lo, lo + req) then Some(lo) else None
  }

  /** No region that clients hold reaches into the cells from `lo` to `hi`. */
  predicate Untouched(held: Held, lo: nat, hi: nat) {
    forall p :: p in held ==> p + held[p].0 <= lo || hi <= p
  }

  lemma AllocAnswer(s: Log, b: seq<nat>, held: Held, end: nat, req: nat)
    requires Matches(s, b, held) && Allowed(s, held, DoAlloc(req))
    requires end <= |s.nr| && s.head == HeadAt(end, |s.nr|)
    ensures Alloc(s, req).1 == Answer(held, |s.nr|, end, req)
  {
    AllocHead(s, req);
    AllocHeld(s, b, held, req);
  }

  lemma AllocHeld(s: Log, b: seq<nat>, held: Held, req: nat)
    requires Matches(s, b, held) && Allowed(s, held, DoAlloc(req))
    ensures var lo := if Wraps(s, req) then 0 else s.head;
            Alloc(s, req).1.Some? <==>
              req <= 255 && req <= |s.nr| && s.head !in held && Untouched(held, lo, lo + req)
  {
    var lo := if Wraps(s, req) then 0 else s.head;
    AllocSucceeds(s, b, req);
    CountIs(s, b, held, s.head);
    HeldRegions(s, b, held);
    if Alloc(s, req).1.Some? {
      forall p | p in held
        ensures p + held[p].0 <= lo || lo + req <= p
      {
        assert Region(s, b, p, held[p].0, held[p].1);
      }
    }
  }

  lemma HeldRegions(s: Log, b: seq<nat>, held: Held)
    requires Matches(s, b, held)
    ensures forall p :: p in held ==> Region(s, b, p, held[p].0, held[p].1) && held[p].1 > 0
  {
    forall p | p in held
      ensures Region(s, b, p, held[p].0, held[p].1)
    {
    }
  }

  // ----- A run after which a wrap goes wrong -----

  ghost predicate Reached(start: Log, run: seq<Op>, s: Log, held: Held) {
    Fresh(start) && Legal(start, run) && After(start, run) == (s, held)
  }

  lemma Extend(start: Log, run: seq<Op>, s: Log, held: Held, op: Op, t: Log, held': Held)
    requires Reached(start, run, s, held) && Allowed(s, held, op) && Apply(s, held, op) == (t, held')
    ensures Reached(start, run + [op], t, held')
  {
    assert (run + [op])[..|run|] == run;
  }

  function Ones(n: nat, k: nat): seq<nat> {
    seq(n, i => if i < k then 1 else 0)
  }

  /** The first `k` of `n` cells are taken one by one, the others free. */
  function Filled(n: nat, k: nat): Log {
    Log(Ones(n, k), Ones(n, k), if k == n then 0 else k)
  }

  function FilledBy(k: nat): (held: Held)
    ensures forall p: nat :: p in held <==> p < k
    ensures forall p: nat :: p in held ==> held[p] == (1, 1)
  {
    if k == 0 then map[] else FilledBy(k - 1)[k - 1 := (1, 1)]
  }

  lemma FillStep(n: nat, k: nat)
    requires k < n
    ensures Alloc(Filled(n, k), 1) == (Filled(n, k + 1), Some(k))
  {
    var s := Filled(n, k);
    assert Ones(n, k)[k := 1] == Ones(n, k + 1);
    if k + 1 < n {
      assert Ones(n, k + 1)[k + 1 := 0] == Ones(n, k + 1);
    }
  }

  lemma {:induction false} Fill(n: nat, k: nat) returns (run: seq<Op>)
    requires 0 < n && k <= n
    ensures Reached(Filled(n, 0), run, Filled(n, k), FilledBy(k))
  {
    if k == 0 {
      run := [];
    } else {
      run := Fill(n, k - 1);
      FillStep(n, k - 1);
      run := run + [DoAlloc(1)];
    }
  }

  /** A client gives its cell at the log head back and takes it again, which moves the log head on. */
  lemma Again(start: Log, run: seq<Op>, s: Log, held: Held) returns (longer: seq<Op>)
    requires Reached(start, run, s, held) && Shaped(s) && s.head + 1 < |s.nr| && s.nr[s.head] == 1 && s.rc[s.head] == 1
    requires s.head in held && held[s.head] == (1, 1)
    ensures Reached(start, longer, s.(head := s.head + 1), held)
  {
    var h, t := s.head, s.(rc := s.rc[s.head := 0]);
    assert t.nr[h := 1] == s.nr && t.rc[h := 1] == s.rc;
    assert (held - {h})[h := (1, 1)] == held;
    longer := run + [DoFree(h)] + [DoAlloc(1)];
  }

  /**
   * A wrap over a region in use: after a run of allowed calls on a new log, cells 0, 1 and 3 of
   * four are held and the head is at cell 2.  Asking for three cells fails, but leaves a header
   * that joins cells 2 and 3, so that the next request for two cells is given cell 3 although it
   * is still held.
   */
  lemma WrapOverlap() returns (start: Log, run: seq<Op>, s: Log, held: Held)
    ensures Reached(start, run, s, held) && 3 in held && held[3] == (1, 1)
    ensures Alloc(s, 3).1 == None && Alloc(Alloc(s, 3).0, 2).1 == Some(2)
  {
    start, s, held := Filled(4, 0), Filled(4, 4), FilledBy(4);
    run := Fill(4, 4);
    run := Again(start, run, s, held);
    run := Again(start, run, s.(head := 1), held);
    run, s, held := run + [DoFree(2)], Log(s.nr, s.rc[2 := 0], 2), held - {2};
    assert Ones(4, 4) == [1, 1, 1, 1];
    assert s.rc == [1, 1, 0, 1];
    WrapJoins(s);
  }

  lemma WrapJoins(s: Log)
    requires s == Log([1, 1, 1, 1], [1, 1, 0, 1], 2)
    ensures Alloc(s, 3).1 == None && Alloc(Alloc(s, 3).0, 2).1 == Some(2)
  {
    var t := Log([1, 1, 2, 1], [1, 1, 0, 1], 2);
    assert WrapWrite(s) == t;
    assert Scan(t, 0, 3, 0, 0) == (0, 0);
    assert Alloc(s, 3) == (t, None);
    assert Scan(t, 2, 2, 0, 0) == Scan(t, 2, 2, 2, 2) == (2, 2);
  }
}

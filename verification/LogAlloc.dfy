/** The log-structured allocator: cell headers and log head updated in place. */
module LogAlloc {
  import opened Results
  import opened LogSpec
  import LogTheorems
  import Arith

  /** The least number of cells of `cell` bytes that together have `size` bytes. */
  function CellsFor(size: nat, cell: nat): (r: nat)
    requires cell > 0
    ensures r * cell >= size
    ensures size > 0 ==> r > 0 && (r - 1) * cell < size
    ensures size == 0 ==> r == 0
  {
    Arith.Quotient(size + cell - 1, cell);
    (size + cell - 1) / cell
  }

  /** The bytes of a cell's header, in front of what the client gets. */
  const HEADER: nat := 2

  /**
   * The number of cells leaves the header out of account: what the client asked for stays inside
   * its cells exactly when the last cell has at least two bytes to spare.  Otherwise it reaches
   * into the header of the next cell.
   */
  lemma PayloadFits(size: nat, cell: nat)
    requires size > 0 && cell > 0
    ensures HEADER + size <= CellsFor(size, cell) * cell <==> 0 < size % cell <= cell - HEADER
  {
    var n := CellsFor(size, cell);
    var spare := n * cell - size;
    assert (n - 1) * cell == n * cell - cell;
    if spare == 0 {
      Arith.DivMod(size, n, 0, cell);
    } else {
      Arith.DivMod(size, n - 1, cell - spare, cell);
    }
  }

  /** Why enough gathered cells may be taken. */
  lemma TakePlan(s: Log, b: seq<nat>, j: nat, req: nat) returns (e: nat)
    requires Tiling(s, b) && j + 1 < |b| && b[j] + req <= |s.nr| && 0 < req < 256 && Scan(s, b[j], req, 0, 0).0 >= req
    ensures Markable(s, b, j, e, req) && Tiling(Marked(s, b, j, e, req), Carve(b, j, e, b[j] + req))
    ensures Scan(s, b[j], req, 0, 0) == (b[e] - b[j], s.nr[b[e - 1]])
  {
    e := LogTheorems.ScanEnough(s, b, j, req);
    MarkedTiling(s, b, j, e, req);
  }

  class LogAlloc {
    const nr: array<nat>
    const rc: array<nat>
    const cell: nat
    var head: nat
    ghost var bounds: seq<nat>

    ghost function State(): Log
      reads this, nr, rc
    {
      Log(nr[..], rc[..], head)
    }

    /** Following the headers from cell 0 visits exactly `bounds`. */
    ghost predicate Valid()
      reads this, nr, rc
    {
      nr != rc && cell > 0 && Tiling(State(), bounds)
    }

    /** Only the first header is written; the rest of the region is as it was received. */
    constructor (cellSize: nat, lengths: seq<nat>, counts: seq<nat>)
      requires cellSize > 0 && |lengths| == |counts| > 0
      requires forall c :: 0 <= c < |lengths| ==> lengths[c] < 256 && counts[c] < 256
      ensures Valid() && fresh(nr) && fresh(rc) && cell == cellSize
      ensures State() == Log(lengths[0 := 0], counts[0 := 0], 0) && LogTheorems.Fresh(State())
    {
      nr := new nat[|lengths|](i requires 0 <= i < |lengths| => lengths[i]);
      rc := new nat[|counts|](i requires 0 <= i < |counts| => counts[i]);
      cell := cellSize;
      head := 0;
      bounds := [0, |lengths|];
      new;
      nr[0] := 0;
      rc[0] := 0;
      assert nr[..] == lengths[0 := 0] && rc[..] == counts[0 := 0];
      assert Tile(State(), bounds, 0);
    }

    /** Gathers free cells from the j-th boundary on. */
    method Gather(from: nat, req: nat, ghost b: seq<nat>, ghost j: nat) returns (i: nat, last: nat)
      requires nr != rc && Tiling(State(), b) && j + 1 < |b| && b[j] == from && from + req <= nr.Length && req > 0
      ensures (i, last) == Scan(State(), from, req, 0, 0)
    {
      i, last := 0, 0;
      ghost var k := j;
      while i < req
        invariant j <= k < |b| && b[k] == from + i && FreeTiles(State(), b, j, k)
        invariant Scan(State(), from, req, 0, 0) == Scan(State(), from, req, i, last)
        decreases |b| - k
      {
        assert Tile(State(), b, k);
        if rc[from + i] != 0 {
          return;
        }
        last := nr[from + i];
        if last == 0 {
          i := nr.Length - from;
          return;
        }
        i := i + last;
        k := k + 1;
      }
    }

    /** Writes what remains as free regions at the log head: one round is enough. */
    method WriteRemainder(remainder: nat) returns (ghost rounds: nat)
      requires head < nr.Length == rc.Length && nr != rc && remainder < 256
      modifies nr, rc
      ensures nr[..] == old(nr[..])[head := remainder] && rc[..] == old(rc[..])[head := 0]
      ensures rounds == 1
    {
      var rem, again := remainder, true;
      rounds := 0;
      while again
        invariant again ==> rounds == 0 && rem == remainder && nr[..] == old(nr[..]) && rc[..] == old(rc[..])
        invariant !again ==> rounds == 1 && rem == 0
        invariant !again ==> nr[..] == old(nr[..])[head := remainder] && rc[..] == old(rc[..])[head := 0]
        decreases again, rem
      {
        var val := if rem > 255 then 255 else rem;
        rc[head] := 0;
        nr[head] := val % 256;
        rem := rem - val;
        rounds := rounds + 1;
        again := rem > 0;
      }
    }

    method Take(from: nat, req: nat, i: nat, last: nat, ghost b: seq<nat>, ghost j: nat, ghost e: nat)
      requires nr != rc && Markable(State(), b, j, e, req)
      requires from == b[j] && i == b[e] - b[j] && last == nr[b[e - 1]]
      modifies this`head, nr, rc
      ensures State() == Marked(old(State()), b, j, e, req)
    {
      LeftoverFits(State(), b, j, e, req);
      assert b[e] <= b[|b| - 1];
      rc[from] := 1;
      nr[from] := req % 256;
      head := NextHead(from + req);
      assert nr[..] == old(nr[..])[from := req] && rc[..] == old(rc[..])[from := 1];
      if req < i {
        ghost var _ := WriteRemainder(if last == 0 then 0 else i - req);
      }
    }

    method NextHead(at: nat) returns (h: nat)
      requires 0 < at <= nr.Length
      ensures h == if at == nr.Length then 0 else at
    {
      h := at % nr.Length;
      if at < nr.Length {
        Arith.DivMod(at, 0, at, nr.Length);
      } else {
        Arith.DivMod(at, 1, 0, nr.Length);
      }
    }

    /** The working log head: a request that does not fit behind the log head goes to the start. */
    method WorkingHead(req: nat) returns (from: nat)
      requires nr != rc && head < nr.Length == rc.Length && req <= nr.Length
      modifies nr, rc
      ensures State() == if Wraps(old(State()), req) then WrapWrite(old(State())) else old(State())
      ensures from == if Wraps(old(State()), req) then 0 else head
    {
      if req > nr.Length - head {
        rc[head] := 0;
        nr[head] := (nr.Length - head) % 256;
        from := 0;
        assert nr[..] == old(nr[..])[head := (nr.Length - head) % 256] && rc[..] == old(rc[..])[head := 0];
      } else {
        from := head;
      }
    }

    /** Gathers free cells at the working log head and takes them if they are enough. */
    method TakeCells(from: nat, req: nat, ghost b: seq<nat>, ghost j: nat) returns (status: Status)
      requires nr != rc && cell > 0 && Tiling(State(), b) && 0 < req < 256
      requires j + 1 < |b| && b[j] == from && from + req <= nr.Length
      modifies this, nr, rc
      ensures Valid()
      ensures var (i, last) := Scan(old(State()), from, req, 0, 0);
              if i < req then status == NoMem && State() == old(State())
              else status == Ok && State() == Mark(old(State()), from, req, i, last)
    {
      var i, last := Gather(from, req, b, j);
      if i < req {
        bounds := b;
        return NoMem;
      }
      ghost var e := TakePlan(State(), b, j, req);
      Take(from, req, i, last, b, j, e);
      bounds := Carve(b, j, e, b[j] + req);
      status := Ok;
    }

    /** An allocation of `size` bytes does to the headers and the log head what `LogSpec.Alloc` says. */
    method Alloc(size: nat) returns (status: Status, at: Option<nat>)
      requires Valid()
      modifies this, nr, rc
      ensures Valid()
      ensures size == 0 ==> status == BadArgs && at == None && State() == old(State())
      ensures size > 0 ==> (State(), at) == LogSpec.Alloc(old(State()), CellsFor(size, cell))
      ensures size > 0 ==> status == if at.Some? then Ok else NoMem
    {
      if size == 0 {
        return BadArgs, None;
      }
      at := None;
      var req := CellsFor(size, cell);
      if req > 255 || req > nr.Length {
        return NoMem, None;
      }
      if rc[head] != 0 {
        return NoMem, None;
      }
      ghost var t, d, j := LogTheorems.ScanState(State(), bounds, req);
      var from := WorkingHead(req);
      status := TakeCells(from, req, d, j);
      if status == Ok {
        at := Some(from);
      }
    }

    /** Another count in one header keeps the headers tiling the cells. */
    ghost predicate Countable(p: nat, count: nat)
      reads this, nr, rc
    {
      p < rc.Length && rc[p] > 0 && count < 256 && Valid()
    }

    lemma CountKeepsTiling(p: nat, count: nat)
      requires Countable(p, count)
      ensures Tiling(State().(rc := rc[..][p := count]), bounds)
    {
      if p in bounds {
        var i :| 0 <= i < |bounds| && bounds[i] == p;
        assert RegionAt(State(), bounds, i, p, bounds[i + 1] - p, rc[p]);
        CountChanged(State(), bounds, p, bounds[i + 1] - p, rc[p], count);
      } else {
        InteriorWrite(State(), bounds, p, nr[p], count);
        assert nr[..] == nr[..][p := nr[p]];
      }
    }

    method Reference(p: nat) returns (status: Status)
      requires Valid() && p < rc.Length
      modifies rc
      ensures Valid() && (State(), status) == LogSpec.Reference(old(State()), p)
    {
      if rc[p] == 255 || rc[p] == 0 {
        return Busy;
      }
      CountKeepsTiling(p, rc[p] + 1);
      rc[p] := rc[p] + 1;
      assert rc[..] == old(rc[..])[p := old(rc[p]) + 1];
      status := Ok;
    }

    method Free(p: nat) returns (status: Status)
      requires Valid() && p < rc.Length
      modifies rc
      ensures Valid() && (State(), status) == Release(old(State()), p)
    {
      if rc[p] == 0 {
        return Inval;
      }
      CountKeepsTiling(p, rc[p] - 1);
      rc[p] := rc[p] - 1;
      assert rc[..] == old(rc[..])[p := old(rc[p]) - 1];
      status := Ok;
    }
  }
}

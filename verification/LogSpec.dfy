/**
 * The log-structured allocator at cell level: what one allocation does to the cell headers and
 * the log head, and what the headers then say about the regions.
 */
module LogSpec {
  import opened Results

  /** The two header bytes of every cell, meaningful where a region starts, and the log head. */
  datatype Log = Log(nr: seq<nat>, rc: seq<nat>, head: nat)

  ghost predicate Shaped(s: Log) {
    && |s.nr| == |s.rc| > 0 && s.head < |s.nr|
    && (forall c :: 0 <= c < |s.nr| ==> s.nr[c] < 256)
    && (forall c :: 0 <= c < |s.rc| ==> s.rc[c] < 256)
  }

  // ----- Allocation -----

  /** Whether the request does not fit between the head and the end of the cells. */
  predicate Wraps(s: Log, req: nat) {
    req > |s.nr| - s.head
  }

  /** What the wrap writes: the head's region reaches to the end. */
  function WrapWrite(s: Log): Log
    requires s.head < |s.nr| == |s.rc|
  {
    s.(nr := s.nr[s.head := (|s.nr| - s.head) % 256], rc := s.rc[s.head := 0])
  }

  /** How many cells from `from` on are free, looking until there are enough, and the last length seen. */
  function Scan(s: Log, from: nat, req: nat, i: nat, last: nat): (nat, nat)
    requires |s.nr| == |s.rc| && from <= |s.nr|
    decreases req - i
  {
    if i >= req || from + i >= |s.nr| || s.rc[from + i] != 0 then (i, last)
    else if s.nr[from + i] == 0 then (|s.nr| - from, 0)
    else Scan(s, from, req, i + s.nr[from + i], s.nr[from + i])
  }

  /** Marks `req` cells at `from` as taken, out of `i` free ones, and what remains of those as free. */
  function Mark(s: Log, from: nat, req: nat, i: nat, last: nat): Log
    requires |s.nr| == |s.rc| && from < |s.nr| && from + req <= |s.nr|
  {
    var head := if from + req == |s.nr| then 0 else from + req;
    var t := Log(s.nr[from := req % 256], s.rc[from := 1], head);
    if req < i then t.(nr := t.nr[head := if last == 0 then 0 else i - req], rc := t.rc[head := 0]) else t
  }

  /** One allocation of `req` cells: the new state and the cell where the region starts. */
  function Alloc(s: Log, req: nat): (Log, Option<nat>)
    requires |s.nr| == |s.rc| && s.head < |s.nr|
  {
    if req > 255 || req > |s.nr| || s.rc[s.head] != 0 then (s, None)
    else
      var (t, from) := if Wraps(s, req) then (WrapWrite(s), 0) else (s, s.head);
      var (i, last) := Scan(t, from, req, 0, 0);
      if i < req then (t, None) else (Mark(t, from, req, i, last), Some(from))
  }

  // ----- Regions -----

  ghost predicate Increasing(b: seq<nat>) {
    forall i, j :: 0 <= i < j < |b| ==> b[i] < b[j]
  }

  lemma InOrder(b: seq<nat>, i: nat, j: nat)
    requires Increasing(b) && i < |b| && j < |b|
    ensures i < j <==> b[i] < b[j]
    ensures i == j <==> b[i] == b[j]
  {
  }

  /** The header of the i-th region says where it ends; a length of 0 means: free, up to the end. */
  ghost predicate Tile(s: Log, b: seq<nat>, i: nat) {
    && i + 1 < |b| && b[i] < |s.nr| == |s.rc|
    && (b[i] + s.nr[b[i]] == b[i + 1] || (s.nr[b[i]] == 0 && s.rc[b[i]] == 0 && i + 2 == |b|))
  }

  /** Following the headers from cell 0 visits exactly the boundaries `b`, up to the end. */
  ghost predicate Tiling(s: Log, b: seq<nat>) {
    Framed(s, b) && Tiles(s, b)
  }

  /** The boundaries go from the first cell to the end, and the log head is one of them. */
  ghost predicate Framed(s: Log, b: seq<nat>) {
    Shaped(s) && |b| >= 2 && b[0] == 0 && b[|b| - 1] == |s.nr| && Increasing(b) && s.head in b
  }

  ghost predicate Tiles(s: Log, b: seq<nat>) {
    forall i: nat :: i + 1 < |b| ==> Tile(s, b, i)
  }

  /** Cells `p` to `p + len` are a region with `r > 0` references. */
  ghost predicate Region(s: Log, b: seq<nat>, p: nat, len: nat, r: nat) {
    r > 0 && exists i: nat :: RegionAt(s, b, i, p, len, r)
  }

  ghost predicate RegionAt(s: Log, b: seq<nat>, i: nat, p: nat, len: nat, r: nat) {
    i + 1 < |b| && p < |s.rc| && b[i] == p && b[i + 1] == p + len && s.rc[p] == r
  }

  /** The i-th region is free. */
  ghost predicate FreeTile(s: Log, b: seq<nat>, i: nat) {
    i + 1 < |b| && b[i] < |s.rc| && s.rc[b[i]] == 0
  }

  /** Every region from the j-th up to the k-th is free. */
  ghost predicate FreeTiles(s: Log, b: seq<nat>, j: nat, k: nat) {
    forall i: nat :: j <= i < k ==> FreeTile(s, b, i)
  }

  /** Different regions do not overlap. */
  lemma RegionsDisjoint(s: Log, b: seq<nat>, p: nat, len: nat, r: nat, q: nat, len': nat, r': nat)
    requires Tiling(s, b) && Region(s, b, p, len, r) && Region(s, b, q, len', r') && p != q
    ensures p + len <= q || q + len' <= p
  {
    var i: nat :| RegionAt(s, b, i, p, len, r);
    var j: nat :| RegionAt(s, b, j, q, len', r');
    if i < j {
      assert b[i + 1] <= b[j];
    } else {
      assert b[j + 1] <= b[i];
    }
  }

  // ----- Scanning -----

  /** All regions from the j-th to the k-th are free, and all but the last of them were not enough. */
  ghost predicate Scanned(s: Log, b: seq<nat>, j: nat, k: nat, req: nat) {
    j <= k < |b| && FreeTiles(s, b, j, k) && b[j] <= b[k] && (k > j ==> b[k - 1] < b[j] + req)
  }

  /** What the scan has seen last when it is at the k-th boundary. */
  ghost function LastSeen(s: Log, b: seq<nat>, j: nat, k: nat): nat
    requires Tiling(s, b) && k < |b|
  {
    assert k > 0 ==> b[k - 1] < b[k] <= b[|b| - 1];
    if k > j then s.nr[b[k - 1]] else 0
  }

  /** One region further, unless it is in use. */
  lemma ScanStep(s: Log, b: seq<nat>, j: nat, k: nat, req: nat)
    requires Tiling(s, b) && Scanned(s, b, j, k, req) && b[k] - b[j] < req && b[j] + req <= |s.nr|
    ensures k + 1 < |b| && b[k] < |s.nr| && LastSeen(s, b, j, k + 1) == s.nr[b[k]]
    ensures s.rc[b[k]] == 0 ==>
              && Scanned(s, b, j, k + 1, req)
              && (s.nr[b[k]] == 0 ==> b[k + 1] == |s.nr|)
              && (s.nr[b[k]] != 0 ==> b[k] + s.nr[b[k]] == b[k + 1])
  {
    assert Tile(s, b, k);
    assert s.rc[b[k]] == 0 ==> FreeTile(s, b, k);
  }

  /** The scan stops at a boundary: behind enough free regions, or at a region in use. */
  lemma {:induction false} ScanStops(s: Log, b: seq<nat>, j: nat, k: nat, req: nat) returns (e: nat)
    requires Tiling(s, b) && Scanned(s, b, j, k, req) && b[j] + req <= |s.nr| && req > 0
    ensures k <= e && Scanned(s, b, j, e, req)
    ensures Scan(s, b[j], req, b[k] - b[j], LastSeen(s, b, j, k)) == (b[e] - b[j], LastSeen(s, b, j, e))
    ensures b[e] - b[j] < req ==> e + 1 < |b| && s.rc[b[e]] != 0
    decreases |b| - k
  {
    e := k;
    if b[k] - b[j] < req {
      ScanStep(s, b, j, k, req);
      if s.rc[b[k]] == 0 {
        if s.nr[b[k]] == 0 {
          e := k + 1;
        } else {
          e := ScanStops(s, b, j, k + 1, req);
        }
      }
    }
  }

  // ----- Marking -----

  /** The boundaries after the regions from the j-th to the e-th have become one that ends at `cut`. */
  ghost function Carve(b: seq<nat>, j: nat, e: nat, cut: nat): seq<nat>
    requires j < e < |b|
  {
    b[..j + 1] + (if cut < b[e] then [cut] else []) + b[e..]
  }

  /**
   * What is known when `req` cells from the j-th boundary on are to be marked, out of the free
   * regions up to the e-th.
   */
  ghost predicate Markable(s: Log, b: seq<nat>, j: nat, e: nat, req: nat) {
    && Tiling(s, b) && j < e < |b| && FreeTiles(s, b, j, e)
    && 0 < req < 256 && b[e - 1] < b[j] + req <= b[e]
  }

  ghost function Marked(s: Log, b: seq<nat>, j: nat, e: nat, req: nat): Log
    requires Markable(s, b, j, e, req)
  {
    Mark(s, b[j], req, b[e] - b[j], s.nr[b[e - 1]])
  }

  /** What is left over fits in a header byte, so that one round of writing it is enough. */
  lemma LeftoverFits(s: Log, b: seq<nat>, j: nat, e: nat, req: nat)
    requires Markable(s, b, j, e, req)
    ensures s.nr[b[e - 1]] != 0 ==> b[e] - b[j] - req <= 254
    ensures s.nr[b[e - 1]] == 0 ==> e + 1 == |b|
  {
    assert Tile(s, b, e - 1);
  }

  /** Outside the marked cells the headers at boundaries are as they were. */
  lemma MarkedSame(s: Log, b: seq<nat>, j: nat, e: nat, req: nat, i: nat)
    requires Markable(s, b, j, e, req) && i + 1 < |b| && (i < j || e <= i)
    ensures var t := Marked(s, b, j, e, req);
            |t.nr| == |t.rc| == |s.nr| && b[i] < |s.nr| && t.nr[b[i]] == s.nr[b[i]] && t.rc[b[i]] == s.rc[b[i]]
  {
    assert b[i] < b[|b| - 1];
    if i < j {
      assert b[i] < b[j];
    } else {
      assert b[j] < b[i];
      assert b[j] < b[e];
    }
  }

  lemma MarkedNew(s: Log, b: seq<nat>, j: nat, e: nat, req: nat)
    requires Markable(s, b, j, e, req)
    ensures var (t, cut) := (Marked(s, b, j, e, req), b[j] + req);
            && |t.nr| == |t.rc| == |s.nr| && b[j] < |s.nr| && t.nr[b[j]] == req && t.rc[b[j]] == 1
            && (cut < b[e] ==> cut < |s.nr| && t.head == cut && t.rc[cut] == 0
                               && t.nr[cut] == if s.nr[b[e - 1]] == 0 then 0 else b[e] - cut)
  {
    LeftoverFits(s, b, j, e, req);
    assert b[e] <= b[|b| - 1];
  }

  /** Where the i-th region after carving comes from: from before, the marked cells, the leftover, or from behind. */
  lemma CarveAt(b: seq<nat>, j: nat, e: nat, cut: nat, i: nat)
    requires j < e < |b| && cut <= b[e] && i + 1 < |Carve(b, j, e, cut)|
    ensures var (c, next) := (Carve(b, j, e, cut), if cut < b[e] then j + 2 else j + 1);
            && (i < j ==> c[i] == b[i] && c[i + 1] == b[i + 1])
            && (i == j ==> c[i] == b[j] && c[i + 1] == cut)
            && (j < i < next ==> c[i] == cut && c[i + 1] == b[e])
            && (next <= i ==> i - next + e + 1 < |b| && c[i] == b[i - next + e] && c[i + 1] == b[i - next + e + 1])
  {
  }

  lemma MarkedTile(s: Log, b: seq<nat>, j: nat, e: nat, req: nat, i: nat)
    requires Markable(s, b, j, e, req) && i + 1 < |Carve(b, j, e, b[j] + req)|
    ensures Tile(Marked(s, b, j, e, req), Carve(b, j, e, b[j] + req), i)
  {
    var next := if b[j] + req < b[e] then j + 2 else j + 1;
    CarveAt(b, j, e, b[j] + req, i);
    MarkedNew(s, b, j, e, req);
    LeftoverFits(s, b, j, e, req);
    if i < j {
      MarkedSame(s, b, j, e, req, i);
      assert Tile(s, b, i);
    } else if i >= next {
      MarkedSame(s, b, j, e, req, i - next + e);
      assert Tile(s, b, i - next + e);
    }
  }

  lemma CarveIncreasing(b: seq<nat>, j: nat, e: nat, cut: nat)
    requires Increasing(b) && j < e < |b| && b[e - 1] < cut <= b[e]
    ensures var c := Carve(b, j, e, cut);
            Increasing(c) && |c| >= 2 && c[0] == b[0] && c[|c| - 1] == b[|b| - 1] && cut in c
  {
    var c := Carve(b, j, e, cut);
    assert b[j] <= b[e - 1];
    assert c[j + 1] == cut;
  }

  lemma MarkShape(s: Log, from: nat, req: nat, i: nat, last: nat)
    requires Shaped(s) && from < |s.nr| && 0 < req < 256 && from + req <= |s.nr| && (last != 0 ==> i < req + 256)
    ensures Shaped(Mark(s, from, req, i, last))
  {
  }

  lemma MarkedShape(s: Log, b: seq<nat>, j: nat, e: nat, req: nat)
    requires Markable(s, b, j, e, req)
    ensures var t := Marked(s, b, j, e, req); Shaped(t) && |t.nr| == |s.nr| && t.head in Carve(b, j, e, b[j] + req)
  {
    assert b[e] <= b[|b| - 1];
    LeftoverFits(s, b, j, e, req);
    MarkShape(s, b[j], req, b[e] - b[j], s.nr[b[e - 1]]);
    CarveIncreasing(b, j, e, b[j] + req);
  }

  /** Marking keeps the headers tiling the cells. */
  lemma MarkedTiling(s: Log, b: seq<nat>, j: nat, e: nat, req: nat)
    requires Markable(s, b, j, e, req)
    ensures Tiling(Marked(s, b, j, e, req), Carve(b, j, e, b[j] + req))
  {
    MarkedFramed(s, b, j, e, req);
    MarkedTiles(s, b, j, e, req);
  }

  lemma MarkedFramed(s: Log, b: seq<nat>, j: nat, e: nat, req: nat)
    requires Markable(s, b, j, e, req)
    ensures Framed(Marked(s, b, j, e, req), Carve(b, j, e, b[j] + req))
  {
    MarkedShape(s, b, j, e, req);
    CarveFramed(Marked(s, b, j, e, req), b, j, e, b[j] + req);
  }

  lemma CarveFramed(s: Log, b: seq<nat>, j: nat, e: nat, cut: nat)
    requires Increasing(b) && j < e < |b| && b[e - 1] < cut <= b[e] && b[0] == 0 && b[|b| - 1] == |s.nr|
    requires Shaped(s) && s.head in Carve(b, j, e, cut)
    ensures Framed(s, Carve(b, j, e, cut))
  {
    CarveIncreasing(b, j, e, cut);
  }

  lemma MarkedTiles(s: Log, b: seq<nat>, j: nat, e: nat, req: nat)
    requires Markable(s, b, j, e, req)
    ensures Tiles(Marked(s, b, j, e, req), Carve(b, j, e, b[j] + req))
  {
    var t, c := Marked(s, b, j, e, req), Carve(b, j, e, b[j] + req);
    forall i: nat | i + 1 < |c|
      ensures Tile(t, c, i)
    {
      MarkedTile(s, b, j, e, req, i);
    }
  }

  lemma MarkedRegionFrom(s: Log, b: seq<nat>, j: nat, e: nat, req: nat, p: nat, len: nat, r: nat)
    requires Markable(s, b, j, e, req)
    requires Region(Marked(s, b, j, e, req), Carve(b, j, e, b[j] + req), p, len, r)
    ensures Region(s, b, p, len, r) || (p == b[j] && len == req && r == 1)
  {
    var i: nat :| RegionAt(Marked(s, b, j, e, req), Carve(b, j, e, b[j] + req), i, p, len, r);
    MarkedRegionFromAt(s, b, j, e, req, i, p, len, r);
  }

  lemma MarkedRegionFromAt(s: Log, b: seq<nat>, j: nat, e: nat, req: nat, i: nat, p: nat, len: nat, r: nat)
    requires Markable(s, b, j, e, req) && r > 0
    requires RegionAt(Marked(s, b, j, e, req), Carve(b, j, e, b[j] + req), i, p, len, r)
    ensures Region(s, b, p, len, r) || (p == b[j] && len == req && r == 1)
  {
    var next := if b[j] + req < b[e] then j + 2 else j + 1;
    CarveAt(b, j, e, b[j] + req, i);
    MarkedNew(s, b, j, e, req);
    if i < j {
      MarkedSame(s, b, j, e, req, i);
      assert RegionAt(s, b, i, p, len, r);
    } else if i >= next {
      MarkedSame(s, b, j, e, req, i - next + e);
      assert RegionAt(s, b, i - next + e, p, len, r);
    }
  }

  lemma MarkedRegionTo(s: Log, b: seq<nat>, j: nat, e: nat, req: nat, p: nat, len: nat, r: nat)
    requires Markable(s, b, j, e, req)
    requires Region(s, b, p, len, r) || (p == b[j] && len == req && r == 1)
    ensures Region(Marked(s, b, j, e, req), Carve(b, j, e, b[j] + req), p, len, r)
  {
    if Region(s, b, p, len, r) {
      var i: nat :| RegionAt(s, b, i, p, len, r);
      MarkedRegionToAt(s, b, j, e, req, i, p, len, r);
    } else {
      MarkedNew(s, b, j, e, req);
      CarveAt(b, j, e, b[j] + req, j);
      assert RegionAt(Marked(s, b, j, e, req), Carve(b, j, e, b[j] + req), j, p, len, r);
    }
  }

  lemma MarkedRegionToAt(s: Log, b: seq<nat>, j: nat, e: nat, req: nat, i: nat, p: nat, len: nat, r: nat)
    requires Markable(s, b, j, e, req) && RegionAt(s, b, i, p, len, r) && r > 0
    ensures Region(Marked(s, b, j, e, req), Carve(b, j, e, b[j] + req), p, len, r)
  {
    assert j <= i < e ==> FreeTile(s, b, i);
    MarkedSame(s, b, j, e, req, i);
    var next := if b[j] + req < b[e] then j + 2 else j + 1;
    var now: nat := if i < j then i else i - e + next;
    CarveAt(b, j, e, b[j] + req, now);
    assert RegionAt(Marked(s, b, j, e, req), Carve(b, j, e, b[j] + req), now, p, len, r);
  }

  /** Marking adds exactly one region in use. */
  lemma MarkedRegions(s: Log, b: seq<nat>, j: nat, e: nat, req: nat)
    requires Markable(s, b, j, e, req)
    ensures forall p: nat, len: nat, r: nat ::
              Region(Marked(s, b, j, e, req), Carve(b, j, e, b[j] + req), p, len, r) <==>
              Region(s, b, p, len, r) || (p == b[j] && len == req && r == 1)
  {
    var t, c := Marked(s, b, j, e, req), Carve(b, j, e, b[j] + req);
    forall p: nat, len: nat, r: nat
      ensures Region(t, c, p, len, r) <==> Region(s, b, p, len, r) || (p == b[j] && len == req && r == 1)
    {
      if Region(t, c, p, len, r) {
        MarkedRegionFrom(s, b, j, e, req, p, len, r);
      }
      if Region(s, b, p, len, r) || (p == b[j] && len == req && r == 1) {
        MarkedRegionTo(s, b, j, e, req, p, len, r);
      }
    }
  }

  // ----- Wrapping -----

  /** The same regions are in use. */
  ghost predicate SameRegions(s: Log, b: seq<nat>, t: Log, c: seq<nat>) {
    forall p: nat, len: nat, r: nat :: Region(t, c, p, len, r) <==> Region(s, b, p, len, r)
  }

  /** The h-th boundary is the log head, from which a small request does not fit. */
  ghost predicate Wrappable(s: Log, b: seq<nat>, h: nat) {
    Tiling(s, b) && h + 1 < |b| && b[h] == s.head && s.rc[s.head] == 0 && |s.nr| - s.head < 256
  }

  ghost function WrapBounds(s: Log, b: seq<nat>, h: nat): seq<nat>
    requires h + 1 < |b|
  {
    b[..h + 1] + [|s.nr|]
  }

  /** After the wrap has written the head's header, the headers still tile the cells. */
  lemma WrapTiling(s: Log, b: seq<nat>, h: nat)
    requires Wrappable(s, b, h)
    ensures Tiling(WrapWrite(s), WrapBounds(s, b, h))
  {
    var t, c := WrapWrite(s), WrapBounds(s, b, h);
    assert t.nr[s.head] == |s.nr| - s.head;
    forall i: nat | i + 1 < |c|
      ensures Tile(t, c, i)
    {
      assert Tile(s, b, i);
      if i < h {
        assert c[i] == b[i] && c[i + 1] == b[i + 1] && b[i] < b[h];
      }
    }
    assert b[h] < b[|b| - 1];
    assert c[h] == s.head && c[0] == b[0];
  }

  /** The wrap keeps the regions before the head and forgets those behind it. */
  lemma WrapRegions(s: Log, b: seq<nat>, h: nat, p: nat, len: nat, r: nat)
    requires Wrappable(s, b, h)
    ensures Region(WrapWrite(s), WrapBounds(s, b, h), p, len, r) <==> Region(s, b, p, len, r) && p < s.head
  {
    var t, c := WrapWrite(s), WrapBounds(s, b, h);
    if Region(t, c, p, len, r) {
      var i: nat :| RegionAt(t, c, i, p, len, r);
      assert i < h && c[i] == b[i] && c[i + 1] == b[i + 1] && b[i] < b[h];
      assert RegionAt(s, b, i, p, len, r);
    }
    if Region(s, b, p, len, r) && p < s.head {
      var i: nat :| RegionAt(s, b, i, p, len, r);
      InOrder(b, h, i);
      assert i < h && c[i] == b[i] && c[i + 1] == b[i + 1];
      assert RegionAt(t, c, i, p, len, r);
    }
  }

  /** The headers determine the boundaries. */
  lemma {:induction false} SameBounds(s: Log, b: seq<nat>, c: seq<nat>, i: nat)
    requires Tiling(s, b) && Tiling(s, c) && i < |b|
    ensures i < |c| && b[i] == c[i]
  {
    if i > 0 {
      SameBounds(s, b, c, i - 1);
      assert Tile(s, b, i - 1);
      assert b[i - 1] < b[i] <= b[|b| - 1];
      assert i - 1 < |c| - 1;
      assert Tile(s, c, i - 1);
    }
  }

  lemma UniqueBounds(s: Log, b: seq<nat>, c: seq<nat>)
    requires Tiling(s, b) && Tiling(s, c)
    ensures b == c
  {
    forall i | 0 <= i < |b|
      ensures i < |c| && b[i] == c[i]
    {
      SameBounds(s, b, c, i);
    }
    SameBounds(s, c, b, |c| - 1);
  }

  /** Everything from the head to the end of the cells is free. */
  ghost predicate TailFree(s: Log, b: seq<nat>) {
    forall p: nat, len: nat, r: nat :: Region(s, b, p, len, r) ==> p < s.head
  }

  /**
   * The wrap does not look at the regions behind the head before it writes over them: all
   * regions in use are still there afterwards exactly when nothing behind the head was in use.
   */
  lemma WrapExact(s: Log, b: seq<nat>, h: nat)
    requires Wrappable(s, b, h)
    ensures (exists c :: Tiling(WrapWrite(s), c) && SameRegions(s, b, WrapWrite(s), c)) <==> TailFree(s, b)
  {
    var t, c := WrapWrite(s), WrapBounds(s, b, h);
    WrapTiling(s, b, h);
    if TailFree(s, b) {
      forall p: nat, len: nat, r: nat
        ensures Region(t, c, p, len, r) <==> Region(s, b, p, len, r)
      {
        WrapRegions(s, b, h, p, len, r);
      }
      assert SameRegions(s, b, t, c);
    } else {
      var p: nat, len: nat, r: nat :| Region(s, b, p, len, r) && !(p < s.head);
      WrapRegions(s, b, h, p, len, r);
      forall d | Tiling(t, d)
        ensures !SameRegions(s, b, t, d)
      {
        UniqueBounds(t, c, d);
        assert !Region(t, d, p, len, r);
      }
    }
  }

  // ----- Reference counts -----

  /** One more reference, unless the count is at its limit or the region is free. */
  function Reference(s: Log, p: nat): (Log, Status)
    requires p < |s.rc|
  {
    if s.rc[p] == 255 || s.rc[p] == 0 then (s, Busy) else (s.(rc := s.rc[p := s.rc[p] + 1]), Ok)
  }

  /** One reference less; the region is free once there are none. */
  function Release(s: Log, p: nat): (Log, Status)
    requires p < |s.rc|
  {
    if s.rc[p] == 0 then (s, Inval) else (s.(rc := s.rc[p := s.rc[p] - 1]), Ok)
  }

  /** Another count for a region in use changes that region's count and nothing else. */
  lemma CountChanged(s: Log, b: seq<nat>, p: nat, len: nat, r: nat, r': nat)
    requires Tiling(s, b) && Region(s, b, p, len, r) && r' < 256
    ensures var t := s.(rc := s.rc[p := r']);
            && Tiling(t, b)
            && (forall q: nat, len': nat, x: nat ::
                  Region(t, b, q, len', x) <==>
                    if q == p then len' == len && x == r' && x > 0
                    else Region(s, b, q, len', x))
  {
    var t := s.(rc := s.rc[p := r']);
    var i: nat :| RegionAt(s, b, i, p, len, r);
    forall k: nat | k + 1 < |b|
      ensures Tile(t, b, k)
    {
      assert Tile(s, b, k);
      assert b[k] < b[k + 1] <= b[|b| - 1];
    }
    forall q: nat, len': nat, x: nat
      ensures Region(t, b, q, len', x) <==> if q == p then len' == len && x == r' && x > 0 else Region(s, b, q, len', x)
    {
      OtherCount(s, t, b, i, p, len, r, r', q, len', x);
    }
  }

  lemma OtherCount(s: Log, t: Log, b: seq<nat>, i: nat, p: nat, len: nat, r: nat, r': nat, q: nat, len': nat, x: nat)
    requires Tiling(s, b) && RegionAt(s, b, i, p, len, r) && t == s.(rc := s.rc[p := r'])
    ensures Region(t, b, q, len', x) <==> if q == p then len' == len && x == r' && x > 0 else Region(s, b, q, len', x)
  {
    if Region(t, b, q, len', x) {
      var k: nat :| RegionAt(t, b, k, q, len', x);
      InOrder(b, k, i);
      if q != p {
        assert RegionAt(s, b, k, q, len', x);
      }
    } else if q == p {
      assert x == r' && len' == len && x > 0 ==> RegionAt(t, b, i, p, len, r');
    } else if Region(s, b, q, len', x) {
      var k: nat :| RegionAt(s, b, k, q, len', x);
      assert RegionAt(t, b, k, q, len', x);
    }
  }

  /** What clients write into the cells behind a region's header does not matter. */
  lemma InteriorWrite(s: Log, b: seq<nat>, c: nat, x: nat, y: nat)
    requires Tiling(s, b) && c < |s.nr| && c !in b && x < 256 && y < 256
    ensures var t := s.(nr := s.nr[c := x], rc := s.rc[c := y]); Tiling(t, b) && SameRegions(s, b, t, b)
  {
    var t := s.(nr := s.nr[c := x], rc := s.rc[c := y]);
    forall k: nat | k + 1 < |b|
      ensures Tile(t, b, k)
    {
      assert Tile(s, b, k);
      assert b[k] in b;
      assert b[k] < b[k + 1] <= b[|b| - 1];
    }
    forall p: nat, len: nat, r: nat
      ensures Region(t, b, p, len, r) <==> Region(s, b, p, len, r)
    {
      if Region(t, b, p, len, r) {
        var k: nat :| RegionAt(t, b, k, p, len, r);
        assert b[k] in b;
        assert RegionAt(s, b, k, p, len, r);
      }
      if Region(s, b, p, len, r) {
        var k: nat :| RegionAt(s, b, k, p, len, r);
        assert b[k] in b;
        assert RegionAt(t, b, k, p, len, r);
      }
    }
  }

  lemma InsideRegion(s: Log, b: seq<nat>, p: nat, len: nat, r: nat, c: nat)
    requires Tiling(s, b) && Region(s, b, p, len, r) && p < c < p + len
    ensures c < |s.nr| && c !in b
  {
    var i: nat :| RegionAt(s, b, i, p, len, r);
    assert b[i + 1] <= b[|b| - 1];
    forall k | 0 <= k < |b|
      ensures b[k] != c
    {
      InOrder(b, k, i);
      InOrder(b, k, i + 1);
    }
  }
}

/**
 * Slab pages as values: where the items of a page lie, what its header and free list mean, and
 * what taking and returning an item does to them.  Addresses are numbers; `Words` is the memory
 * in which free items hold their link to the next free item.
 */
module SlabSpec {
  import opened Arith

  const HEADER: nat := 64
  const NEXT_LINK: nat := 0xfefe_f0f0_f1f1_f5f5
  const NULL: nat := 0

  type Words = map<nat, nat>

  function Load(w: Words, a: nat): nat {
    if a in w then w[a] else 0
  }

  /** The header that a page starts with. */
  datatype Header = Header(freeItems: nat, maxItems: nat, freeCount: nat)

  /** The meaning of a page: the items returned, most recent first, and how many were ever carved. */
  datatype View = View(returned: seq<nat>, carved: nat)

  // ----- Geometry -----

  /** The offset of item `k`, one item after the other behind the header. */
  function Offset(k: nat, size: nat): (r: nat)
    ensures r >= HEADER
  {
    if k == 0 then HEADER else Offset(k - 1, size) + size
  }

  function Item(p: nat, k: nat, size: nat): nat {
    p + Offset(k, size)
  }

  function Capacity(bytes: nat, size: nat): nat
    requires bytes >= HEADER && size > 0
  {
    Fit(bytes - HEADER, size)
  }

  /** How many items of that size fit: the quotient. */
  function Fit(room: nat, size: nat): nat
    requires size > 0
  {
    if room < size then 0 else 1 + Fit(room - size, size)
  }

  lemma {:induction false} FitIsQuotient(room: nat, size: nat)
    requires size > 0
    ensures Fit(room, size) == room / size
  {
    if room < size {
      DivMod(room, 0, room, size);
    } else {
      FitIsQuotient(room - size, size);
      Quotient(room - size, size);
      var q := (room - size) / size;
      assert (q + 1) * size == q * size + size;
      DivMod(room, q + 1, (room - size) % size, size);
    }
  }

  /** Division, as the code does it. */
  function Div(room: nat, size: nat): (r: nat)
    requires size > 0
    ensures r == Fit(room, size)
  {
    FitIsQuotient(room, size);
    room / size
  }

  /** Items do not overlap. */
  lemma {:induction false} OffsetStep(j: nat, k: nat, size: nat)
    requires j < k
    ensures Offset(j, size) + size <= Offset(k, size)
    decreases k
  {
    if j < k - 1 {
      OffsetStep(j, k - 1, size);
    }
  }

  /** The page holds exactly as many items as its header says. */
  lemma {:induction false} FitIs(room: nat, size: nat)
    requires size > 0
    ensures Offset(Fit(room, size), size) <= HEADER + room < Offset(Fit(room, size), size) + size
  {
    if room >= size {
      FitIs(room - size, size);
    }
  }

  /** The test by which carving notices the end of the page. */
  lemma CarveTest(bytes: nat, size: nat, k: nat)
    requires bytes >= HEADER && size > 0
    ensures Offset(k, size) + size <= bytes <==> k < Capacity(bytes, size)
  {
    var c := Capacity(bytes, size);
    FitIs(bytes - HEADER, size);
    if k < c {
      OffsetStep(k, c, size);
    } else if k > c {
      OffsetStep(c, k, size);
    }
  }

  lemma {:induction false} ItemAligned(p: nat, k: nat, size: nat)
    requires p % 16 == 0 && size % 16 == 0
    ensures Item(p, k, size) % 16 == 0 && Item(p, k, size) != NEXT_LINK
  {
    if k > 0 {
      ItemAligned(p, k - 1, size);
    }
  }

  lemma OtherItem(p: nat, j: nat, k: nat, size: nat)
    requires size > 0 && j != k
    ensures Item(p, j, size) != Item(p, k, size)
  {
    if j < k {
      OffsetStep(j, k, size);
    } else if k < j {
      OffsetStep(k, j, size);
    }
  }

  // ----- The free list of a page -----

  /** What ends the list of returned items: the first uncarved item, or nothing. */
  function Rest(bytes: nat, size: nat, p: nat, v: View): nat
    requires bytes >= HEADER && size > 0
  {
    if v.carved < Capacity(bytes, size) then Item(p, v.carved, size) else NULL
  }

  /** The list from its i-th item on starts here. */
  function Link(bytes: nat, size: nat, p: nat, v: View, i: nat): nat
    requires bytes >= HEADER && size > 0 && i <= |v.returned|
  {
    if i < |v.returned| then Item(p, v.returned[i], size) else Rest(bytes, size, p, v)
  }

  /** The i-th returned item holds the link to the rest of the list. */
  predicate LinkedAt(bytes: nat, size: nat, p: nat, w: Words, v: View, i: nat)
    requires bytes >= HEADER && size > 0 && i < |v.returned|
  {
    Load(w, Item(p, v.returned[i], size)) == Link(bytes, size, p, v, i + 1)
  }

  predicate NoDup(s: seq<nat>) {
    forall i, j :: 0 <= i < j < |s| ==> s[i] != s[j]
  }

  predicate Chained(bytes: nat, size: nat, p: nat, h: Header, w: Words, v: View)
    requires bytes >= HEADER && size > 0
  {
    && h.freeItems == Link(bytes, size, p, v, 0)
    && (forall i :: 0 <= i < |v.returned| ==> LinkedAt(bytes, size, p, w, v, i))
    && (v.carved < Capacity(bytes, size) ==> Load(w, Item(p, v.carved, size)) == NEXT_LINK)
  }

  /** Header, links and meaning of a page agree. */
  predicate SlabOk(bytes: nat, size: nat, p: nat, h: Header, w: Words, v: View) {
    && bytes >= HEADER && size > 0 && size % 16 == 0 && p % 16 == 0 && p > 0
    && h.maxItems == Capacity(bytes, size)
    && v.carved <= h.maxItems && NoDup(v.returned)
    && (forall i :: 0 <= i < |v.returned| ==> v.returned[i] < v.carved)
    && h.freeCount == |v.returned| + h.maxItems - v.carved
    && (h.maxItems > 0 ==> Chained(bytes, size, p, h, w, v))
  }

  /** Whether item `k` is in the hands of a client. */
  predicate IsLive(v: View, k: nat) {
    k < v.carved && k !in v.returned
  }

  /** The memory of one page is as it was. */
  predicate SamePage(bytes: nat, p: nat, w: Words, w': Words) {
    forall a :: p <= a < p + bytes ==> Load(w', a) == Load(w, a)
  }

  lemma SlabFrame(bytes: nat, size: nat, p: nat, h: Header, w: Words, w': Words, v: View)
    requires SlabOk(bytes, size, p, h, w, v) && SamePage(bytes, p, w, w')
    ensures SlabOk(bytes, size, p, h, w', v)
  {
    if h.maxItems > 0 {
      CarveTest(bytes, size, v.carved);
      forall i | 0 <= i < |v.returned|
        ensures LinkedAt(bytes, size, p, w', v, i)
      {
        CarveTest(bytes, size, v.returned[i]);
        assert LinkedAt(bytes, size, p, w, v, i);
      }
    }
  }

  /** Another item's first word lies outside an item. */
  lemma OutsideItem(p: nat, j: nat, k: nat, size: nat)
    requires j != k && size > 0
    ensures Item(p, j, size) < Item(p, k, size) || Item(p, k, size) + size <= Item(p, j, size)
  {
    if j < k {
      OffsetStep(j, k, size);
    } else {
      OffsetStep(k, j, size);
    }
  }

  /** A client may write anywhere into its own items. */
  lemma ClientWriteOk(bytes: nat, size: nat, p: nat, h: Header, w: Words, v: View, k: nat, c: nat, x: nat)
    requires SlabOk(bytes, size, p, h, w, v) && IsLive(v, k) && Item(p, k, size) <= c < Item(p, k, size) + size
    ensures SlabOk(bytes, size, p, h, w[c := x], v)
  {
    var w' := w[c := x];
    OutsideItem(p, v.carved, k, size);
    forall i | 0 <= i < |v.returned|
      ensures LinkedAt(bytes, size, p, w', v, i)
    {
      OutsideItem(p, v.returned[i], k, size);
      assert LinkedAt(bytes, size, p, w, v, i);
    }
  }

  // ----- Taking an item -----

  /** The next item to be handed out, and the meaning of the page afterwards. */
  function Taken(v: View): nat {
    if v.returned == [] then v.carved else v.returned[0]
  }

  function Take(v: View): View {
    if v.returned == [] then v.(carved := v.carved + 1) else v.(returned := v.returned[1..])
  }

  /** Handing out an item makes exactly that item live. */
  lemma TakeLive(v: View)
    requires NoDup(v.returned) && forall i :: 0 <= i < |v.returned| ==> v.returned[i] < v.carved
    ensures !IsLive(v, Taken(v))
    ensures forall k :: IsLive(Take(v), k) <==> IsLive(v, k) || k == Taken(v)
  {
    if v.returned != [] {
      assert v.returned == [v.returned[0]] + v.returned[1..];
    }
  }

  /** Giving back an item, to the front of the list. */
  function Give(v: View, k: nat): View {
    v.(returned := [k] + v.returned)
  }

  lemma GiveLive(v: View, k: nat)
    requires IsLive(v, k)
    ensures forall j :: IsLive(Give(v, k), j) <==> IsLive(v, j) && j != k
  {
  }

  /** Unlinking the head of the list. */
  lemma PopOk(bytes: nat, size: nat, p: nat, h: Header, w: Words, v: View)
    requires SlabOk(bytes, size, p, h, w, v) && v.returned != []
    ensures var a := Item(p, v.returned[0], size);
            && h.freeItems == a && Load(w, a) != NEXT_LINK
            && SlabOk(bytes, size, p, h.(freeItems := Load(w, a), freeCount := h.freeCount - 1), w[a := NULL], Take(v))
  {
    var a, u := Item(p, v.returned[0], size), Take(v);
    var w' := w[a := NULL];
    assert LinkedAt(bytes, size, p, w, v, 0);
    ItemAligned(p, v.carved, size);
    if |v.returned| > 1 {
      ItemAligned(p, v.returned[1], size);
    }
    OtherItem(p, v.carved, v.returned[0], size);
    forall i | 0 <= i < |u.returned|
      ensures LinkedAt(bytes, size, p, w', u, i)
    {
      assert u.returned[i] == v.returned[i + 1];
      OtherItem(p, v.returned[i + 1], v.returned[0], size);
      assert LinkedAt(bytes, size, p, w, v, i + 1);
    }
  }

  /** Carving the next item when nothing has been returned. */
  lemma CarveOk(bytes: nat, size: nat, p: nat, h: Header, w: Words, v: View, w': Words)
    requires SlabOk(bytes, size, p, h, w, v) && v.returned == [] && h.freeCount > 0
    requires var (a, b) := (Item(p, v.carved, size), Item(p, v.carved + 1, size));
             w' == if v.carved + 1 < h.maxItems then w[b := NEXT_LINK][a := NULL] else w[a := NULL]
    ensures h.freeItems == Item(p, v.carved, size) && Load(w, h.freeItems) == NEXT_LINK
    ensures SlabOk(bytes, size, p,
                   h.(freeItems := Rest(bytes, size, p, Take(v)), freeCount := h.freeCount - 1),
                   w', Take(v))
  {
    OffsetStep(v.carved, v.carved + 1, size);
  }

  /** A page with a free item has it at the head of its list, inside the page; the link says how to go on. */
  lemma ItemFound(bytes: nat, size: nat, p: nat, h: Header, w: Words, v: View)
    requires SlabOk(bytes, size, p, h, w, v) && h.freeCount > 0
    ensures h.freeItems == Item(p, Taken(v), size) && Taken(v) < h.maxItems
    ensures p <= h.freeItems && h.freeItems + size <= p + bytes
    ensures Load(w, h.freeItems) == NEXT_LINK <==> v.returned == []
  {
    CarveTest(bytes, size, Taken(v));
    if v.returned != [] {
      PopOk(bytes, size, p, h, w, v);
    }
  }

  /** The two ways of taking an item, in one. */
  lemma TakenOk(bytes: nat, size: nat, p: nat, h: Header, w: Words, v: View, h': Header, w': Words)
    requires SlabOk(bytes, size, p, h, w, v) && h.freeCount > 0
    requires var (a, b) := (h.freeItems, h.freeItems + size);
             if v.returned != [] then h'.freeItems == Load(w, a) && w' == w[a := NULL]
             else if v.carved + 1 < h.maxItems then h'.freeItems == b && w' == w[b := NEXT_LINK][a := NULL]
             else h'.freeItems == NULL && w' == w[a := NULL]
    requires h' == h.(freeItems := h'.freeItems, freeCount := h.freeCount - 1)
    ensures SlabOk(bytes, size, p, h', w', Take(v))
  {
    if v.returned != [] {
      PopOk(bytes, size, p, h, w, v);
    } else {
      CarveOk(bytes, size, p, h, w, v, w');
    }
  }

  /** Putting an item back. */
  lemma PushOk(bytes: nat, size: nat, p: nat, h: Header, w: Words, v: View, k: nat)
    requires SlabOk(bytes, size, p, h, w, v) && IsLive(v, k)
    ensures var a := Item(p, k, size);
            SlabOk(bytes, size, p, h.(freeItems := a, freeCount := h.freeCount + 1), w[a := h.freeItems], Give(v, k))
  {
    var a, u := Item(p, k, size), Give(v, k);
    var w' := w[a := h.freeItems];
    OtherItem(p, v.carved, k, size);
    forall i | 0 <= i < |u.returned|
      ensures LinkedAt(bytes, size, p, w', u, i)
    {
      if i > 0 {
        assert u.returned[i] == v.returned[i - 1];
        OtherItem(p, v.returned[i - 1], k, size);
        assert LinkedAt(bytes, size, p, w, v, i - 1);
      }
    }
  }

  /** A fresh page. */
  lemma InitOk(bytes: nat, size: nat, p: nat, w: Words)
    requires bytes >= HEADER && size > 0 && size % 16 == 0 && p % 16 == 0 && p > 0
    ensures var c := Capacity(bytes, size);
            SlabOk(bytes, size, p, Header(p + HEADER, c, c), w[p + HEADER := NEXT_LINK], View([], 0))
  {
  }

  /** The numbers below `n`. */
  function Below(n: nat): (r: set<nat>)
    ensures |r| == n
    ensures forall k :: k in r <==> 0 <= k < n
  {
    if n == 0 then {} else Below(n - 1) + {n - 1}
  }

  function Elements(s: seq<nat>): (r: set<nat>)
    ensures forall k :: k in r <==> k in s
  {
    if s == [] then {} else Elements(s[..|s| - 1]) + {s[|s| - 1]}
  }

  lemma {:induction false} NoDupSize(s: seq<nat>)
    requires NoDup(s)
    ensures |Elements(s)| == |s|
  {
    if s != [] {
      NoDupSize(s[..|s| - 1]);
    }
  }

  lemma Subsets(a: set<nat>, b: set<nat>)
    requires a <= b
    ensures |a| <= |b| && (|a| == |b| ==> a == b)
  {
    assert b == a + (b - a);
  }

  /** Distinct numbers below `n` are all of them exactly when there are `n`. */
  lemma Pigeonhole(s: seq<nat>, n: nat)
    requires NoDup(s) && forall i :: 0 <= i < |s| ==> s[i] < n
    ensures |s| <= n
    ensures |s| == n <==> Elements(s) == Below(n)
  {
    NoDupSize(s);
    Subsets(Elements(s), Below(n));
  }

  /** A page is all free exactly when none of its items is live. */
  lemma AllFreeExact(bytes: nat, size: nat, p: nat, h: Header, w: Words, v: View)
    requires SlabOk(bytes, size, p, h, w, v)
    ensures h.freeCount <= h.maxItems
    ensures h.freeCount == h.maxItems <==> forall k: nat :: !IsLive(v, k)
  {
    Pigeonhole(v.returned, v.carved);
    if forall k: nat :: !IsLive(v, k) {
      forall k: nat
        ensures k in Below(v.carved) ==> k in Elements(v.returned)
      {
        assert !IsLive(v, k);
      }
      assert Elements(v.returned) == Below(v.carved);
    } else {
      var k: nat :| IsLive(v, k);
      assert k in Below(v.carved) && k !in Elements(v.returned);
    }
  }

  /** A page is full exactly when every one of its `maxItems` items is live. */
  lemma FullExact(bytes: nat, size: nat, p: nat, h: Header, w: Words, v: View)
    requires SlabOk(bytes, size, p, h, w, v)
    ensures h.freeCount == 0 <==> forall k: nat :: k < h.maxItems ==> IsLive(v, k)
  {
    Pigeonhole(v.returned, v.carved);
    if h.maxItems > 0 && forall k: nat :: k < h.maxItems ==> IsLive(v, k) {
      assert IsLive(v, h.maxItems - 1);
      assert |v.returned| > 0 ==> v.returned[0] in v.returned && IsLive(v, v.returned[0]);
    }
  }
}

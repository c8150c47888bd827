/**
 * A whole page class as a value: the pool of free pages, the allocators and the pages they own.
 * The lemmas say how each change of a few fields keeps the invariant.
 */
module SlabState {
  import opened Arith
  import opened SlabSpec

  /** An allocator's own fields; `slabs` is its list of pages, front first. */
  datatype Allocator = Allocator(slabs: seq<nat>, itemSize: nat, maxItems: int, noGrow: bool)

  /** Where a page is: in the pool, with an allocator, or lost by a failed creation. */
  datatype Owner = Pool | Of(id: nat) | Lost

  datatype State = State(
    avail: seq<nat>, header: map<nat, Header>, word: Words, allocators: map<nat, Allocator>,
    view: map<nat, View>, owner: map<nat, Owner>)

  /** Pages are aligned to their size, which is a multiple of 16. */
  ghost predicate PageOk(bytes: nat, p: nat) {
    bytes > HEADER && p > 0 && p % 16 == 0 && Wrap(p, bytes) == 0
  }

  lemma PagesApart(bytes: nat, p: nat, q: nat)
    requires PageOk(bytes, p) && PageOk(bytes, q) && p != q
    ensures p + bytes <= q || q + bytes <= p
  {
    if p < q < p + bytes {
      SameSlot(p, q, bytes);
    } else if q < p < q + bytes {
      SameSlot(q, p, bytes);
    }
  }

  // ----- The invariant -----

  ghost predicate InPool(s: State, p: nat) {
    p in s.owner && s.owner[p] == Pool
  }

  ghost predicate OwnedBy(s: State, a: nat, p: nat) {
    p in s.owner && s.owner[p] == Of(a)
  }

  /** The pool holds exactly the pages that nobody owns. */
  ghost predicate PoolOk(s: State) {
    NoDup(s.avail) && forall p :: p in s.avail <==> InPool(s, p)
  }

  /** An allocator's list holds exactly its pages. */
  ghost predicate ListOk(s: State, a: nat) {
    && a in s.allocators
    && var x := s.allocators[a];
    && NoDup(x.slabs) && x.itemSize > 0 && x.itemSize % 16 == 0
    && forall p :: p in x.slabs <==> OwnedBy(s, a, p)
  }

  /** An owned page belongs to an allocator, and its header, links and meaning agree. */
  ghost predicate PageGood(bytes: nat, s: State, p: nat) {
    && p in s.owner && PageOk(bytes, p)
    && (s.owner[p].Of? ==>
          && s.owner[p].id in s.allocators && p in s.header && p in s.view
          && SlabOk(bytes, s.allocators[s.owner[p].id].itemSize, p, s.header[p], s.word, s.view[p]))
  }

  ghost predicate HasFree(s: State, p: nat) {
    p in s.header && s.header[p].freeCount > 0
  }

  /** Pages with free items come before full ones. */
  ghost predicate FreeFirst(s: State, slabs: seq<nat>) {
    forall i, j :: 0 <= i < j < |slabs| && HasFree(s, slabs[j]) ==> HasFree(s, slabs[i])
  }

  /** Every page is in exactly one place and means what its header and links say. */
  ghost predicate Core(bytes: nat, pages: set<nat>, s: State) {
    && s.owner.Keys == pages && PoolOk(s)
    && (forall p {:trigger PageGood(bytes, s, p)} :: p in pages ==> PageGood(bytes, s, p))
    && (forall a {:trigger ListOk(s, a)} :: a in s.allocators ==> ListOk(s, a))
  }

  /** The allocator has a page, and looking at the first one is enough. */
  ghost predicate Ordered(s: State, a: nat) {
    a in s.allocators && s.allocators[a].slabs != [] && FreeFirst(s, s.allocators[a].slabs)
  }

  ghost predicate Inv(bytes: nat, pages: set<nat>, s: State) {
    Core(bytes, pages, s) && forall a {:trigger Ordered(s, a)} :: a in s.allocators ==> Ordered(s, a)
  }

  // ----- What clients see -----

  /** Item `k` of page `p` is in the hands of a client. */
  ghost predicate Live(s: State, p: nat, k: nat) {
    p in s.owner && s.owner[p].Of? && p in s.view && IsLive(s.view[p], k)
  }

  /** The item's address, in the page's allocator. */
  function Address(s: State, p: nat, k: nat): nat
    requires p in s.owner && s.owner[p].Of? && s.owner[p].id in s.allocators
  {
    Item(p, k, s.allocators[s.owner[p].id].itemSize)
  }

  /** `item` is a live item of allocator `a`. */
  ghost predicate LiveItem(s: State, a: nat, p: nat, k: nat, item: nat) {
    OwnedBy(s, a, p) && Live(s, p, k) && a in s.allocators && item == Address(s, p, k)
  }

  /** A live item lies inside its own page, behind the header. */
  lemma LiveInside(bytes: nat, pages: set<nat>, s: State, a: nat, p: nat, k: nat, item: nat)
    requires Inv(bytes, pages, s) && LiveItem(s, a, p, k, item)
    ensures p + HEADER <= item && item + s.allocators[a].itemSize <= p + bytes
  {
    assert PageGood(bytes, s, p);
    CarveTest(bytes, s.allocators[a].itemSize, k);
  }

  /** Live items, of whatever allocators, do not overlap. */
  lemma LiveDisjoint(bytes: nat, pages: set<nat>, s: State,
                     a: nat, p: nat, k: nat, item: nat, b: nat, q: nat, j: nat, other: nat)
    requires Inv(bytes, pages, s) && LiveItem(s, a, p, k, item) && LiveItem(s, b, q, j, other)
    requires (p, k) != (q, j)
    ensures item + s.allocators[a].itemSize <= other || other + s.allocators[b].itemSize <= item
  {
    LiveInside(bytes, pages, s, a, p, k, item);
    LiveInside(bytes, pages, s, b, q, j, other);
    assert PageGood(bytes, s, p) && PageGood(bytes, s, q);
    if p != q {
      PagesApart(bytes, p, q);
    } else if k < j {
      OffsetStep(k, j, s.allocators[a].itemSize);
    } else {
      OffsetStep(j, k, s.allocators[a].itemSize);
    }
  }

  /** Masking the address of a live item, in words of any width, gives its page. */
  lemma MaskFindsPage(bits: nat, log: nat, pages: set<nat>, s: State, a: nat, p: nat, k: nat, item: nat)
    requires log <= bits && Inv(Pow2(log), pages, s) && LiveItem(s, a, p, k, item) && p + Pow2(log) <= Pow2(bits)
    ensures Pow2(log) <= Pow2(bits) && And(item, Pow2(bits) - Pow2(log)) == p
  {
    var bytes := Pow2(log);
    LiveInside(bytes, pages, s, a, p, k, item);
    assert PageGood(bytes, s, p);
    MaskClears(item, log, bits);
    LowIsWrap(item, log);
    WrapInPage(p, item, bytes);
  }

  lemma {:induction false} WrapInPage(p: nat, x: nat, bytes: nat)
    requires bytes > 0 && Wrap(p, bytes) == 0 && p <= x < p + bytes
    ensures Wrap(x, bytes) == x - p
  {
    if p >= bytes {
      WrapInPage(p - bytes, x - bytes, bytes);
    }
  }

  // ----- Changing one page -----

  /** The memory outside one page is as it was. */
  ghost predicate SameElsewhere(bytes: nat, p: nat, w: Words, w': Words) {
    forall a :: 0 <= a < p || p + bytes <= a ==> Load(w', a) == Load(w, a)
  }

  /** Only page `p` of `s` has another header, other links and another meaning in `t`. */
  ghost predicate Repaged(bytes: nat, s: State, t: State, p: nat) {
    && t.avail == s.avail && t.owner == s.owner && t.allocators == s.allocators
    && p in t.header && t.header == s.header[p := t.header[p]]
    && p in t.view && t.view == s.view[p := t.view[p]]
    && SameElsewhere(bytes, p, s.word, t.word)
  }

  lemma RepagedOther(bytes: nat, s: State, t: State, p: nat, q: nat)
    requires Repaged(bytes, s, t, p) && PageOk(bytes, p) && PageGood(bytes, s, q) && q != p
    ensures PageGood(bytes, t, q)
  {
    if s.owner[q].Of? {
      PagesApart(bytes, p, q);
      SlabFrame(bytes, s.allocators[s.owner[q].id].itemSize, q, s.header[q], s.word, t.word, s.view[q]);
    }
  }

  lemma RepagedCore(bytes: nat, pages: set<nat>, s: State, t: State, p: nat)
    requires Core(bytes, pages, s) && p in pages && Repaged(bytes, s, t, p) && PageGood(bytes, t, p)
    ensures Core(bytes, pages, t)
  {
    forall q | q in pages
      ensures PageGood(bytes, t, q)
    {
      if q != p {
        assert PageGood(bytes, s, p) && PageGood(bytes, s, q);
        RepagedOther(bytes, s, t, p, q);
      }
    }
    forall p
      ensures p in t.avail <==> InPool(t, p)
    {
      assert InPool(t, p) <==> InPool(s, p);
    }
    forall a | a in t.allocators
      ensures ListOk(t, a)
    {
      assert ListOk(s, a);
      assert forall q :: OwnedBy(t, a, q) <==> OwnedBy(s, a, q);
    }
  }

  /** The order of the other allocators' lists does not change. */
  lemma RepagedOrder(bytes: nat, pages: set<nat>, s: State, t: State, a: nat, p: nat, b: nat)
    requires Core(bytes, pages, s) && Repaged(bytes, s, t, p) && OwnedBy(s, a, p)
    requires b != a && Ordered(s, b)
    ensures Ordered(t, b)
  {
    var l := s.allocators[b].slabs;
    assert ListOk(s, b);
    forall i | 0 <= i < |l|
      ensures HasFree(t, l[i]) <==> HasFree(s, l[i])
    {
      assert l[i] in l;
      assert OwnedBy(s, b, l[i]);
    }
  }

  // ----- Changing one list -----

  /** Only the order of `a`'s list differs. */
  ghost predicate Relisted(s: State, t: State, a: nat) {
    && a in s.allocators && a in t.allocators
    && t == s.(allocators := s.allocators[a := s.allocators[a].(slabs := t.allocators[a].slabs)])
    && var l := t.allocators[a].slabs;
    && NoDup(l) && forall p :: p in l <==> p in s.allocators[a].slabs
  }

  lemma RelistedCore(bytes: nat, pages: set<nat>, s: State, t: State, a: nat)
    requires Core(bytes, pages, s) && Relisted(s, t, a)
    ensures Core(bytes, pages, t)
  {
    forall q | q in pages
      ensures PageGood(bytes, t, q)
    {
      assert PageGood(bytes, s, q);
    }
    forall p
      ensures p in t.avail <==> InPool(t, p)
    {
      assert InPool(t, p) <==> InPool(s, p);
    }
    forall b | b in t.allocators
      ensures ListOk(t, b)
    {
      assert ListOk(s, b);
      assert forall q :: OwnedBy(t, b, q) <==> OwnedBy(s, b, q);
    }
  }

  lemma RelistedOrder(s: State, t: State, a: nat, b: nat)
    requires Relisted(s, t, a) && b != a && Ordered(s, b)
    ensures Ordered(t, b)
  {
    var l := s.allocators[b].slabs;
    assert forall p :: HasFree(t, p) <==> HasFree(s, p);
  }

  // ----- Pages moving between the pool and an allocator -----

  /** The front page of the pool has become a fresh page at the front of `a`'s list. */
  ghost predicate Acquired(bytes: nat, s: State, t: State, a: nat) {
    && s.avail != [] && a in t.allocators
    && var (p, x, y) := (s.avail[0], if a in s.allocators then s.allocators[a].slabs else [], t.allocators[a]);
    && t.avail == s.avail[1..] && t.owner == s.owner[p := Of(a)]
    && t.allocators == s.allocators[a := y] && y.slabs == [p] + x
    && (a in s.allocators ==> y.itemSize == s.allocators[a].itemSize && y.noGrow == s.allocators[a].noGrow)
    && y.itemSize > 0 && y.itemSize % 16 == 0 && bytes >= HEADER
    && var c := Capacity(bytes, y.itemSize);
    && t.header == s.header[p := Header(p + HEADER, c, c)]
    && t.word == s.word[p + HEADER := NEXT_LINK] && t.view == s.view[p := View([], 0)]
  }

  lemma AcquiredPages(bytes: nat, pages: set<nat>, s: State, t: State, a: nat, q: nat)
    requires Core(bytes, pages, s) && Acquired(bytes, s, t, a) && q in pages
    requires a !in s.allocators ==> forall p :: p in pages ==> s.owner[p] != Of(a)
    ensures PageGood(bytes, t, q)
  {
    var p := s.avail[0];
    assert InPool(s, p);
    assert PageGood(bytes, s, p) && PageGood(bytes, s, q);
    if q == p {
      InitOk(bytes, t.allocators[a].itemSize, p, s.word);
    } else if s.owner[q].Of? {
      PagesApart(bytes, p, q);
      SlabFrame(bytes, s.allocators[s.owner[q].id].itemSize, q, s.header[q], s.word, t.word, s.view[q]);
    }
  }

  lemma AcquiredLists(bytes: nat, pages: set<nat>, s: State, t: State, a: nat, b: nat)
    requires Core(bytes, pages, s) && Acquired(bytes, s, t, a) && b in t.allocators
    requires a !in s.allocators ==> forall p :: p in pages ==> s.owner[p] != Of(a)
    ensures ListOk(t, b)
  {
    var p := s.avail[0];
    assert InPool(s, p);
    assert b in s.allocators ==> ListOk(s, b);
    forall q
      ensures q in t.allocators[b].slabs <==> OwnedBy(t, b, q)
    {
      assert b in s.allocators ==> (q in s.allocators[b].slabs <==> OwnedBy(s, b, q));
    }
    if b in s.allocators {
      assert p !in s.allocators[b].slabs;
    }
  }

  lemma AcquiredCore(bytes: nat, pages: set<nat>, s: State, t: State, a: nat)
    requires Core(bytes, pages, s) && Acquired(bytes, s, t, a)
    ensures Core(bytes, pages, t)
  {
    var p := s.avail[0];
    assert InPool(s, p);
    forall q | q in pages
      ensures PageGood(bytes, s, q)
    {
    }
    forall q | q in pages
      ensures PageGood(bytes, t, q)
    {
      AcquiredPages(bytes, pages, s, t, a, q);
    }
    forall b | b in t.allocators
      ensures ListOk(t, b)
    {
      AcquiredLists(bytes, pages, s, t, a, b);
    }
    assert s.avail == [p] + t.avail;
    forall q
      ensures q in t.avail <==> InPool(t, q)
    {
      assert q in s.avail <==> InPool(s, q);
    }
  }

  /** The order is kept: the fresh page has as many free items as any page of that size can have. */
  lemma AcquiredOrder(bytes: nat, pages: set<nat>, s: State, t: State, a: nat, b: nat)
    requires Core(bytes, pages, s) && Acquired(bytes, s, t, a) && b in t.allocators
    requires b in s.allocators ==> Ordered(s, b)
    ensures Ordered(t, b)
  {
    var p, l := s.avail[0], t.allocators[b].slabs;
    assert InPool(s, p);
    if b in s.allocators {
      var m := s.allocators[b].slabs;
      assert ListOk(s, b);
      forall i | 0 <= i < |m|
        ensures HasFree(t, m[i]) ==> HasFree(s, m[i]) && (b == a ==> HasFree(t, p))
        ensures HasFree(s, m[i]) ==> HasFree(t, m[i])
      {
        assert m[i] in m;
        assert OwnedBy(s, b, m[i]) && PageGood(bytes, s, m[i]);
        AllFreeExact(bytes, s.allocators[b].itemSize, m[i], s.header[m[i]], s.word, s.view[m[i]]);
      }
    }
  }

  /** Page `p` has gone from `a`'s list to the back of the pool. */
  ghost predicate Released(s: State, t: State, a: nat, p: nat) {
    && a in s.allocators && a in t.allocators
    && t == s.(avail := s.avail + [p], owner := s.owner[p := Pool], allocators := s.allocators[a := t.allocators[a]])
    && OwnedBy(s, a, p) && t.allocators[a].itemSize == s.allocators[a].itemSize
    && NoDup(t.allocators[a].slabs)
    && forall q :: q in t.allocators[a].slabs <==> q in s.allocators[a].slabs && q != p
  }

  lemma ReleasedCore(bytes: nat, pages: set<nat>, s: State, t: State, a: nat, p: nat)
    requires Core(bytes, pages, s) && Released(s, t, a, p)
    ensures Core(bytes, pages, t)
  {
    forall q | q in pages
      ensures PageGood(bytes, t, q)
    {
      assert PageGood(bytes, s, q);
    }
    assert !InPool(s, p);
    assert p !in s.avail;
    forall q
      ensures q in t.avail <==> InPool(t, q)
    {
      assert q in s.avail <==> InPool(s, q);
    }
    forall b | b in t.allocators
      ensures ListOk(t, b)
    {
      assert ListOk(s, b);
      forall q
        ensures q in t.allocators[b].slabs <==> OwnedBy(t, b, q)
      {
        assert q in s.allocators[b].slabs <==> OwnedBy(s, b, q);
      }
    }
  }

  lemma ReleasedOrder(s: State, t: State, a: nat, p: nat, b: nat)
    requires Released(s, t, a, p) && b != a && Ordered(s, b)
    ensures Ordered(t, b)
  {
    assert forall q :: HasFree(t, q) <==> HasFree(s, q);
  }

  /** An allocator without pages is gone. */
  lemma DroppedCore(bytes: nat, pages: set<nat>, s: State, a: nat)
    requires Core(bytes, pages, s) && a in s.allocators && s.allocators[a].slabs == []
    ensures Core(bytes, pages, s.(allocators := s.allocators - {a}))
    ensures forall b :: b != a && Ordered(s, b) ==> Ordered(s.(allocators := s.allocators - {a}), b)
    ensures forall p :: p in pages ==> s.owner[p] != Of(a)
  {
    var t := s.(allocators := s.allocators - {a});
    assert ListOk(s, a);
    forall p | p in pages
      ensures s.owner[p] != Of(a) && PageGood(bytes, t, p)
    {
      assert PageGood(bytes, s, p);
      assert p in s.allocators[a].slabs <==> OwnedBy(s, a, p);
    }
    forall q
      ensures q in t.avail <==> InPool(t, q)
    {
      assert q in s.avail <==> InPool(s, q);
    }
    forall b | b in t.allocators
      ensures ListOk(t, b)
    {
      assert ListOk(s, b);
      assert forall q :: OwnedBy(t, b, q) <==> OwnedBy(s, b, q);
    }
    assert forall q :: HasFree(t, q) <==> HasFree(s, q);
  }

  // ----- Lists -----

  /** A list without one of its pages. */
  function Without(l: seq<nat>, p: nat): seq<nat> {
    if l == [] then [] else if l[0] == p then l[1..] else [l[0]] + Without(l[1..], p)
  }

  lemma {:induction false} WithoutOk(l: seq<nat>, p: nat)
    requires NoDup(l)
    ensures NoDup(Without(l, p)) && p !in Without(l, p)
    ensures forall q :: q in Without(l, p) <==> q in l && q != p
    ensures p in l ==> |Without(l, p)| == |l| - 1
  {
    if l != [] {
      var rest := l[1..];
      assert l == [l[0]] + rest;
      if l[0] != p {
        WithoutOk(rest, p);
        assert forall i :: 0 <= i < |Without(rest, p)| ==> Without(rest, p)[i] in rest;
      }
    }
  }

  lemma {:induction false} WithoutFreeFirst(s: State, l: seq<nat>, p: nat)
    requires NoDup(l) && FreeFirst(s, l)
    ensures FreeFirst(s, Without(l, p))
  {
    if l != [] {
      var rest := l[1..];
      assert l == [l[0]] + rest;
      if l[0] != p {
        WithoutFreeFirst(s, rest, p);
        WithoutOk(rest, p);
        ConsFreeFirst(s, l[0], rest, Without(rest, p));
      }
    }
  }

  lemma ConsFreeFirst(s: State, x: nat, rest: seq<nat>, m: seq<nat>)
    requires FreeFirst(s, [x] + rest)
    requires FreeFirst(s, m)
    requires forall i :: 0 <= i < |m| ==> m[i] in rest
    ensures FreeFirst(s, [x] + m)
  {
    var l, k := [x] + rest, [x] + m;
    assert forall i :: 0 <= i < |rest| ==> rest[i] == l[i + 1];
    forall i, j | 0 <= i < j < |k| && HasFree(s, k[j])
      ensures HasFree(s, k[i])
    {
      assert k[j] == m[j - 1];
      var n :| 0 <= n < |rest| && rest[n] == m[j - 1];
      assert l[n + 1] == k[j] && HasFree(s, l[0]);
      if i > 0 {
        assert k[i] == m[i - 1];
      }
    }
  }

  /** To the front, when the page has free items. */
  lemma FrontOk(s: State, l: seq<nat>, p: nat)
    requires NoDup(l) && p in l && HasFree(s, p) && FreeFirst(s, Without(l, p))
    ensures NoDup([p] + Without(l, p)) && FreeFirst(s, [p] + Without(l, p))
    ensures forall q :: q in [p] + Without(l, p) <==> q in l
  {
    WithoutOk(l, p);
  }

  /** The first page to the back, when it is full. */
  lemma BackOk(s: State, l: seq<nat>)
    requires NoDup(l) && l != [] && !HasFree(s, l[0]) && FreeFirst(s, l[1..])
    ensures NoDup(l[1..] + [l[0]]) && FreeFirst(s, l[1..] + [l[0]])
    ensures forall q :: q in l[1..] + [l[0]] <==> q in l
  {
    assert l == [l[0]] + l[1..];
  }

  lemma AcquiredInv(bytes: nat, pages: set<nat>, s: State, t: State, a: nat)
    requires Inv(bytes, pages, s) && Core(bytes, pages, t) && Acquired(bytes, s, t, a)
    ensures Inv(bytes, pages, t)
  {
    forall b | b in t.allocators
      ensures Ordered(t, b)
    {
      AcquiredOrder(bytes, pages, s, t, a, b);
    }
  }

  // ----- Allocation and release, as clients see them -----

  /** The same items are live. */
  ghost predicate SameLive(s: State, t: State) {
    forall q: nat, j: nat :: Live(t, q, j) <==> Live(s, q, j)
  }

  /** Item `k` of page `p` has become live, and nothing else has changed for clients. */
  ghost predicate OnlyAdds(s: State, t: State, p: nat, k: nat) {
    forall q: nat, j: nat :: Live(t, q, j) <==> Live(s, q, j) || (q == p && j == k)
  }

  /** Item `k` of page `p` is no longer live, and nothing else has changed for clients. */
  ghost predicate OnlyDrops(s: State, t: State, p: nat, k: nat) {
    forall q: nat, j: nat :: Live(t, q, j) <==> Live(s, q, j) && !(q == p && j == k)
  }

  /** Some page has a free item, or a page with room for items can be had. */
  ghost predicate CanAlloc(bytes: nat, s: State, a: nat) {
    && a in s.allocators && bytes >= HEADER && s.allocators[a].itemSize > 0
    && (|| (exists p :: p in s.allocators[a].slabs && HasFree(s, p))
        || (!s.allocators[a].noGrow && s.avail != [] && Capacity(bytes, s.allocators[a].itemSize) > 0))
  }

  lemma FirstPage(bytes: nat, pages: set<nat>, s: State, a: nat)
    requires Inv(bytes, pages, s) && a in s.allocators
    ensures ListOk(s, a) && Ordered(s, a)
    ensures var p := s.allocators[a].slabs[0];
            && p in pages && OwnedBy(s, a, p) && PageOk(bytes, p) && p in s.header && p in s.view
            && SlabOk(bytes, s.allocators[a].itemSize, p, s.header[p], s.word, s.view[p])
  {
    assert ListOk(s, a) && Ordered(s, a);
    var p := s.allocators[a].slabs[0];
    assert p in s.allocators[a].slabs;
    assert OwnedBy(s, a, p);
    assert PageGood(bytes, s, p);
  }

  /** Looking at the first page is enough to know whether any page has a free item. */
  lemma FirstEnough(bytes: nat, pages: set<nat>, s: State, a: nat)
    requires Inv(bytes, pages, s) && a in s.allocators
    ensures bytes >= HEADER && s.allocators[a].itemSize > 0 && s.allocators[a].slabs != []
    ensures s.allocators[a].slabs[0] in s.header
    ensures HasFree(s, s.allocators[a].slabs[0]) <==> exists p :: p in s.allocators[a].slabs && HasFree(s, p)
  {
    FirstPage(bytes, pages, s, a);
    var l := s.allocators[a].slabs;
    if p :| p in l && HasFree(s, p) {
      var i :| 0 <= i < |l| && l[i] == p;
      assert HasFree(s, l[0]);
    }
  }

  /** A fresh page at the front has a free item exactly when pages have room for items at all. */
  lemma GrownFirst(bytes: nat, pages: set<nat>, s: State, t: State, a: nat)
    requires Inv(bytes, pages, s) && Acquired(bytes, s, t, a) && a in s.allocators
    ensures HasFree(t, t.allocators[a].slabs[0]) <==> Capacity(bytes, s.allocators[a].itemSize) > 0
    ensures SameLive(s, t)
  {
    AcquiredLive(bytes, pages, s, t, a);
  }

  lemma AcquiredLive(bytes: nat, pages: set<nat>, s: State, t: State, a: nat)
    requires Core(bytes, pages, s) && Acquired(bytes, s, t, a)
    ensures SameLive(s, t)
  {
    assert s.avail[0] in s.avail;
    assert InPool(s, s.avail[0]);
  }

  lemma TakenState(bytes: nat, pages: set<nat>, s: State, t: State, a: nat)
    requires Inv(bytes, pages, s) && a in s.allocators && s.allocators[a].slabs != []
    requires var p := s.allocators[a].slabs[0];
             && Repaged(bytes, s, t, p) && p in s.view && p in s.header && HasFree(s, p)
             && t.view[p] == Take(s.view[p]) && t.header[p].freeCount == s.header[p].freeCount - 1
             && SlabOk(bytes, s.allocators[a].itemSize, p, t.header[p], t.word, t.view[p])
    ensures var (p, k) := (s.allocators[a].slabs[0], Taken(s.view[s.allocators[a].slabs[0]]));
            && Core(bytes, pages, t) && OnlyAdds(s, t, p, k) && !Live(s, p, k)
            && LiveItem(t, a, p, k, Item(p, k, s.allocators[a].itemSize))
            && (HasFree(t, p) ==> Inv(bytes, pages, t))
  {
    FirstPage(bytes, pages, s, a);
    var p := s.allocators[a].slabs[0];
    var k := Taken(s.view[p]);
    assert PageGood(bytes, t, p);
    RepagedCore(bytes, pages, s, t, p);
    TakeLive(s.view[p]);
    if HasFree(t, p) {
      forall b | b in t.allocators
        ensures Ordered(t, b)
      {
        assert Ordered(s, b);
        if b != a {
          RepagedOrder(bytes, pages, s, t, a, p, b);
        } else {
          assert forall q :: HasFree(t, q) <==> HasFree(s, q);
        }
      }
    }
  }

  /** A page that has become full goes to the back. */
  lemma ToBack(bytes: nat, pages: set<nat>, s: State, t: State, u: State, a: nat)
    requires Inv(bytes, pages, s) && Core(bytes, pages, t) && a in s.allocators && s.allocators[a].slabs != []
    requires var l := s.allocators[a].slabs;
             && Repaged(bytes, s, t, l[0]) && !HasFree(t, l[0])
             && u == t.(allocators := t.allocators[a := t.allocators[a].(slabs := l[1..] + [l[0]])])
    ensures Inv(bytes, pages, u)
    ensures forall q: nat, j: nat :: Live(u, q, j) <==> Live(t, q, j)
  {
    var l := s.allocators[a].slabs;
    FirstPage(bytes, pages, s, a);
    assert ListOk(t, a);
    assert forall q :: q != l[0] ==> (HasFree(t, q) <==> HasFree(s, q));
    assert forall i :: 0 < i < |l| ==> l[i] != l[0];
    assert FreeFirst(t, l[1..]);
    BackOk(t, l);
    RelistedCore(bytes, pages, t, u, a);
    assert forall q :: HasFree(u, q) <==> HasFree(t, q);
    forall b | b in u.allocators
      ensures Ordered(u, b)
    {
      assert Ordered(s, b);
      if b != a {
        RepagedOrder(bytes, pages, s, t, a, l[0], b);
        RelistedOrder(t, u, a, b);
      }
    }
  }

  lemma LivePage(bytes: nat, pages: set<nat>, s: State, a: nat, p: nat, k: nat, item: nat)
    requires Inv(bytes, pages, s) && LiveItem(s, a, p, k, item)
    ensures p in pages && PageOk(bytes, p) && p in s.header && p in s.view && IsLive(s.view[p], k)
    ensures SlabOk(bytes, s.allocators[a].itemSize, p, s.header[p], s.word, s.view[p])
    ensures ListOk(s, a) && Ordered(s, a) && p in s.allocators[a].slabs
    ensures item == Item(p, k, s.allocators[a].itemSize)
  {
    assert PageGood(bytes, s, p);
    assert ListOk(s, a) && Ordered(s, a);
  }

  lemma WrittenState(bytes: nat, pages: set<nat>, s: State, t: State, a: nat, p: nat, k: nat, item: nat, c: nat, x: nat)
    requires Inv(bytes, pages, s) && LiveItem(s, a, p, k, item) && t == s.(word := s.word[c := x])
    requires item <= c < item + s.allocators[a].itemSize
    ensures Inv(bytes, pages, t) && SameLive(s, t)
  {
    LivePage(bytes, pages, s, a, p, k, item);
    LiveInside(bytes, pages, s, a, p, k, item);
    ClientWriteOk(bytes, s.allocators[a].itemSize, p, s.header[p], s.word, s.view[p], k, c, x);
    assert t.header == s.header[p := t.header[p]] && t.view == s.view[p := t.view[p]];
    assert PageGood(bytes, t, p);
    RepagedCore(bytes, pages, s, t, p);
    assert forall q :: HasFree(t, q) <==> HasFree(s, q);
    forall b | b in t.allocators
      ensures Ordered(t, b)
    {
      assert Ordered(s, b);
    }
  }

  /** One more free item on page `p`, before the list is put in order. */
  ghost predicate Given(bytes: nat, pages: set<nat>, s: State, t: State, a: nat, p: nat) {
    && Inv(bytes, pages, s) && Core(bytes, pages, t) && a in s.allocators && p in s.allocators[a].slabs
    && OwnedBy(s, a, p) && Repaged(bytes, s, t, p) && HasFree(t, p) && p in t.view
    && SlabOk(bytes, s.allocators[a].itemSize, p, t.header[p], t.word, t.view[p])
  }

  lemma GivenState(bytes: nat, pages: set<nat>, s: State, t: State, a: nat, p: nat, k: nat)
    requires Inv(bytes, pages, s) && OwnedBy(s, a, p) && a in s.allocators && p in s.allocators[a].slabs
    requires Live(s, p, k) && PageOk(bytes, p) && p in s.header && p in s.view && Repaged(bytes, s, t, p)
    requires t.view[p] == Give(s.view[p], k) && t.header[p].freeCount == s.header[p].freeCount + 1
    requires SlabOk(bytes, s.allocators[a].itemSize, p, t.header[p], t.word, t.view[p])
    ensures Given(bytes, pages, s, t, a, p) && OnlyDrops(s, t, p, k)
    ensures t.header[p].freeCount == t.header[p].maxItems <==> forall j: nat :: Live(s, p, j) ==> j == k
  {
    assert PageGood(bytes, t, p);
    RepagedCore(bytes, pages, s, t, p);
    GiveLive(s.view[p], k);
    AllFreeExact(bytes, s.allocators[a].itemSize, p, t.header[p], t.word, t.view[p]);
    if forall j: nat :: Live(s, p, j) ==> j == k {
      forall j: nat
        ensures !IsLive(t.view[p], j)
      {
        assert Live(s, p, j) ==> j == k;
      }
    } else {
      var j: nat :| Live(s, p, j) && j != k;
      assert IsLive(t.view[p], j);
    }
  }

  lemma GivenLists(bytes: nat, pages: set<nat>, s: State, t: State, a: nat, p: nat)
    requires Given(bytes, pages, s, t, a, p)
    ensures ListOk(t, a) && FreeFirst(t, Without(t.allocators[a].slabs, p))
    ensures forall b :: b in t.allocators && b != a ==> Ordered(t, b)
  {
    var l := s.allocators[a].slabs;
    assert ListOk(t, a) && Ordered(s, a);
    WithoutOk(l, p);
    WithoutFreeFirst(s, l, p);
    assert forall q :: q != p ==> (HasFree(t, q) <==> HasFree(s, q));
    var m := Without(l, p);
    assert forall i :: 0 <= i < |m| ==> m[i] in m;
    forall b | b in t.allocators && b != a
      ensures Ordered(t, b)
    {
      assert Ordered(s, b);
      RepagedOrder(bytes, pages, s, t, a, p, b);
    }
  }

  /** A page that still has live items goes to the front. */
  lemma ToFront(bytes: nat, pages: set<nat>, s: State, t: State, u: State, a: nat, p: nat)
    requires Given(bytes, pages, s, t, a, p)
    requires u == t.(allocators :=
                            t.allocators[a := t.allocators[a].(slabs := [p] + Without(t.allocators[a].slabs, p))])
    ensures Inv(bytes, pages, u) && SameLive(t, u) && !InPool(u, p)
  {
    GivenLists(bytes, pages, s, t, a, p);
    FrontOk(t, t.allocators[a].slabs, p);
    RelistedCore(bytes, pages, t, u, a);
    assert forall q :: HasFree(u, q) <==> HasFree(t, q);
    forall b | b in u.allocators
      ensures Ordered(u, b)
    {
      if b != a {
        RelistedOrder(t, u, a, b);
      }
    }
  }

  /** A page without live items goes back to the pool ... */
  lemma ToPool(bytes: nat, pages: set<nat>, s: State, t: State, u: State, a: nat, p: nat)
    requires Given(bytes, pages, s, t, a, p) && t.header[p].freeCount == t.header[p].maxItems
    requires |t.allocators[a].slabs| > 1
    requires u == t.(avail := t.avail + [p], owner := t.owner[p := Pool],
                     allocators := t.allocators[a := t.allocators[a].(slabs := Without(t.allocators[a].slabs, p))])
    ensures Inv(bytes, pages, u) && SameLive(t, u) && InPool(u, p)
  {
    GivenLists(bytes, pages, s, t, a, p);
    WithoutOk(t.allocators[a].slabs, p);
    ReleasedCore(bytes, pages, t, u, a, p);
    AllFreeExact(bytes, s.allocators[a].itemSize, p, t.header[p], t.word, t.view[p]);
    assert forall q :: HasFree(u, q) <==> HasFree(t, q);
    forall b | b in u.allocators
      ensures Ordered(u, b)
    {
      if b != a {
        ReleasedOrder(t, u, a, p, b);
      }
    }
  }

  /** ... unless it is the allocator's only page. */
  lemma OnlyPage(bytes: nat, pages: set<nat>, s: State, t: State, a: nat, p: nat)
    requires Given(bytes, pages, s, t, a, p) && |t.allocators[a].slabs| == 1
    ensures Inv(bytes, pages, t) && !InPool(t, p)
  {
    GivenLists(bytes, pages, s, t, a, p);
  }

  // ----- Deleting an allocator -----

  /** Giving the front page of `a`'s list, which has no live item, back to the pool. */
  lemma FrontReleased(bytes: nat, pages: set<nat>, s: State, t: State, a: nat)
    requires Core(bytes, pages, s) && a in s.allocators && s.allocators[a].slabs != []
    requires var p := s.allocators[a].slabs[0]; p in s.header && s.header[p].freeCount == s.header[p].maxItems
    requires a in t.allocators && t.allocators[a].itemSize == s.allocators[a].itemSize
    requires t.allocators[a].slabs == s.allocators[a].slabs[1..]
    requires var p := s.allocators[a].slabs[0];
             t == s.(avail := s.avail + [p], owner := s.owner[p := Pool],
                      allocators := s.allocators[a := t.allocators[a]])
    ensures Core(bytes, pages, t) && SameLive(s, t)
    ensures forall b :: b != a && Ordered(s, b) ==> Ordered(t, b)
    ensures FreeFirst(s, s.allocators[a].slabs) ==> FreeFirst(t, t.allocators[a].slabs)
    ensures forall k: nat :: !Live(s, s.allocators[a].slabs[0], k)
  {
    var l, p := s.allocators[a].slabs, s.allocators[a].slabs[0];
    assert ListOk(s, a);
    assert l == [p] + l[1..];
    assert p in l;
    assert OwnedBy(s, a, p) && PageGood(bytes, s, p);
    AllFreeExact(bytes, s.allocators[a].itemSize, p, s.header[p], s.word, s.view[p]);
    ReleasedCore(bytes, pages, s, t, a, p);
    assert forall q :: HasFree(t, q) <==> HasFree(s, q);
    forall b | b != a && Ordered(s, b)
      ensures Ordered(t, b)
    {
      ReleasedOrder(s, t, a, p, b);
    }
  }

  lemma BusyPage(bytes: nat, pages: set<nat>, s: State, a: nat)
    requires Core(bytes, pages, s) && a in s.allocators && s.allocators[a].slabs != []
    ensures var p := s.allocators[a].slabs[0];
            && OwnedBy(s, a, p) && p in s.header
            && (s.header[p].freeCount != s.header[p].maxItems ==> exists k: nat :: Live(s, p, k))
  {
    var p := s.allocators[a].slabs[0];
    assert ListOk(s, a);
    assert p in s.allocators[a].slabs;
    assert OwnedBy(s, a, p) && PageGood(bytes, s, p);
    AllFreeExact(bytes, s.allocators[a].itemSize, p, s.header[p], s.word, s.view[p]);
    if s.header[p].freeCount != s.header[p].maxItems {
      var k: nat :| IsLive(s.view[p], k);
      assert Live(s, p, k);
    }
  }

  /** Deletion has given back the first `n` pages of `a`'s list, none of which had a live item. */
  ghost predicate Releasing(bytes: nat, pages: set<nat>, s: State, t: State, a: nat, n: nat) {
    && Inv(bytes, pages, s) && Core(bytes, pages, t) && a in s.allocators && a in t.allocators && SameLive(s, t)
    && t.allocators == s.allocators[a := t.allocators[a]]
    && (forall b :: b in s.allocators && b != a ==> Ordered(t, b))
    && FreeFirst(t, t.allocators[a].slabs)
    && t.allocators[a].itemSize == s.allocators[a].itemSize && t.allocators[a].noGrow == s.allocators[a].noGrow
    && GivenBack(s, t, s.allocators[a].slabs, t.allocators[a].slabs, n)
  }

  /** The first `n` pages of the list `l`, none with a live item, are at the back of the pool, the others left. */
  ghost predicate GivenBack(s: State, t: State, l: seq<nat>, left: seq<nat>, n: nat) {
    && n <= |l| && left == l[n..] && t.avail == s.avail + l[..n]
    && (forall p :: p in s.owner ==> p in t.owner && t.owner[p] == if p in l[..n] then Pool else s.owner[p])
    && (forall i: nat, k: nat :: i < n ==> !Live(s, l[i], k))
  }

  lemma GivenBackStep(s: State, t: State, u: State, l: seq<nat>, left: seq<nat>, n: nat)
    requires GivenBack(s, t, l, left, n) && left != [] && forall k: nat :: !Live(s, left[0], k)
    requires u.avail == t.avail + [left[0]] && u.owner == t.owner[left[0] := Pool]
    ensures GivenBack(s, u, l, left[1..], n + 1)
  {
    assert left[0] == l[n];
    assert l[..n + 1] == l[..n] + [l[n]];
  }

  lemma ReleasingStart(bytes: nat, pages: set<nat>, s: State, a: nat)
    requires Inv(bytes, pages, s) && a in s.allocators
    ensures Releasing(bytes, pages, s, s, a, 0)
  {
    assert Ordered(s, a);
  }

  lemma ReleasingStep(bytes: nat, pages: set<nat>, s: State, t: State, u: State, a: nat, n: nat)
    requires Releasing(bytes, pages, s, t, a, n) && t.allocators[a].slabs != []
    requires var p := t.allocators[a].slabs[0]; p in t.header && t.header[p].freeCount == t.header[p].maxItems
    requires a in u.allocators && u.allocators[a].itemSize == t.allocators[a].itemSize
    requires u.allocators[a].slabs == t.allocators[a].slabs[1..] && u.allocators[a].noGrow == t.allocators[a].noGrow
    requires var p := t.allocators[a].slabs[0];
             u == t.(avail := t.avail + [p], owner := t.owner[p := Pool],
                      allocators := t.allocators[a := u.allocators[a]])
    ensures Releasing(bytes, pages, s, u, a, n + 1)
  {
    var left := t.allocators[a].slabs;
    FrontReleased(bytes, pages, t, u, a);
    assert forall k: nat :: Live(s, left[0], k) <==> Live(t, left[0], k);
    GivenBackStep(s, t, u, s.allocators[a].slabs, left, n);
    LiveThrough(s, t, u);
  }

  lemma LiveThrough(s: State, t: State, u: State)
    requires SameLive(s, t) && SameLive(t, u)
    ensures SameLive(s, u)
  {
    forall q: nat, j: nat
      ensures Live(u, q, j) <==> Live(s, q, j)
    {
      assert Live(t, q, j) <==> Live(s, q, j);
    }
  }

  /** The first page of the list has items in use. */
  ghost predicate FrontInUse(s: State, a: nat) {
    && a in s.allocators && s.allocators[a].slabs != []
    && var p := s.allocators[a].slabs[0];
    p in s.header && s.header[p].freeCount != s.header[p].maxItems
  }

  lemma ReleasingBusy(bytes: nat, pages: set<nat>, s: State, t: State, a: nat, n: nat)
    requires Releasing(bytes, pages, s, t, a, n) && FrontInUse(t, a)
    ensures Inv(bytes, pages, t) && n < |s.allocators[a].slabs|
    ensures exists k: nat :: Live(s, s.allocators[a].slabs[n], k)
  {
    BusyPage(bytes, pages, t, a);
    var p := t.allocators[a].slabs[0];
    assert p == s.allocators[a].slabs[n];
    var k: nat :| Live(t, p, k);
    assert Live(s, p, k);
    assert Ordered(t, a);
  }

  lemma ReleasingDone(bytes: nat, pages: set<nat>, s: State, t: State, a: nat, n: nat)
    requires Releasing(bytes, pages, s, t, a, n) && t.allocators[a].slabs == []
    ensures n == |s.allocators[a].slabs|
    ensures var u := t.(allocators := t.allocators - {a}); Inv(bytes, pages, u) && SameLive(s, u)
  {
    DroppedCore(bytes, pages, t, a);
  }

  // ----- Creating an allocator -----

  /** The first `n` pages of the pool have become the pages of the new allocator `a`. */
  ghost predicate Creating(bytes: nat, pages: set<nat>, s: State, t: State, a: nat, n: nat) {
    && Inv(bytes, pages, s) && Inv(bytes, pages, t) && SameLive(s, t) && a !in s.allocators
    && n <= |s.avail| && t.avail == s.avail[n..]
    && (if n == 0 then t == s
        else a in t.allocators && t.allocators == s.allocators[a := t.allocators[a]] && |t.allocators[a].slabs| == n)
    && (forall i :: 0 <= i < n ==> OwnedBy(t, a, s.avail[i]))
    && (forall p :: p in pages ==> if OwnedBy(t, a, p) then InPool(s, p) else t.owner[p] == s.owner[p])
  }

  lemma CreatingStart(bytes: nat, pages: set<nat>, s: State, a: nat)
    requires Inv(bytes, pages, s) && a !in s.allocators
    ensures Creating(bytes, pages, s, s, a, 0)
    ensures forall p :: p in pages ==> s.owner[p] != Of(a)
  {
    forall p | p in pages
      ensures s.owner[p] != Of(a)
    {
      assert PageGood(bytes, s, p);
    }
  }

  lemma CreatingStep(bytes: nat, pages: set<nat>, s: State, t: State, u: State, a: nat, n: nat)
    requires Creating(bytes, pages, s, t, a, n) && Core(bytes, pages, u) && Acquired(bytes, t, u, a)
    ensures Creating(bytes, pages, s, u, a, n + 1)
  {
    var p := t.avail[0];
    assert p == s.avail[n] && p in t.avail;
    assert InPool(t, p);
    AcquiredInv(bytes, pages, t, u, a);
    AcquiredLive(bytes, pages, t, u, a);
    LiveThrough(s, t, u);
  }

  /** A creation that ran out of pages: the allocator is unreachable, and so are its pages. */
  ghost function Abandon(s: State, a: nat): State {
    s.(allocators := s.allocators - {a},
       owner := map p | p in s.owner :: if s.owner[p] == Of(a) then Lost else s.owner[p])
  }

  lemma AbandonInv(bytes: nat, pages: set<nat>, s: State, t: State, a: nat, n: nat)
    requires Creating(bytes, pages, s, t, a, n)
    ensures Inv(bytes, pages, Abandon(t, a))
  {
    var u := Abandon(t, a);
    forall p | p in pages
      ensures PageGood(bytes, u, p)
    {
      assert PageGood(bytes, t, p);
    }
    forall q
      ensures q in u.avail <==> InPool(u, q)
    {
      assert q in t.avail <==> InPool(t, q);
    }
    assert forall q :: HasFree(u, q) <==> HasFree(t, q);
    forall b | b in u.allocators
      ensures ListOk(u, b) && Ordered(u, b)
    {
      assert ListOk(t, b) && Ordered(t, b);
      assert forall q :: OwnedBy(u, b, q) <==> OwnedBy(t, b, q);
    }
  }

  lemma AbandonLive(bytes: nat, pages: set<nat>, s: State, t: State, a: nat, n: nat)
    requires Creating(bytes, pages, s, t, a, n)
    ensures var u := Abandon(t, a);
            SameLive(s, u) && u.allocators == s.allocators && forall i :: 0 <= i < n ==> u.owner[s.avail[i]] == Lost
  {
    var u := Abandon(t, a);
    forall q: nat, j: nat
      ensures Live(u, q, j) <==> Live(s, q, j)
    {
      assert Live(t, q, j) <==> Live(s, q, j);
      if q in s.owner {
        assert PageGood(bytes, s, q);
      }
    }
  }
}

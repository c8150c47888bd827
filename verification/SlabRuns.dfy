/**
 * Whole runs of the slab allocator: any number of allocators, created, used and deleted in any
 * order, by clients that return only what they hold and write only into it.
 */
module SlabRuns {
  import opened Results
  import opened Arith
  import opened SlabSpec
  import opened SlabState
  import opened SlabKeeps

  // ----- What each call does -----

  /** The address is a live item of the allocator. */
  ghost predicate IsHeld(s: State, a: nat, item: nat) {
    exists p: nat, k: nat :: LiveItem(s, a, p, k, item)
  }

  /** One item is handed out, exactly if one can be had. */
  ghost predicate Allocates(bytes: nat, pages: set<nat>, s: State, t: State, a: nat, status: Status, item: nat) {
    && Inv(bytes, pages, s) && Inv(bytes, pages, t) && Keeps(s, t) && SameLost(s, t)
    && a in s.allocators && t.allocators.Keys == s.allocators.Keys
    && (status == Ok <==> CanAlloc(bytes, s, a)) && (status == Ok || status == NoMem)
    && (status == Ok ==> exists p: nat, k: nat :: LiveItem(t, a, p, k, item) && NewItem(s, t, p, k))
    && (status != Ok ==> SameLive(s, t))
  }

  ghost predicate NewItem(s: State, t: State, p: nat, k: nat) {
    !Live(s, p, k) && OnlyAdds(s, t, p, k)
  }

  /** One item is taken back. */
  ghost predicate Frees(bytes: nat, pages: set<nat>, s: State, t: State, a: nat, item: nat) {
    && Inv(bytes, pages, s) && Inv(bytes, pages, t) && Keeps(s, t) && SameLost(s, t)
    && t.allocators.Keys == s.allocators.Keys
    && exists p: nat, k: nat :: LiveItem(s, a, p, k, item) && OnlyDrops(s, t, p, k)
  }

  /** An allocator is created; a failing creation may lose pages of the pool. */
  ghost predicate Creates(bytes: nat, pages: set<nat>, s: State, t: State, a: nat, status: Status, lost: set<nat>) {
    && Inv(bytes, pages, s) && Inv(bytes, pages, t) && Keeps(s, t) && SameLive(s, t) && a !in s.allocators
    && t.allocators.Keys == (if status == Ok then s.allocators.Keys + {a} else s.allocators.Keys)
    && (status == Ok ==> lost == {}) && Loses(s, t, lost)
  }

  /** Exactly these pages, all of the pool, get lost. */
  ghost predicate Loses(s: State, t: State, lost: set<nat>) {
    && (forall p :: p in lost ==> p in s.avail)
    && (forall p :: IsLost(t, p) <==> IsLost(s, p) || p in lost)
  }

  /** An allocator is deleted, exactly if none of its items is live. */
  ghost predicate Deletes(bytes: nat, pages: set<nat>, s: State, t: State, a: nat, status: Status) {
    && Inv(bytes, pages, s) && Inv(bytes, pages, t)
    && Keeps(s, t) && SameLive(s, t) && SameLost(s, t) && a in s.allocators
    && (status == Ok || status == Busy)
    && t.allocators.Keys == (if status == Ok then s.allocators.Keys - {a} else s.allocators.Keys)
    && (status == Ok <==> forall item :: !IsHeld(s, a, item))
  }

  /** A client writes one aligned word of a live item. */
  ghost predicate Writes(bytes: nat, pages: set<nat>, s: State, t: State, a: nat, item: nat, c: nat, x: nat) {
    && Inv(bytes, pages, s) && Inv(bytes, pages, t) && IsHeld(s, a, item) && a in s.allocators
    && item <= c < item + s.allocators[a].itemSize && c % 8 == 0 && t == s.(word := s.word[c := x])
  }

  datatype Call =
    | DoAlloc(a: nat, result: Status, item: nat)
    | DoFree(a: nat, item: nat)
    | DoNew(a: nat, result: Status, lost: set<nat>)
    | DoDelete(a: nat, result: Status)
    | DoWrite(a: nat, item: nat, c: nat, x: nat)

  ghost predicate Does(bytes: nat, pages: set<nat>, s: State, t: State, call: Call) {
    match call
    case DoAlloc(a, result, item) => Allocates(bytes, pages, s, t, a, result, item)
    case DoFree(a, item) => Frees(bytes, pages, s, t, a, item)
    case DoNew(a, result, lost) => Creates(bytes, pages, s, t, a, result, lost)
    case DoDelete(a, result) => Deletes(bytes, pages, s, t, a, result)
    case DoWrite(a, item, c, x) => Writes(bytes, pages, s, t, a, item, c, x)
  }

  /** The first page of `a` has a free item, if one can be had. */
  ghost predicate Prepared(bytes: nat, pages: set<nat>, s: State, t: State, a: nat, ready: bool) {
    && Inv(bytes, pages, s) && Inv(bytes, pages, t) && Keeps(s, t) && SameLost(s, t) && SameLive(s, t)
    && a in s.allocators && a in t.allocators && t.allocators == s.allocators[a := t.allocators[a]]
    && t.allocators.Keys == s.allocators.Keys && s.allocators[a].slabs != [] && t.allocators[a].slabs != []
    && (ready <==> HasFree(t, t.allocators[a].slabs[0])) && (ready <==> CanAlloc(bytes, s, a))
    && (HasFree(s, s.allocators[a].slabs[0]) || s.allocators[a].noGrow || s.avail == [] ==> t == s)
    && (!HasFree(s, s.allocators[a].slabs[0]) && (ready || (!s.allocators[a].noGrow && s.avail != [])) ==>
          Acquired(bytes, s, t, a))
  }

  /** The first item of the first page has been taken. */
  ghost predicate TookFirst(bytes: nat, pages: set<nat>, s: State, t: State, a: nat, p: nat, k: nat, item: nat) {
    && Inv(bytes, pages, s) && Inv(bytes, pages, t) && Keeps(s, t) && t.avail == s.avail && t.owner == s.owner
    && LiveItem(t, a, p, k, item) && NewItem(s, t, p, k)
    && a in s.allocators && s.allocators[a].slabs != [] && p == s.allocators[a].slabs[0]
    && t.allocators.Keys == s.allocators.Keys
    && p in s.view && k == Taken(s.view[p]) && p in t.header
    && t.allocators == s.allocators[a := s.allocators[a].(
         slabs := if t.header[p].freeCount == 0 then s.allocators[a].slabs[1..] + [p] else s.allocators[a].slabs)]
  }

  /** The item comes from the allocator's first page, or, when that is full, from a page of the pool. */
  ghost predicate From(s: State, t: State, a: nat, p: nat, k: nat) {
    && a in s.allocators && a in t.allocators && t.allocators == s.allocators[a := t.allocators[a]]
    && s.allocators[a].slabs != []
    && if HasFree(s, s.allocators[a].slabs[0])
       then t.avail == s.avail && t.owner == s.owner
            && p == s.allocators[a].slabs[0] && p in s.view && k == Taken(s.view[p])
       else s.avail != [] && t.avail == s.avail[1..] && p == s.avail[0] && k == 0
  }

  lemma FromFirst(bytes: nat, s: State, t: State, u: State, a: nat, p: nat, k: nat)
    requires a in s.allocators && s.allocators[a].slabs != []
    requires if HasFree(s, s.allocators[a].slabs[0]) then t == s else Acquired(bytes, s, t, a)
    requires a in t.allocators && t.allocators[a].slabs != [] && p == t.allocators[a].slabs[0]
    requires p in t.view && k == Taken(t.view[p]) && u.avail == t.avail && u.owner == t.owner
    requires a in u.allocators && u.allocators == s.allocators[a := u.allocators[a]]
    ensures From(s, u, a, p, k)
  {
  }

  lemma NewSince(s: State, t: State, u: State, p: nat, k: nat)
    requires SameLive(s, t) && NewItem(t, u, p, k)
    ensures NewItem(s, u, p, k)
  {
    forall q: nat, j: nat
      ensures Live(u, q, j) <==> Live(s, q, j) || (q == p && j == k)
    {
      assert Live(t, q, j) <==> Live(s, q, j);
    }
  }

  lemma LostSince(s: State, t: State, u: State)
    requires SameLost(s, t) && u.owner == t.owner
    ensures SameLost(s, u)
  {
    forall q
      ensures IsLost(u, q) <==> IsLost(s, q)
    {
      assert IsLost(t, q) <==> IsLost(s, q);
    }
  }

  lemma KeepsSince(bytes: nat, pages: set<nat>, s: State, t: State, u: State)
    requires Inv(bytes, pages, s) && Inv(bytes, pages, t) && Keeps(s, t) && Keeps(t, u) && SameLive(s, t)
    requires s.allocators.Keys == t.allocators.Keys
    ensures Keeps(s, u)
  {
    KeepsTrans(bytes, pages, s, t, u);
  }

  /** Getting ready and then taking an item of the first page is an allocation. */
  lemma AllocatesBy(bytes: nat, pages: set<nat>, s: State, t: State, u: State, a: nat, p: nat, k: nat, item: nat)
    requires Prepared(bytes, pages, s, t, a, true) && TookFirst(bytes, pages, t, u, a, p, k, item)
    ensures Allocates(bytes, pages, s, u, a, Ok, item) && NewItem(s, u, p, k) && From(s, u, a, p, k)
  {
    KeepsSince(bytes, pages, s, t, u);
    LostSince(s, t, u);
    NewSince(s, t, u, p, k);
    FromFirst(bytes, s, t, u, a, p, k);
  }

  /** Linking an item back and then putting the lists in order takes it back. */
  lemma FreesBy(bytes: nat, pages: set<nat>, s: State, t: State, u: State, a: nat, p: nat, k: nat, item: nat)
    requires Inv(bytes, pages, s) && Inv(bytes, pages, u) && LiveItem(s, a, p, k, item)
    requires Keeps(s, t) && t.owner == s.owner && OnlyDrops(s, t, p, k) && SameLive(t, u)
    requires u.word == t.word && (u.owner == t.owner || u.owner == t.owner[p := Pool])
    requires KeepsKinds(s, u) && u.allocators.Keys == s.allocators.Keys
    ensures Frees(bytes, pages, s, u, a, item) && OnlyDrops(s, u, p, k)
  {
    forall q: nat, j: nat | Live(u, q, j)
      ensures Live(t, q, j) && q in t.owner && u.owner[q] == t.owner[q]
    {
    }
    KeepsAgain(s, t, u);
    assert OnlyDrops(s, u, p, k);
  }

  // Creation

  lemma CreatingKeeps(bytes: nat, pages: set<nat>, s: State, t: State, u: State, a: nat, n: nat)
    requires Creating(bytes, pages, s, t, a, n) && Acquired(bytes, t, u, a) && Keeps(s, t) && SameLost(s, t)
    ensures Keeps(s, u) && SameLost(s, u)
  {
    AcquiredKeeps(bytes, pages, t, u, a);
    KeepsTrans(bytes, pages, s, t, u);
    forall q
      ensures IsLost(u, q) <==> IsLost(s, q)
    {
      assert IsLost(t, q) <==> IsLost(s, q);
      assert IsLost(u, q) <==> IsLost(t, q);
    }
  }

  /** The number of free items on the pages of a list. */
  ghost function FreeIn(s: State, slabs: seq<nat>): nat {
    if slabs == [] then 0
    else (if slabs[0] in s.header then s.header[slabs[0]].freeCount else 0) + FreeIn(s, slabs[1..])
  }

  lemma {:induction false} FreeInSame(s: State, t: State, slabs: seq<nat>)
    requires forall p :: p in slabs ==> p in s.header && p in t.header && t.header[p] == s.header[p]
    ensures FreeIn(t, slabs) == FreeIn(s, slabs)
  {
    if slabs != [] {
      FreeInSame(s, t, slabs[1..]);
    }
  }

  /** A fresh page adds its capacity. */
  lemma CreatingFree(bytes: nat, pages: set<nat>, s: State, t: State, a: nat, slabs: seq<nat>)
    requires Inv(bytes, pages, s) && Acquired(bytes, s, t, a)
    requires slabs == if a in s.allocators then s.allocators[a].slabs else []
    ensures FreeIn(t, t.allocators[a].slabs) == FreeIn(s, slabs) + Capacity(bytes, t.allocators[a].itemSize)
  {
    var q := s.avail[0];
    assert q in s.avail;
    assert InPool(s, q);
    forall p | p in slabs
      ensures p in s.header && p in t.header && t.header[p] == s.header[p]
    {
      assert ListOk(s, a);
      assert OwnedBy(s, a, p);
      assert PageGood(bytes, s, p);
    }
    FreeInSame(s, t, slabs);
    assert ([q] + slabs)[1..] == slabs;
  }

  /** A creation that ran out of pages loses exactly the pool. */
  lemma AbandonLoses(bytes: nat, pages: set<nat>, s: State, t: State, a: nat, n: nat)
    requires Creating(bytes, pages, s, t, a, n) && Keeps(s, t) && n == |s.avail|
    ensures var u := Abandon(t, a); Keeps(s, u) && Loses(s, u, set p | p in s.avail)
  {
    var u := Abandon(t, a);
    KeepsAgain(s, t, u);
    forall p
      ensures IsLost(u, p) <==> IsLost(s, p) || p in s.avail
    {
      if p in pages {
        assert p in s.avail <==> InPool(s, p);
      }
    }
  }

  /** When the pages given back on deletion show that nothing is held, or that something is. */
  lemma DeletesExact(bytes: nat, pages: set<nat>, s: State, a: nat, n: nat)
    requires Inv(bytes, pages, s) && a in s.allocators && n <= |s.allocators[a].slabs|
    requires forall i: nat, k: nat :: i < n ==> !Live(s, s.allocators[a].slabs[i], k)
    requires n < |s.allocators[a].slabs| ==> exists k: nat :: Live(s, s.allocators[a].slabs[n], k)
    ensures n == |s.allocators[a].slabs| <==> forall item :: !IsHeld(s, a, item)
  {
    var l := s.allocators[a].slabs;
    assert ListOk(s, a);
    if n == |l| {
      forall item
        ensures !IsHeld(s, a, item)
      {
      }
    } else {
      var k: nat :| Live(s, l[n], k);
      assert l[n] in l;
      assert LiveItem(s, a, l[n], k, Address(s, l[n], k));
      assert IsHeld(s, a, Address(s, l[n], k));
    }
  }

  lemma DeletesBusy(bytes: nat, pages: set<nat>, s: State, t: State, a: nat, n: nat)
    requires Releasing(bytes, pages, s, t, a, n) && FrontInUse(t, a) && t.word == s.word
    ensures Deletes(bytes, pages, s, t, a, Busy) && n < |s.allocators[a].slabs|
    ensures exists k: nat :: Live(s, s.allocators[a].slabs[n], k)
  {
    ReleasingBusy(bytes, pages, s, t, a, n);
    ReleasingKeeps(bytes, pages, s, t, a, n);
    DeletesExact(bytes, pages, s, a, n);
  }

  lemma DeletesDone(bytes: nat, pages: set<nat>, s: State, t: State, u: State, a: nat, n: nat)
    requires Releasing(bytes, pages, s, t, a, n) && t.allocators[a].slabs == [] && t.word == s.word
    requires u == t.(allocators := t.allocators - {a})
    ensures Deletes(bytes, pages, s, u, a, Ok) && n == |s.allocators[a].slabs|
  {
    ReleasingDone(bytes, pages, s, t, a, n);
    ReleasingKeeps(bytes, pages, s, t, a, n);
    DeletesExact(bytes, pages, s, a, n);
    KeepsAgain(s, t, u);
    forall p
      ensures IsLost(u, p) <==> IsLost(s, p)
    {
      assert IsLost(t, p) <==> IsLost(s, p);
    }
  }

  // ----- What clients know -----

  /** The addresses that clients hold, with their allocators, and what they have written into them. */
  datatype Clients = Clients(held: map<nat, nat>, data: map<nat, nat>)

  function Update(s: State, clients: Clients, call: Call): Clients {
    match call
    case DoAlloc(a, result, item) => if result == Ok then clients.(held := clients.held[item := a]) else clients
    case DoFree(a, item) =>
      var size := if a in s.allocators then s.allocators[a].itemSize else 0;
      Clients(clients.held - {item}, map c | c in clients.data && !(item <= c < item + size) :: clients.data[c])
    case DoWrite(_, _, c, x) => clients.(data := clients.data[c := x])
    case DoNew(_, _, _) => clients
    case DoDelete(_, _) => clients
  }

  /** What clients hold is exactly what is live. */
  ghost predicate HoldsAll(s: State, held: map<nat, nat>) {
    && (forall item :: item in held ==> IsHeld(s, held[item], item))
    && (forall a, item :: IsHeld(s, a, item) ==> item in held && held[item] == a)
  }

  /** Word `c` lies in an item that is held. */
  ghost predicate Covered(s: State, held: map<nat, nat>, c: nat, item: nat) {
    item in held && held[item] in s.allocators && item <= c < item + s.allocators[held[item]].itemSize
  }

  /** Every word that clients have written into what they hold is still there. */
  ghost predicate Remembers(s: State, clients: Clients) {
    forall c :: c in clients.data ==> Known(s, clients.held, c, clients.data[c])
  }

  /** Word `c`, in some item that is held, has the value `x`. */
  ghost predicate Known(s: State, held: map<nat, nat>, c: nat, x: nat) {
    Load(s.word, c) == x && exists item :: Covered(s, held, c, item)
  }

  ghost predicate Good(bytes: nat, pages: set<nat>, s: State, clients: Clients) {
    Inv(bytes, pages, s) && HoldsAll(s, clients.held) && Remembers(s, clients)
  }

  // ----- Addresses -----

  lemma HeldBy(bytes: nat, pages: set<nat>, s: State, a: nat, item: nat) returns (p: nat, k: nat)
    requires Inv(bytes, pages, s) && IsHeld(s, a, item)
    ensures LiveItem(s, a, p, k, item) && a in s.allocators && s.allocators[a].itemSize > 0
  {
    p, k :| LiveItem(s, a, p, k, item);
    assert ListOk(s, a);
  }

  /** Two live items at overlapping addresses are the same. */
  lemma SameAddress(
    bytes: nat, pages: set<nat>, s: State,
    a: nat, p: nat, k: nat, item: nat, b: nat, q: nat, j: nat, other: nat)
    requires Inv(bytes, pages, s) && LiveItem(s, a, p, k, item) && LiveItem(s, b, q, j, other)
    requires item < other + s.allocators[b].itemSize && other < item + s.allocators[a].itemSize
    ensures p == q && k == j && a == b && item == other
  {
    if (p, k) != (q, j) {
      LiveDisjoint(bytes, pages, s, a, p, k, item, b, q, j, other);
    }
  }

  /** An item that stays live stays where it is. */
  lemma StaysPut(bytes: nat, pages: set<nat>, s: State, t: State, a: nat, p: nat, k: nat, item: nat)
    requires Inv(bytes, pages, s) && Inv(bytes, pages, t) && Keeps(s, t) && Live(s, p, k) && Live(t, p, k)
    ensures LiveItem(t, a, p, k, item) <==> LiveItem(s, a, p, k, item)
  {
    assert KeepsItem(s, t, p, k);
    LiveOwner(bytes, pages, s, p, k);
    LiveOwner(bytes, pages, t, p, k);
  }

  // ----- Each call keeps what clients know -----

  lemma SameHeld(bytes: nat, pages: set<nat>, s: State, t: State)
    requires Inv(bytes, pages, s) && Inv(bytes, pages, t) && Keeps(s, t) && SameLive(s, t)
    ensures forall a, item :: IsHeld(t, a, item) <==> IsHeld(s, a, item)
  {
    forall a, item
      ensures IsHeld(t, a, item) <==> IsHeld(s, a, item)
    {
      if IsHeld(s, a, item) {
        var p: nat, k: nat :| LiveItem(s, a, p, k, item);
        assert Live(t, p, k);
        StaysPut(bytes, pages, s, t, a, p, k, item);
      }
      if IsHeld(t, a, item) {
        var p: nat, k: nat :| LiveItem(t, a, p, k, item);
        assert Live(s, p, k);
        StaysPut(bytes, pages, s, t, a, p, k, item);
      }
    }
  }

  ghost predicate HeldAdds(s: State, t: State, a: nat, item: nat) {
    forall b, other :: IsHeld(t, b, other) <==> IsHeld(s, b, other) || (b == a && other == item)
  }

  ghost predicate HeldDrops(s: State, t: State, item: nat) {
    forall b, other :: IsHeld(t, b, other) <==> IsHeld(s, b, other) && other != item
  }

  lemma AllocHeld(bytes: nat, pages: set<nat>, s: State, t: State, a: nat, p: nat, k: nat, item: nat)
    requires Inv(bytes, pages, s) && Inv(bytes, pages, t) && Keeps(s, t)
    requires LiveItem(t, a, p, k, item) && NewItem(s, t, p, k)
    ensures HeldAdds(s, t, a, item)
  {
    forall b, other
      ensures IsHeld(t, b, other) <==> IsHeld(s, b, other) || (b == a && other == item)
    {
      if IsHeld(s, b, other) {
        var q: nat, j: nat :| LiveItem(s, b, q, j, other);
        assert Live(t, q, j);
        StaysPut(bytes, pages, s, t, b, q, j, other);
      }
      if IsHeld(t, b, other) {
        var q: nat, j: nat :| LiveItem(t, b, q, j, other);
        if Live(s, q, j) {
          StaysPut(bytes, pages, s, t, b, q, j, other);
        } else {
          assert q == p && j == k;
        }
      }
    }
  }

  /** A new item's address was not held. */
  lemma AllocFresh(bytes: nat, pages: set<nat>, s: State, t: State, a: nat, p: nat, k: nat, item: nat, b: nat)
    requires Inv(bytes, pages, s) && Inv(bytes, pages, t) && Keeps(s, t)
    requires LiveItem(t, a, p, k, item) && NewItem(s, t, p, k)
    ensures !IsHeld(s, b, item)
  {
    if IsHeld(s, b, item) {
      var q, j := HeldBy(bytes, pages, s, b, item);
      assert Live(t, q, j);
      StaysPut(bytes, pages, s, t, b, q, j, item);
      assert ListOk(t, a) && ListOk(t, b);
      SameAddress(bytes, pages, t, a, p, k, item, b, q, j, item);
    }
  }

  lemma FreeHeld(bytes: nat, pages: set<nat>, s: State, t: State, a: nat, p: nat, k: nat, item: nat)
    requires Inv(bytes, pages, s) && Inv(bytes, pages, t) && Keeps(s, t)
    requires LiveItem(s, a, p, k, item) && OnlyDrops(s, t, p, k)
    ensures HeldDrops(s, t, item)
  {
    forall b, other
      ensures IsHeld(t, b, other) <==> IsHeld(s, b, other) && other != item
    {
      if IsHeld(s, b, other) && other != item {
        var q: nat, j: nat :| LiveItem(s, b, q, j, other);
        assert (q, j) != (p, k);
        assert Live(t, q, j);
        StaysPut(bytes, pages, s, t, b, q, j, other);
      }
      if IsHeld(t, b, other) {
        var q: nat, j: nat :| LiveItem(t, b, q, j, other);
        assert Live(s, q, j) && !(q == p && j == k);
        StaysPut(bytes, pages, s, t, b, q, j, other);
        if other == item {
          assert ListOk(s, a) && ListOk(s, b);
          SameAddress(bytes, pages, s, a, p, k, item, b, q, j, other);
        }
      }
    }
  }

  /** The words of an item that stays held are as they were. */
  lemma DataKept(bytes: nat, pages: set<nat>, s: State, t: State, a: nat, item: nat, c: nat)
    requires Inv(bytes, pages, s) && Inv(bytes, pages, t) && Keeps(s, t) && IsHeld(s, a, item) && IsHeld(t, a, item)
    requires a in s.allocators && item <= c < item + s.allocators[a].itemSize
    requires forall p: nat, k: nat :: LiveItem(s, a, p, k, item) ==> Live(t, p, k)
    ensures Load(t.word, c) == Load(s.word, c)
            && a in t.allocators && t.allocators[a].itemSize == s.allocators[a].itemSize
  {
    var p, k := HeldBy(bytes, pages, s, a, item);
    assert KeepsItem(s, t, p, k);
    LiveOwner(bytes, pages, t, p, k);
  }

  /** The item, wherever it is live, stays live. */
  ghost predicate StaysLive(s: State, t: State, a: nat, item: nat) {
    forall p: nat, k: nat :: LiveItem(s, a, p, k, item) ==> Live(t, p, k)
  }

  /** Whatever item the word lies in stays held and live. */
  ghost predicate CoverKept(s: State, t: State, held: map<nat, nat>, held': map<nat, nat>, c: nat) {
    forall item :: Covered(s, held, c, item) ==>
      item in held' && held'[item] == held[item] && StaysLive(s, t, held[item], item)
  }

  /** A word in an item that stays held keeps its value. */
  lemma WordKept(
    bytes: nat, pages: set<nat>, s: State, t: State,
    held: map<nat, nat>, held': map<nat, nat>, c: nat, x: nat)
    requires Inv(bytes, pages, s) && Inv(bytes, pages, t) && Keeps(s, t) && HoldsAll(s, held) && HoldsAll(t, held')
    requires Known(s, held, c, x) && CoverKept(s, t, held, held', c)
    ensures Known(t, held', c, x)
  {
    var item :| Covered(s, held, c, item);
    DataKept(bytes, pages, s, t, held[item], item, c);
    assert Covered(t, held', c, item);
  }

  lemma WordsKept(bytes: nat, pages: set<nat>, s: State, t: State, clients: Clients, after: Clients)
    requires Good(bytes, pages, s, clients) && Inv(bytes, pages, t) && Keeps(s, t) && HoldsAll(t, after.held)
    requires forall c :: c in after.data ==>
               c in clients.data && after.data[c] == clients.data[c] && CoverKept(s, t, clients.held, after.held, c)
    ensures Good(bytes, pages, t, after)
  {
    forall c | c in after.data
      ensures Known(t, after.held, c, after.data[c])
    {
      WordKept(bytes, pages, s, t, clients.held, after.held, c, clients.data[c]);
    }
  }

  lemma RemembersSame(bytes: nat, pages: set<nat>, s: State, t: State, clients: Clients)
    requires Good(bytes, pages, s, clients) && Inv(bytes, pages, t) && Keeps(s, t) && SameLive(s, t)
    ensures Good(bytes, pages, t, clients)
  {
    SameHeld(bytes, pages, s, t);
    WordsKept(bytes, pages, s, t, clients, clients);
  }

  // Handing out an item

  lemma HoldsMore(s: State, t: State, held: map<nat, nat>, a: nat, item: nat)
    requires HoldsAll(s, held) && item !in held && HeldAdds(s, t, a, item)
    ensures HoldsAll(t, held[item := a])
  {
  }

  lemma CoverMore(s: State, t: State, held: map<nat, nat>, a: nat, item: nat, p: nat, k: nat, c: nat)
    requires item !in held && OnlyAdds(s, t, p, k)
    ensures CoverKept(s, t, held, held[item := a], c)
  {
  }

  lemma NotYetHeld(
    bytes: nat, pages: set<nat>, s: State, t: State,
    held: map<nat, nat>, a: nat, p: nat, k: nat, item: nat)
    requires Inv(bytes, pages, s) && Inv(bytes, pages, t) && Keeps(s, t) && HoldsAll(s, held)
    requires LiveItem(t, a, p, k, item) && NewItem(s, t, p, k)
    ensures item !in held
  {
    if item in held {
      AllocFresh(bytes, pages, s, t, a, p, k, item, held[item]);
    }
  }

  lemma RemembersAlloc(
    bytes: nat, pages: set<nat>, s: State, t: State,
    clients: Clients, a: nat, p: nat, k: nat, item: nat)
    requires Good(bytes, pages, s, clients) && Inv(bytes, pages, t) && Keeps(s, t)
    requires LiveItem(t, a, p, k, item) && NewItem(s, t, p, k)
    ensures Good(bytes, pages, t, clients.(held := clients.held[item := a]))
  {
    NotYetHeld(bytes, pages, s, t, clients.held, a, p, k, item);
    AllocHeld(bytes, pages, s, t, a, p, k, item);
    HoldsMore(s, t, clients.held, a, item);
    forall c | c in clients.data
      ensures CoverKept(s, t, clients.held, clients.held[item := a], c)
    {
      CoverMore(s, t, clients.held, a, item, p, k, c);
    }
    WordsKept(bytes, pages, s, t, clients, clients.(held := clients.held[item := a]));
  }

  // Taking an item back

  lemma HoldsLess(s: State, t: State, held: map<nat, nat>, item: nat)
    requires HoldsAll(s, held) && HeldDrops(s, t, item)
    ensures HoldsAll(t, held - {item})
  {
  }

  lemma CoverLess(s: State, t: State, held: map<nat, nat>, a: nat, item: nat, p: nat, k: nat, c: nat)
    requires OnlyDrops(s, t, p, k) && LiveItem(s, a, p, k, item) && item in held && held[item] == a
    requires !(item <= c < item + s.allocators[a].itemSize)
    ensures CoverKept(s, t, held, held - {item}, c)
  {
  }

  lemma RemembersFree(
    bytes: nat, pages: set<nat>, s: State, t: State,
    clients: Clients, a: nat, p: nat, k: nat, item: nat)
    requires Good(bytes, pages, s, clients) && Inv(bytes, pages, t) && Keeps(s, t)
    requires LiveItem(s, a, p, k, item) && OnlyDrops(s, t, p, k)
    ensures Good(bytes, pages, t, Update(s, clients, DoFree(a, item)))
  {
    var after := Update(s, clients, DoFree(a, item));
    assert IsHeld(s, a, item);
    FreeHeld(bytes, pages, s, t, a, p, k, item);
    HoldsLess(s, t, clients.held, item);
    forall c | c in after.data
      ensures CoverKept(s, t, clients.held, after.held, c)
    {
      CoverLess(s, t, clients.held, a, item, p, k, c);
    }
    WordsKept(bytes, pages, s, t, clients, after);
  }

  // Writing

  lemma HoldsSame(s: State, t: State, held: map<nat, nat>)
    requires HoldsAll(s, held) && t == s.(word := t.word)
    ensures HoldsAll(t, held)
  {
    forall a, item
      ensures IsHeld(t, a, item) <==> IsHeld(s, a, item)
    {
      assert forall p: nat, k: nat :: LiveItem(t, a, p, k, item) <==> LiveItem(s, a, p, k, item);
    }
  }

  lemma KnownWrite(s: State, t: State, held: map<nat, nat>, item: nat, c: nat, x: nat, d: nat, y: nat)
    requires t == s.(word := s.word[c := x]) && Covered(s, held, c, item)
    requires if d == c then y == x else Known(s, held, d, y)
    ensures Known(t, held, d, y)
  {
    if d == c {
      assert Covered(t, held, c, item);
    } else {
      var other :| Covered(s, held, d, other);
      assert Covered(t, held, d, other);
    }
  }

  lemma RemembersWrite(
    bytes: nat, pages: set<nat>, s: State, t: State,
    clients: Clients, a: nat, item: nat, c: nat, x: nat)
    requires Good(bytes, pages, s, clients) && Writes(bytes, pages, s, t, a, item, c, x)
    ensures Good(bytes, pages, t, clients.(data := clients.data[c := x]))
  {
    HoldsSame(s, t, clients.held);
    assert Covered(s, clients.held, c, item);
    var data := clients.data[c := x];
    forall d | d in data
      ensures Known(t, clients.held, d, data[d])
    {
      KnownWrite(s, t, clients.held, item, c, x, d, data[d]);
    }
  }

  /** Every call keeps what clients hold live and in place, and what they have written. */
  lemma StepGood(bytes: nat, pages: set<nat>, s: State, t: State, clients: Clients, call: Call)
    requires Good(bytes, pages, s, clients) && Does(bytes, pages, s, t, call)
    ensures Good(bytes, pages, t, Update(s, clients, call))
  {
    match call
    case DoAlloc(a, result, item) =>
      if result == Ok {
        var p: nat, k: nat :| LiveItem(t, a, p, k, item) && NewItem(s, t, p, k);
        RemembersAlloc(bytes, pages, s, t, clients, a, p, k, item);
      } else {
        RemembersSame(bytes, pages, s, t, clients);
      }
    case DoFree(a, item) =>
      var p: nat, k: nat :| LiveItem(s, a, p, k, item) && OnlyDrops(s, t, p, k);
      RemembersFree(bytes, pages, s, t, clients, a, p, k, item);
    case DoNew(_, _, _) => RemembersSame(bytes, pages, s, t, clients);
    case DoDelete(_, _) => RemembersSame(bytes, pages, s, t, clients);
    case DoWrite(a, item, c, x) => RemembersWrite(bytes, pages, s, t, clients, a, item, c, x);
  }

  // ----- Runs -----

  ghost predicate StepAt(bytes: nat, pages: set<nat>, states: seq<State>, calls: seq<Call>, i: nat) {
    i < |calls| && i + 1 < |states| && Does(bytes, pages, states[i], states[i + 1], calls[i])
  }

  /** The calls lead from state to state, starting without allocators. */
  ghost predicate Run(bytes: nat, pages: set<nat>, states: seq<State>, calls: seq<Call>) {
    && |states| == |calls| + 1 && Inv(bytes, pages, states[0]) && states[0].allocators == map[]
    && forall i: nat :: i < |calls| ==> StepAt(bytes, pages, states, calls, i)
  }

  /** What clients know after the first `n` calls. */
  ghost function After(states: seq<State>, calls: seq<Call>, n: nat): Clients
    requires n <= |calls| < |states|
  {
    if n == 0 then Clients(map[], map[]) else Update(states[n - 1], After(states, calls, n - 1), calls[n - 1])
  }

  /**
   * In every run the addresses handed out and not returned are exactly the live items, each still
   * at its address, and every word clients have written into them is still there.
   */
  lemma {:induction false} EveryRun(bytes: nat, pages: set<nat>, states: seq<State>, calls: seq<Call>, n: nat)
    requires Run(bytes, pages, states, calls) && n <= |calls|
    ensures Good(bytes, pages, states[n], After(states, calls, n))
  {
    if n == 0 {
      forall a, item
        ensures !IsHeld(states[0], a, item)
      {
      }
    } else {
      EveryRun(bytes, pages, states, calls, n - 1);
      assert StepAt(bytes, pages, states, calls, n - 1);
      StepGood(bytes, pages, states[n - 1], states[n], After(states, calls, n - 1), calls[n - 1]);
    }
  }

  /** In every run what clients hold lies inside a page, behind its header, and does not overlap. */
  lemma EveryRunDisjoint(
    bytes: nat, pages: set<nat>, states: seq<State>, calls: seq<Call>,
    n: nat, item: nat, other: nat)
    requires Run(bytes, pages, states, calls) && n <= |calls|
    requires item in After(states, calls, n).held && other in After(states, calls, n).held && item != other
    ensures var (s, held) := (states[n], After(states, calls, n).held);
            && held[item] in s.allocators && held[other] in s.allocators
            && (exists p :: p in pages && p + HEADER <= item && item + s.allocators[held[item]].itemSize <= p + bytes)
            && (item + s.allocators[held[item]].itemSize <= other || other + s.allocators[held[other]].itemSize <= item)
  {
    EveryRun(bytes, pages, states, calls, n);
    var (s, held) := (states[n], After(states, calls, n).held);
    var p, k := HeldBy(bytes, pages, s, held[item], item);
    var q, j := HeldBy(bytes, pages, s, held[other], other);
    LiveInside(bytes, pages, s, held[item], p, k, item);
    LiveDisjoint(bytes, pages, s, held[item], p, k, item, held[other], q, j, other);
    LiveOwner(bytes, pages, s, p, k);
  }

  // ----- Pages -----

  ghost predicate InList(s: State, a: nat, p: nat) {
    a in s.allocators && p in s.allocators[a].slabs
  }

  /** The page is in the pool, without live items, or in exactly one allocator's list. */
  ghost predicate InOnePlace(s: State, p: nat) {
    if p in s.avail then (forall a :: !InList(s, a, p)) && (forall k: nat :: !Live(s, p, k))
    else exists a :: InList(s, a, p) && forall b :: InList(s, b, p) ==> b == a
  }

  lemma NotLost(bytes: nat, pages: set<nat>, s: State, p: nat)
    requires Inv(bytes, pages, s) && p in pages
    ensures p in s.owner && (s.owner[p] != Lost <==> InOnePlace(s, p))
  {
    assert PageGood(bytes, s, p);
    assert p in s.avail <==> InPool(s, p);
    forall a
      ensures InList(s, a, p) <==> OwnedBy(s, a, p)
    {
      ListedOwned(bytes, pages, s, a, p);
    }
    PlaceOf(s, p);
  }

  lemma ListedOwned(bytes: nat, pages: set<nat>, s: State, a: nat, p: nat)
    requires Inv(bytes, pages, s) && p in pages
    ensures InList(s, a, p) <==> OwnedBy(s, a, p)
  {
    assert PageGood(bytes, s, p);
    if a in s.allocators {
      assert ListOk(s, a);
    }
  }

  lemma PlaceOf(s: State, p: nat)
    requires p in s.owner && (p in s.avail <==> InPool(s, p)) && forall a :: InList(s, a, p) <==> OwnedBy(s, a, p)
    ensures s.owner[p] != Lost <==> InOnePlace(s, p)
  {
    if s.owner[p].Of? {
      assert InList(s, s.owner[p].id, p);
    }
  }

  lemma LostStep(bytes: nat, pages: set<nat>, s: State, t: State, call: Call, p: nat)
    requires Does(bytes, pages, s, t, call) && p in pages
    ensures p in s.owner && p in t.owner
    ensures t.owner[p] == Lost <==> s.owner[p] == Lost || (call.DoNew? && p in call.lost)
  {
    match call
    case DoNew(_, _, lost) => assert IsLost(t, p) <==> IsLost(s, p) || p in lost;
    case DoWrite(_, _, _, _) => assert t.owner == s.owner;
    case DoAlloc(_, _, _) => assert IsLost(t, p) <==> IsLost(s, p);
    case DoFree(_, _) => assert IsLost(t, p) <==> IsLost(s, p);
    case DoDelete(_, _) => assert IsLost(t, p) <==> IsLost(s, p);
  }

  /** One of the first `n` calls is a creation that lost the page. */
  ghost predicate LostBy(calls: seq<Call>, n: nat, p: nat)
    requires n <= |calls|
  {
    n > 0 && (LostBy(calls, n - 1, p) || (calls[n - 1].DoNew? && p in calls[n - 1].lost))
  }

  lemma {:induction false} LostIn(bytes: nat, pages: set<nat>, states: seq<State>, calls: seq<Call>, n: nat, p: nat)
    requires Run(bytes, pages, states, calls) && n <= |calls| && p in pages
    ensures p in states[0].owner && p in states[n].owner
    ensures states[n].owner[p] == Lost <==> states[0].owner[p] == Lost || LostBy(calls, n, p)
  {
    if n > 0 {
      LostIn(bytes, pages, states, calls, n - 1, p);
      assert StepAt(bytes, pages, states, calls, n - 1);
      LostStep(bytes, pages, states[n - 1], states[n], calls[n - 1], p);
    }
  }

  /**
   * In every run each page is in the pool, without live items, or in exactly one allocator's
   * list, unless a creation has lost it.
   */
  lemma EveryRunConserves(bytes: nat, pages: set<nat>, states: seq<State>, calls: seq<Call>, n: nat, p: nat)
    requires Run(bytes, pages, states, calls) && n <= |calls| && p in pages && InOnePlace(states[0], p)
    ensures InOnePlace(states[n], p) <==> !LostBy(calls, n, p)
  {
    EveryRun(bytes, pages, states, calls, n);
    LostIn(bytes, pages, states, calls, n, p);
    NotLost(bytes, pages, states[0], p);
    NotLost(bytes, pages, states[n], p);
  }
}

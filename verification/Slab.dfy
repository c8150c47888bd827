/**
 * The slab allocator: one class of pages, with its pool and all allocators that draw on it.
 * Structures in pages are found through their addresses, as the original does by casting.
 */
module Slab {
  import opened Results
  import opened Arith
  import opened SlabSpec
  import opened SlabState
  import opened SlabKeeps
  import opened SlabRuns

  /** The next multiple of 16. */
  function Round16(x: nat): (r: nat)
    ensures x <= r < x + 16 && r % 16 == 0
  {
    (x + 15) / 16 * 16
  }

  /** How many items a page would hold if it had no header. */
  function PerPage(bytes: nat, itemSize: nat): nat {
    if itemSize == 0 then 0 else Fit(bytes, Round16(itemSize))
  }

  /** How many pages a new allocator takes. */
  function PagesFor(bytes: nat, itemSize: nat, itemCount: nat): nat {
    var n := PerPage(bytes, itemSize);
    if n == 0 then 0 else Fit(itemCount + n - 1, n)
  }

  /** The addresses of `count` pages in a row. */
  function Strip(base: nat, bytes: nat, count: nat): seq<nat>
    decreases count
  {
    if count == 0 then [] else [base] + Strip(base + bytes, bytes, count - 1)
  }

  lemma {:induction false} PowMultiple(k: nat) returns (q: nat)
    requires k >= 4
    ensures Pow2(k) == 16 * q
  {
    if k > 4 {
      q := PowMultiple(k - 1);
      q := 2 * q;
    } else {
      assert Pow2(1) == 2 && Pow2(2) == 4 && Pow2(3) == 8 && Pow2(4) == 16;
      q := 1;
    }
  }

  lemma PageMultiple(log: nat)
    requires Pow2(log) > HEADER
    ensures Pow2(log) % 16 == 0
  {
    assert Pow2(1) == 2 && Pow2(2) == 4 && Pow2(3) == 8;
    if log < 4 {
      PowLe(log, 3);
    } else {
      var q := PowMultiple(log);
    }
  }

  lemma {:induction false} StripPages(base: nat, bytes: nat, count: nat)
    requires PageOk(bytes, base) && bytes % 16 == 0
    ensures |Strip(base, bytes, count)| == count && NoDup(Strip(base, bytes, count))
    ensures forall p :: p in Strip(base, bytes, count) ==>
              PageOk(bytes, p) && base <= p && p + bytes <= base + count * bytes
    decreases count
  {
    if count > 0 {
      var rest := Strip(base + bytes, bytes, count - 1);
      assert count * bytes == (count - 1) * bytes + bytes;
      StripPages(base + bytes, bytes, count - 1);
      assert forall p :: p in rest ==> base < p;
      assert Strip(base, bytes, count) == [base] + rest;
    }
  }

  class SlabClass {
    /** Pages have 2^log bytes, addresses `bits` bits. */
    const log: nat
    const bits: nat
    ghost const pages: set<nat>
    var avail: seq<nat>
    var header: map<nat, Header>
    var word: Words
    var allocators: map<nat, Allocator>
    ghost var view: map<nat, View>
    ghost var owner: map<nat, Owner>

    /** A class of `count` pages, one after the other from `base` on. */
    constructor (log: nat, bits: nat, base: nat, count: nat, memory: Words)
      requires log <= bits && PageOk(Pow2(log), base) && base + count * Pow2(log) <= Pow2(bits)
      ensures Valid() && this.log == log && this.bits == bits
      ensures allocators == map[] && |avail| == count && pages == set p | p in avail
    {
      this.log, this.bits := log, bits;
      var made: seq<nat> := Strip(base, Pow2(log), count);
      avail, header, word, allocators := made, map[], memory, map[];
      view, owner := map[], map p | p in made :: Pool;
      pages := set p | p in made;
      new;
      PageMultiple(log);
      StripPages(base, Pow2(log), count);
      assert base + count * Pow2(log) <= Pow2(bits);
    }

    ghost function Now(): State
      reads this
    {
      State(avail, header, word, allocators, view, owner)
    }

    ghost predicate Valid()
      reads this
    {
      && log <= bits && Pow2(log) > HEADER && (forall p :: p in pages ==> p + Pow2(log) <= Pow2(bits))
      && Inv(Pow2(log), pages, Now())
    }

    // ----- Pages -----

    /** Makes the first page of the pool a fresh page at the front of the allocator's list. */
    method AddSlab(a: nat, x: Allocator)
      requires Core(Pow2(log), pages, Now()) && avail != [] && x.itemSize > 0 && x.itemSize % 16 == 0
      requires a in allocators ==> allocators[a] == x
      requires a !in allocators ==> x.slabs == []
      modifies this`avail, this`header, this`word, this`allocators, this`view, this`owner
      ensures Acquired(Pow2(log), old(Now()), Now(), a) && Core(Pow2(log), pages, Now())
      ensures allocators[a].noGrow == x.noGrow && allocators[a].itemSize == x.itemSize
      ensures allocators[a].maxItems == x.maxItems + Capacity(Pow2(log), x.itemSize)
    {
      ghost var s := Now();
      var bytes := Pow2(log);
      FrontPage(s);
      // __allocator_acquire_page
      var p := avail[0];
      avail := avail[1..];
      // __helper_slab_init
      var count := Div(bytes - HEADER, x.itemSize);
      header := header[p := Header(p + HEADER, count, count)];
      word := word[p + HEADER := NEXT_LINK];
      // __helper_add_slab
      allocators := allocators[a := x.(slabs := [p] + x.slabs, maxItems := x.maxItems + count)];
      view := view[p := View([], 0)];
      owner := owner[p := Of(a)];
      AcquiredCore(bytes, pages, s, Now(), a);
    }

    lemma FrontPage(s: State)
      requires Core(Pow2(log), pages, s) && s.avail != []
      ensures PageOk(Pow2(log), s.avail[0]) && InPool(s, s.avail[0])
    {
      var p := s.avail[0];
      assert p in s.avail;
      assert InPool(s, p);
      assert PageGood(Pow2(log), s, p);
    }

    /** Grows the allocator by one page, if the pool has one. */
    method Grow(a: nat) returns (status: Status)
      requires Valid() && a in allocators
      modifies this`avail, this`header, this`word, this`allocators, this`view, this`owner
      ensures Valid()
      ensures status == if old(avail) == [] then NoMem else Ok
      ensures status == NoMem ==> Now() == old(Now())
      ensures status == Ok ==> Acquired(Pow2(log), old(Now()), Now(), a)
      ensures Keeps(old(Now()), Now()) && SameLost(old(Now()), Now())
    {
      ghost var s := Now();
      if avail == [] {
        MovedKeeps(Pow2(log), pages, s, s);
        return NoMem;
      }
      assert ListOk(s, a);
      AddSlab(a, allocators[a]);
      AcquiredInv(Pow2(log), pages, s, Now(), a);
      AcquiredKeeps(Pow2(log), pages, s, Now(), a);
      return Ok;
    }

    // ----- Allocation -----

    /** Takes the first item off the page's free list, carving the next one when needed. */
    method UnlinkItem(p: nat, size: nat) returns (item: nat)
      requires p in header && p in view && header[p].freeCount > 0
      requires SlabOk(Pow2(log), size, p, header[p], word, view[p])
      modifies this`header, this`word, this`view
      ensures Repaged(Pow2(log), old(Now()), Now(), p)
      ensures SlabOk(Pow2(log), size, p, header[p], word, view[p])
      ensures view[p] == Take(old(view[p])) && item == Item(p, Taken(old(view[p])), size)
      ensures header[p].freeCount == old(header[p].freeCount) - 1 && header[p].maxItems == old(header[p].maxItems)
      ensures SameItems(size, p, old(view[p]), old(word), word)
    {
      ghost var v, w, h := view[p], word, header[p];
      ghost var bytes := Pow2(log);
      item := header[p].freeItems;
      ItemFound(bytes, size, p, h, w, v);
      var link := Load(word, item);
      if link == NEXT_LINK {
        var next := item + size;
        CarveTest(bytes, size, v.carved + 1);
        if next + size <= p + Pow2(log) {
          word := word[next := NEXT_LINK];
        } else {
          next := NULL;
        }
        link := next;
      }
      header := header[p := header[p].(freeItems := link, freeCount := header[p].freeCount - 1)];
      word := word[item := NULL];
      view := view[p := Take(v)];
      TakenOk(bytes, size, p, h, w, v, header[p], word);
      TakenKept(size, p, v, w, word, NULL, NEXT_LINK);
    }

    /** Takes an item from the first page of the list, which has one. */
    method TakeFirst(a: nat) returns (item: nat, ghost p: nat, ghost k: nat)
      requires Valid() && a in allocators && allocators[a].slabs != [] && HasFree(Now(), allocators[a].slabs[0])
      modifies this`header, this`word, this`view, this`allocators
      ensures Valid() && TookFirst(Pow2(log), pages, old(Now()), Now(), a, p, k, item)
    {
      ghost var s := Now();
      var first := allocators[a].slabs[0];
      FirstPage(Pow2(log), pages, s, a);
      p, k := first, Taken(view[first]);
      item := UnlinkItem(first, allocators[a].itemSize);
      ghost var t := Now();
      TakenState(Pow2(log), pages, s, t, a);
      RepagedKeeps(Pow2(log), pages, s, t, a, first);
      if header[first].freeCount == 0 {
        var l := allocators[a].slabs;
        allocators := allocators[a := allocators[a].(slabs := l[1..] + [first])];
        ToBack(Pow2(log), pages, s, t, Now(), a);
        KeepsAgain(s, t, Now());
      }
    }

    /** Sees to it that the first page has a free item, growing the allocator when all its pages are full. */
    method Prepare(a: nat) returns (ready: bool)
      requires Valid() && a in allocators
      modifies this`avail, this`header, this`word, this`allocators, this`view, this`owner
      ensures Valid() && Prepared(Pow2(log), pages, old(Now()), Now(), a, ready)
    {
      ghost var s := Now();
      MovedKeeps(Pow2(log), pages, s, s);
      assert Ordered(s, a);
      FirstEnough(Pow2(log), pages, s, a);
      var growable := !allocators[a].noGrow;
      if allocators[a].slabs == [] || header[allocators[a].slabs[0]].freeCount == 0 {
        if growable {
          var grown := Grow(a);
          if grown == Ok {
            GrownFirst(Pow2(log), pages, s, Now(), a);
          }
        } else {
          return false;
        }
      }
      FirstEnough(Pow2(log), pages, Now(), a);
      ready := header[allocators[a].slabs[0]].freeCount != 0;
    }

    /** Hands out an item, growing the allocator when its pages are full. */
    method Alloc(a: nat) returns (status: Status, item: nat, ghost p: nat, ghost k: nat)
      requires Valid() && a in allocators
      modifies this`avail, this`header, this`word, this`allocators, this`view, this`owner
      ensures Valid() && Allocates(Pow2(log), pages, old(Now()), Now(), a, status, item)
      ensures status == Ok ==> LiveItem(Now(), a, p, k, item) && NewItem(old(Now()), Now(), p, k)
      ensures status == Ok ==> From(old(Now()), Now(), a, p, k)
      ensures status == NoMem ==> item == NULL && a in allocators && allocators == old(allocators)[a := allocators[a]]
      ensures status == NoMem ==>
                if old(allocators[a]).noGrow || old(avail) == [] then Now() == old(Now())
                else Acquired(Pow2(log), old(Now()), Now(), a)
    {
      ghost var s := Now();
      item, p, k := NULL, 0, 0;
      var ready := Prepare(a);
      if !ready {
        return NoMem, item, p, k;
      }
      ghost var t := Now();
      item, p, k := TakeFirst(a);
      AllocatesBy(Pow2(log), pages, s, t, Now(), a, p, k, item);
      status := Ok;
    }

    /** A client writes a word of an item that it holds; words are aligned, so that they do not overlap. */
    method ClientWrite(item: nat, c: nat, x: nat, ghost a: nat, ghost p: nat, ghost k: nat)
      requires Valid() && LiveItem(Now(), a, p, k, item) && item <= c < item + allocators[a].itemSize && c % 8 == 0
      modifies this`word
      ensures Valid() && SameLive(old(Now()), Now()) && Writes(Pow2(log), pages, old(Now()), Now(), a, item, c, x)
    {
      ghost var s := Now();
      word := word[c := x];
      WrittenState(Pow2(log), pages, s, Now(), a, p, k, item, c, x);
    }

    // ----- Release -----

    /** Puts the item at the head of its page's free list. */
    method LinkItem(slab: nat, item: nat, ghost size: nat, ghost k: nat)
      requires slab in header && slab in view && IsLive(view[slab], k) && item == Item(slab, k, size)
      requires SlabOk(Pow2(log), size, slab, header[slab], word, view[slab])
      modifies this`header, this`word, this`view
      ensures Repaged(Pow2(log), old(Now()), Now(), slab)
      ensures SlabOk(Pow2(log), size, slab, header[slab], word, view[slab])
      ensures view[slab] == Give(old(view[slab]), k) && header[slab].freeCount == old(header[slab].freeCount) + 1
      ensures SameItems(size, slab, view[slab], old(word), word)
    {
      ghost var h, w, v := header[slab], word, view[slab];
      CarveTest(Pow2(log), size, k);
      PushOk(Pow2(log), size, slab, h, w, v, k);
      word := word[item := header[slab].freeItems];
      header := header[slab := header[slab].(freeItems := item, freeCount := header[slab].freeCount + 1)];
      view := view[slab := Give(v, k)];
      GivenKept(size, slab, v, w, word, k, h.freeItems);
    }

    /** Takes back an item; a page without live items goes back to the pool unless it is the last. */
    method Free(a: nat, item: nat, ghost p: nat, ghost k: nat)
      requires Valid() && LiveItem(Now(), a, p, k, item)
      modifies this`avail, this`header, this`word, this`allocators, this`view, this`owner
      ensures Valid() && OnlyDrops(old(Now()), Now(), p, k) && Frees(Pow2(log), pages, old(Now()), Now(), a, item)
      ensures InPool(Now(), p) <==> |old(allocators[a].slabs)| > 1 && forall j: nat :: Live(old(Now()), p, j) ==> j == k
      ensures avail == if InPool(Now(), p) then old(avail) + [p] else old(avail)
      ensures p in view && p in old(view) && view == old(view)[p := Give(old(view)[p], k)]
      ensures a in allocators && allocators == old(allocators)[a := old(allocators[a]).(slabs := allocators[a].slabs)]
      ensures allocators[a].slabs == if InPool(Now(), p) then Without(old(allocators[a].slabs), p)
                                     else [p] + Without(old(allocators[a].slabs), p)
    {
      ghost var s := Now();
      var slab := GiveBack(a, item, p, k);
      ghost var t := Now();
      Settle(a, slab, s);
      FreesBy(Pow2(log), pages, s, t, Now(), a, p, k, item);
    }

    /** Finds the item's page by masking its address, and links the item into the page's free list. */
    method GiveBack(a: nat, item: nat, ghost p: nat, ghost k: nat) returns (slab: nat)
      requires Valid() && LiveItem(Now(), a, p, k, item)
      modifies this`header, this`word, this`view
      ensures slab == p && Given(Pow2(log), pages, old(Now()), Now(), a, p)
      ensures OnlyDrops(old(Now()), Now(), p, k) && Keeps(old(Now()), Now())
      ensures p in view && p in old(view) && view == old(view)[p := Give(old(view)[p], k)]
      ensures header[p].freeCount == header[p].maxItems <==> forall j: nat :: Live(old(Now()), p, j) ==> j == k
    {
      ghost var s, bytes := Now(), Pow2(log);
      LivePage(bytes, pages, s, a, p, k, item);
      MaskFindsPage(bits, log, pages, s, a, p, k, item);
      slab := And(item, Pow2(bits) - Pow2(log));
      LinkItem(slab, item, allocators[a].itemSize, k);
      GivenState(bytes, pages, s, Now(), a, p, k);
      RepagedKeeps(bytes, pages, s, Now(), a, p);
    }

    /** Sends a page without live items to the pool, unless it is the last, and any other page to the front. */
    method Settle(a: nat, slab: nat, ghost s: State)
      requires Given(Pow2(log), pages, s, Now(), a, slab)
      modifies this`avail, this`allocators, this`owner
      ensures Inv(Pow2(log), pages, Now()) && SameLive(old(Now()), Now())
      ensures InPool(Now(), slab) <==> |old(allocators[a].slabs)| > 1 && header[slab].freeCount == header[slab].maxItems
      ensures avail == if InPool(Now(), slab) then old(avail) + [slab] else old(avail)
      ensures owner == if InPool(Now(), slab) then old(owner)[slab := Pool] else old(owner)
      ensures a in allocators && allocators == old(allocators)[a := old(allocators[a]).(slabs := allocators[a].slabs)]
      ensures allocators[a].slabs == if InPool(Now(), slab) then Without(old(allocators[a].slabs), slab)
                                     else [slab] + Without(old(allocators[a].slabs), slab)
    {
      ghost var t, bytes := Now(), Pow2(log);
      var l := allocators[a].slabs;
      if header[slab].freeCount == header[slab].maxItems {
        if |l| > 1 {
          allocators := allocators[a := allocators[a].(slabs := Without(l, slab))];
          avail := avail + [slab];
          owner := owner[slab := Pool];
          ToPool(bytes, pages, s, t, Now(), a, slab);
        } else {
          OnlyPage(bytes, pages, s, t, a, slab);
        }
      } else {
        allocators := allocators[a := allocators[a].(slabs := [slab] + Without(l, slab))];
        ToFront(bytes, pages, s, t, Now(), a, slab);
      }
    }

    // ----- Deletion -----

    /** Releases the allocator's pages from the front on, and stops at the first page in use. */
    method ReleaseFree(a: nat) returns (busy: bool, ghost released: nat)
      requires Valid() && a in allocators
      modifies this`avail, this`allocators, this`owner
      ensures Releasing(Pow2(log), pages, old(Now()), Now(), a, released)
      ensures if busy then FrontInUse(Now(), a) else allocators[a].slabs == []
    {
      ghost var s, bytes := Now(), Pow2(log);
      released := 0;
      ReleasingStart(bytes, pages, s, a);
      while allocators[a].slabs != []
        invariant Releasing(bytes, pages, s, Now(), a, released)
        decreases |s.allocators[a].slabs| - released
      {
        BusyPage(bytes, pages, Now(), a);
        var slab := allocators[a].slabs[0];
        if header[slab].maxItems != header[slab].freeCount {
          return true, released;
        }
        ReleaseFront(a, s, released);
        released := released + 1;
      }
      busy := false;
    }

    /** Gives the allocator's first page, which has no live item, back to the pool. */
    method ReleaseFront(a: nat, ghost s: State, ghost n: nat)
      requires Releasing(Pow2(log), pages, s, Now(), a, n) && allocators[a].slabs != []
      requires var p := allocators[a].slabs[0]; p in header && header[p].freeCount == header[p].maxItems
      modifies this`avail, this`allocators, this`owner
      ensures Releasing(Pow2(log), pages, s, Now(), a, n + 1)
    {
      ghost var t := Now();
      var slab := allocators[a].slabs[0];
      allocators := allocators[a := allocators[a].(slabs := allocators[a].slabs[1..],
                                                   maxItems := allocators[a].maxItems - header[slab].maxItems)];
      avail := avail + [slab];
      owner := owner[slab := Pool];
      ReleasingStep(Pow2(log), pages, s, t, Now(), a, n);
    }

    /** Deletes an allocator; with items in use it fails, having given back the pages before them. */
    method Delete(a: nat) returns (status: Status, ghost released: nat)
      requires Valid() && a in allocators
      modifies this`avail, this`allocators, this`owner
      ensures Valid() && SameLive(old(Now()), Now()) && released <= |old(allocators[a].slabs)|
      ensures Deletes(Pow2(log), pages, old(Now()), Now(), a, status)
      ensures avail == old(avail) + old(allocators[a].slabs)[..released]
      ensures forall b :: b in old(allocators) && b != a ==> b in allocators && allocators[b] == old(allocators[b])
      ensures forall i: nat, k: nat :: i < released ==> !Live(old(Now()), old(allocators[a].slabs)[i], k)
      ensures status == Ok ==> released == |old(allocators[a].slabs)| && allocators == old(allocators) - {a}
      ensures status != Ok ==> status == Busy && released < |old(allocators[a].slabs)| && a in allocators
      ensures status != Ok ==> allocators[a].slabs == old(allocators[a].slabs)[released..]
      ensures status != Ok ==> exists k: nat :: Live(old(Now()), old(allocators[a].slabs)[released], k)
    {
      ghost var s, bytes := Now(), Pow2(log);
      var busy;
      busy, released := ReleaseFree(a);
      if busy {
        DeletesBusy(bytes, pages, s, Now(), a, released);
        return Busy, released;
      }
      ghost var t := Now();
      allocators := allocators - {a};
      DeletesDone(bytes, pages, s, t, Now(), a, released);
      status := Ok;
    }

    // ----- Creation -----

    /**
     * Creates an allocator.  `noGrow` is whatever the allocator's flags word happens to hold:
     * the flags that the caller passes are not stored.  When the pool runs out on the way, the
     * pages taken so far are lost.
     */
    method New(a: nat, itemSize: nat, itemCount: nat, noGrow: bool) returns (status: Status, ghost lost: set<nat>)
      requires Valid() && a !in allocators
      modifies this`avail, this`header, this`word, this`allocators, this`view, this`owner
      ensures Valid() && Creates(Pow2(log), pages, old(Now()), Now(), a, status, lost)
      ensures lost == if status == NoMem && PerPage(Pow2(log), itemSize) > 0 then set p | p in old(avail) else {}
      ensures status == BadArgs <==> itemSize == 0 || itemCount == 0
      ensures status == Ok <==> itemSize > 0 && itemCount > 0 && PerPage(Pow2(log), itemSize) > 0
                                && PagesFor(Pow2(log), itemSize, itemCount) <= |old(avail)|
      ensures status == Ok ==>
                Creating(Pow2(log), pages, old(Now()), Now(), a, PagesFor(Pow2(log), itemSize, itemCount))
      ensures status == Ok ==>
                a in allocators && allocators[a].itemSize == Round16(itemSize)
                && allocators[a].noGrow == noGrow
      ensures status == Ok ==> FreeIn(Now(), allocators[a].slabs)
                               == PagesFor(Pow2(log), itemSize, itemCount) * Capacity(Pow2(log), Round16(itemSize))
      ensures status == Ok && Capacity(Pow2(log), Round16(itemSize)) == PerPage(Pow2(log), itemSize) ==>
                FreeIn(Now(), allocators[a].slabs) >= itemCount
      ensures status != Ok ==> allocators == old(allocators)
    {
      ghost var s := Now();
      MovedKeeps(Pow2(log), pages, s, s);
      lost := {};
      if itemSize == 0 || itemCount == 0 {
        return BadArgs, lost;
      }
      var realSize := Round16(itemSize);
      var itemsPerSlab := Div(Pow2(log), realSize);
      if itemsPerSlab == 0 {
        return NoMem, lost;
      }
      var numPages := Div(itemCount + itemsPerSlab - 1, itemsPerSlab);
      status, lost := Build(a, realSize, numPages, noGrow);
      NewPromise(Pow2(log), itemSize);
    }

    /** Leaves an unfinished allocator, and the pages it has taken, behind. */
    method GiveUp(a: nat, ghost s: State, ghost n: nat)
      requires Creating(Pow2(log), pages, s, Now(), a, n) && Keeps(s, Now()) && n == |s.avail|
      modifies this`allocators, this`owner
      ensures Creates(Pow2(log), pages, s, Now(), a, NoMem, set p | p in s.avail) && allocators == s.allocators
    {
      ghost var t := Now();
      AbandonInv(Pow2(log), pages, s, t, a, n);
      AbandonLive(Pow2(log), pages, s, t, a, n);
      AbandonLoses(Pow2(log), pages, s, t, a, n);
      allocators := allocators - {a};
      owner := Abandon(t, a).owner;
    }

    /** Takes pages from the pool for a new allocator, `numPages` of them or as many as there are. */
    method TakePages(a: nat, size: nat, numPages: nat, noGrow: bool) returns (taken: nat)
      requires Pow2(log) > HEADER && Inv(Pow2(log), pages, Now()) && a !in allocators && size > 0 && size % 16 == 0
      modifies this`avail, this`header, this`word, this`allocators, this`view, this`owner
      ensures Creating(Pow2(log), pages, old(Now()), Now(), a, taken) && taken <= numPages
      ensures taken < numPages ==> avail == []
      ensures taken > 0 ==> allocators[a].itemSize == size && allocators[a].noGrow == noGrow
      ensures taken > 0 ==> FreeIn(Now(), allocators[a].slabs) == taken * Capacity(Pow2(log), size)
      ensures Keeps(old(Now()), Now()) && SameLost(old(Now()), Now())
    {
      ghost var s, bytes := Now(), Pow2(log);
      CreatingStart(bytes, pages, s, a);
      MovedKeeps(bytes, pages, s, s);
      var x := Allocator([], size, 0, noGrow);
      taken := 0;
      while taken < numPages
        invariant taken <= numPages && Creating(bytes, pages, s, Now(), a, taken)
        invariant x.itemSize == size && x.noGrow == noGrow && Keeps(s, Now()) && SameLost(s, Now())
        invariant FreeIn(Now(), x.slabs) == taken * Capacity(bytes, size)
        invariant if taken == 0 then x.slabs == [] else a in allocators && allocators[a] == x
      {
        if avail == [] {
          return;
        }
        x := TakePage(a, x, s, taken);
        taken := taken + 1;
      }
    }

    /** Takes one more page from the pool for a new allocator. */
    method TakePage(a: nat, x: Allocator, ghost s: State, ghost taken: nat) returns (y: Allocator)
      requires Pow2(log) > HEADER && Creating(Pow2(log), pages, s, Now(), a, taken)
               && avail != [] && x.itemSize > 0 && x.itemSize % 16 == 0
      requires if taken == 0 then x.slabs == [] else a in allocators && allocators[a] == x
      requires Keeps(s, Now()) && SameLost(s, Now())
               && FreeIn(Now(), x.slabs) == taken * Capacity(Pow2(log), x.itemSize)
      modifies this`avail, this`header, this`word, this`allocators, this`view, this`owner
      ensures Creating(Pow2(log), pages, s, Now(), a, taken + 1) && a in allocators && allocators[a] == y
      ensures y.itemSize == x.itemSize && y.noGrow == x.noGrow
      ensures Keeps(s, Now()) && SameLost(s, Now())
              && FreeIn(Now(), y.slabs) == (taken + 1) * Capacity(Pow2(log), y.itemSize)
    {
      ghost var t := Now();
      AddSlab(a, x);
      y := allocators[a];
      CreatingStep(Pow2(log), pages, s, t, Now(), a, taken);
      CreatingKeeps(Pow2(log), pages, s, t, Now(), a, taken);
      CreatingFree(Pow2(log), pages, t, Now(), a, x.slabs);
    }

    method Build(a: nat, size: nat, numPages: nat, noGrow: bool) returns (status: Status, ghost lost: set<nat>)
      requires Valid() && a !in allocators && size > 0 && size % 16 == 0 && numPages > 0
      modifies this`avail, this`header, this`word, this`allocators, this`view, this`owner
      ensures Valid() && Creates(Pow2(log), pages, old(Now()), Now(), a, status, lost)
      ensures status == if numPages <= |old(avail)| then Ok else NoMem
      ensures status == Ok ==> Creating(Pow2(log), pages, old(Now()), Now(), a, numPages)
      ensures status == Ok ==> allocators[a].itemSize == size && allocators[a].noGrow == noGrow
      ensures status == Ok ==> FreeIn(Now(), allocators[a].slabs) == numPages * Capacity(Pow2(log), size)
      ensures status != Ok ==> allocators == old(allocators)
      ensures lost == if status == Ok then {} else set p | p in old(avail)
    {
      ghost var s := Now();
      var taken := TakePages(a, size, numPages, noGrow);
      if taken < numPages {
        GiveUp(a, s, taken);
        return NoMem, set p | p in s.avail;
      }
      return Ok, {};
    }
  }

  // ----- How many items a new allocator has room for -----

  lemma {:induction false} FitMonotone(room: nat, more: nat, size: nat)
    requires size > 0 && room <= more
    ensures Fit(room, size) <= Fit(more, size)
  {
    if room >= size {
      FitMonotone(room - size, more - size, size);
    }
  }

  /** Pages are counted as if they had no header, so that exactly one page's worth comes from one page. */
  lemma OnePage(n: nat)
    requires n > 0
    ensures Fit(n + n - 1, n) == 1
  {
  }

  /** A count of pages rounded up leaves no item out. */
  lemma {:induction false} RoundedUp(count: nat, n: nat)
    requires n > 0
    ensures Fit(count + n - 1, n) * n >= count
    decreases count
  {
    if count > n {
      RoundedUp(count - n, n);
      var k := Fit(count - n + n - 1, n);
      assert (k + 1) * n == k * n + n;
    } else if count > 0 {
      assert Fit(count + n - 1, n) == 1;
    }
  }

  /** One page less would leave an item out. */
  lemma {:induction false} NoneTooMany(count: nat, n: nat)
    requires n > 0
    ensures if count == 0 then Fit(count + n - 1, n) == 0 else (Fit(count + n - 1, n) - 1) * n < count
    decreases count
  {
    if count > n {
      NoneTooMany(count - n, n);
      var k := Fit(count - n + n - 1, n);
      assert k * n == (k - 1) * n + n;
    } else if count > 0 {
      assert Fit(count + n - 1, n) == 1;
    }
  }

  /** The quotient is the greatest number of items of that size in that room. */
  lemma {:induction false} FitGreatest(room: nat, size: nat)
    requires size > 0
    ensures Fit(room, size) * size <= room < (Fit(room, size) + 1) * size
  {
    if room >= size {
      FitGreatest(room - size, size);
      var k := Fit(room - size, size);
      assert (k + 1) * size == k * size + size;
      assert (k + 2) * size == (k + 1) * size + size;
    }
  }

  /**
   * A new allocator takes the least number of pages that would hold the requested items if pages
   * had no header: as many items to a page as fit, rounded up to multiples of 16.
   */
  lemma PagesLeast(bytes: nat, itemSize: nat, itemCount: nat)
    requires itemSize > 0
    ensures var (n, size) := (PerPage(bytes, itemSize), Round16(itemSize));
            && n * size <= bytes < (n + 1) * size
            && (n > 0 ==> PagesFor(bytes, itemSize, itemCount) * n >= itemCount)
            && (n > 0 && itemCount > 0 ==> (PagesFor(bytes, itemSize, itemCount) - 1) * n < itemCount)
            && (n > 0 && itemCount == 0 ==> PagesFor(bytes, itemSize, itemCount) == 0)
  {
    FitGreatest(bytes, Round16(itemSize));
    if PerPage(bytes, itemSize) > 0 {
      RoundedUp(itemCount, PerPage(bytes, itemSize));
      NoneTooMany(itemCount, PerPage(bytes, itemSize));
    }
  }

  /**
   * A new allocator is promised to hold at least the requested number of items.  For an item
   * size, that holds for every count exactly when a page loses no item to its header.
   */
  lemma NewPromise(bytes: nat, itemSize: nat)
    requires bytes >= HEADER && itemSize > 0 && PerPage(bytes, itemSize) > 0
    ensures (forall count: nat :: PagesFor(bytes, itemSize, count) * Capacity(bytes, Round16(itemSize)) >= count)
            <==> Capacity(bytes, Round16(itemSize)) == PerPage(bytes, itemSize)
  {
    var n, c := PerPage(bytes, itemSize), Capacity(bytes, Round16(itemSize));
    FitMonotone(bytes - HEADER, bytes, Round16(itemSize));
    if c == n {
      forall count: nat
        ensures PagesFor(bytes, itemSize, count) * c >= count
      {
        RoundedUp(count, n);
      }
    } else {
      OnePage(n);
      assert PagesFor(bytes, itemSize, n) * c == c < n;
    }
  }

  /** 256 items of 16 bytes are given one page of 4096 bytes, which holds 252. */
  lemma NewPromiseBroken()
    ensures PagesFor(4096, 16, 256) == 1 && Capacity(4096, 16) == 252
  {
    FitIsQuotient(4096, 16);
    FitIsQuotient(4096 - HEADER, 16);
    FitIsQuotient(256 + 256 - 1, 256);
  }
}

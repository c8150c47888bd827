/** What the operations leave alone: item sizes, the owners of live items, clients' data, and pages. */
module SlabKeeps {
  import opened Arith
  import opened SlabSpec
  import opened SlabState

  // ----- Clients' words -----

  /** The words from `lo` on are as they were, for the length of an item. */
  ghost predicate SameFrom(w: Words, w': Words, lo: nat, size: nat) {
    forall c: nat :: lo <= c < lo + size ==> Load(w', c) == Load(w, c)
  }

  /** The words of every live item of a page are as they were. */
  ghost predicate SameItems(size: nat, p: nat, v: View, w: Words, w': Words) {
    forall k: nat :: IsLive(v, k) ==> SameFrom(w, w', Item(p, k, size), size)
  }

  /** A write to the first word of an item that is not live. */
  lemma FirstWordKept(p: nat, size: nat, v: View, w: Words, w': Words, j: nat, x: nat)
    requires size > 0 && !IsLive(v, j) && w' == w[Item(p, j, size) := x]
    ensures SameItems(size, p, v, w, w')
  {
    forall k: nat | IsLive(v, k)
      ensures SameFrom(w, w', Item(p, k, size), size)
    {
      OutsideItem(p, j, k, size);
    }
  }

  lemma SameItemsTrans(size: nat, p: nat, v: View, w: Words, w': Words, w'': Words)
    requires SameItems(size, p, v, w, w') && SameItems(size, p, v, w', w'')
    ensures SameItems(size, p, v, w, w'')
  {
    forall k: nat | IsLive(v, k)
      ensures SameFrom(w, w'', Item(p, k, size), size)
    {
      assert SameFrom(w, w', Item(p, k, size), size) && SameFrom(w', w'', Item(p, k, size), size);
    }
  }

  // ----- What a step keeps -----

  /** Item sizes and growth flags are as they were. */
  ghost predicate KeepsKinds(s: State, t: State) {
    forall a :: a in s.allocators && a in t.allocators ==>
      t.allocators[a].itemSize == s.allocators[a].itemSize && t.allocators[a].noGrow == s.allocators[a].noGrow
  }

  /** The live item `k` of page `p` still belongs to the same allocator, with its data as it was. */
  ghost predicate KeepsItem(s: State, t: State, p: nat, k: nat) {
    && p in s.owner && p in t.owner && t.owner[p] == s.owner[p] && s.owner[p].Of? && s.owner[p].id in s.allocators
    && SameFrom(s.word, t.word, Address(s, p, k), s.allocators[s.owner[p].id].itemSize)
  }

  /** Nothing changes for the items that stay live. */
  ghost predicate Keeps(s: State, t: State) {
    KeepsKinds(s, t) && forall p: nat, k: nat :: Live(s, p, k) && Live(t, p, k) ==> KeepsItem(s, t, p, k)
  }

  ghost predicate IsLost(s: State, p: nat) {
    p in s.owner && s.owner[p] == Lost
  }

  /** No page gets lost, and none that is lost comes back. */
  ghost predicate SameLost(s: State, t: State) {
    forall p :: IsLost(t, p) <==> IsLost(s, p)
  }

  /** Every live item belongs to an allocator. */
  lemma LiveOwner(bytes: nat, pages: set<nat>, s: State, p: nat, k: nat)
    requires Core(bytes, pages, s) && Live(s, p, k)
    ensures p in pages && PageGood(bytes, s, p) && s.owner[p].id in s.allocators
    ensures Address(s, p, k) >= p && Address(s, p, k) + s.allocators[s.owner[p].id].itemSize <= p + bytes
  {
    assert PageGood(bytes, s, p);
    CarveTest(bytes, s.allocators[s.owner[p].id].itemSize, k);
  }

  lemma KeepsTrans(bytes: nat, pages: set<nat>, s: State, t: State, u: State)
    requires Core(bytes, pages, s) && Core(bytes, pages, t) && Keeps(s, t) && Keeps(t, u)
    requires forall a :: a in s.allocators && a in u.allocators ==> a in t.allocators
    requires forall p: nat, k: nat :: Live(s, p, k) && Live(u, p, k) ==> Live(t, p, k)
    ensures Keeps(s, u)
  {
    forall p: nat, k: nat | Live(s, p, k) && Live(u, p, k)
      ensures KeepsItem(s, u, p, k)
    {
      LiveOwner(bytes, pages, s, p, k);
      LiveOwner(bytes, pages, t, p, k);
      assert KeepsItem(s, t, p, k) && KeepsItem(t, u, p, k);
      KeepsItemTrans(s, t, u, p, k);
    }
  }

  lemma KeepsItemTrans(s: State, t: State, u: State, p: nat, k: nat)
    requires KeepsItem(s, t, p, k) && KeepsItem(t, u, p, k) && KeepsKinds(s, t)
    ensures KeepsItem(s, u, p, k)
  {
    assert Address(t, p, k) == Address(s, p, k);
  }

  // ----- The steps -----

  /** A page of the pool has become a fresh page: nothing changes for live items. */
  lemma AcquiredKeeps(bytes: nat, pages: set<nat>, s: State, t: State, a: nat)
    requires Core(bytes, pages, s) && Acquired(bytes, s, t, a)
    ensures Keeps(s, t) && SameLost(s, t)
  {
    var q := s.avail[0];
    assert q in s.avail;
    assert InPool(s, q);
    assert PageGood(bytes, s, q);
    forall p: nat, k: nat | Live(s, p, k) && Live(t, p, k)
      ensures KeepsItem(s, t, p, k)
    {
      LiveOwner(bytes, pages, s, p, k);
      PagesApart(bytes, p, q);
    }
  }

  /** A change of one page's header, links and meaning that keeps the words of its live items. */
  lemma RepagedKeeps(bytes: nat, pages: set<nat>, s: State, t: State, a: nat, q: nat)
    requires Core(bytes, pages, s) && Repaged(bytes, s, t, q) && OwnedBy(s, a, q) && a in s.allocators && q in s.view
    requires forall k: nat :: IsLive(s.view[q], k) && IsLive(t.view[q], k) ==>
               SameFrom(s.word, t.word, Item(q, k, s.allocators[a].itemSize), s.allocators[a].itemSize)
    ensures Keeps(s, t) && SameLost(s, t)
  {
    forall p: nat, k: nat | Live(s, p, k) && Live(t, p, k)
      ensures KeepsItem(s, t, p, k)
    {
      LiveOwner(bytes, pages, s, p, k);
      if p != q {
        assert PageGood(bytes, s, q);
        PagesApart(bytes, p, q);
      }
    }
  }

  /** Pages without live items have moved and lists have changed, but no word and no other owner. */
  lemma MovedKeeps(bytes: nat, pages: set<nat>, s: State, t: State)
    requires Core(bytes, pages, s) && t.word == s.word && KeepsKinds(s, t)
    requires forall p: nat, k: nat :: Live(s, p, k) && Live(t, p, k) ==> p in t.owner && t.owner[p] == s.owner[p]
    ensures Keeps(s, t)
  {
    forall p: nat, k: nat | Live(s, p, k) && Live(t, p, k)
      ensures KeepsItem(s, t, p, k)
    {
      LiveOwner(bytes, pages, s, p, k);
    }
  }

  /** The same, when owners and words have changed further only where nothing is live. */
  lemma KeepsAgain(s: State, t: State, u: State)
    requires Keeps(s, t) && KeepsKinds(s, u) && u.word == t.word
    requires forall p: nat, k: nat :: Live(u, p, k) ==> Live(t, p, k) && p in t.owner && u.owner[p] == t.owner[p]
    ensures Keeps(s, u)
  {
    forall p: nat, k: nat | Live(s, p, k) && Live(u, p, k)
      ensures KeepsItem(s, u, p, k)
    {
      assert Live(t, p, k);
      assert KeepsItem(s, t, p, k);
    }
  }

  /** The writes of taking an item touch no live item. */
  lemma TakenKept(size: nat, p: nat, v: View, w: Words, w': Words, x: nat, y: nat)
    requires size > 0 && NoDup(v.returned) && forall i :: 0 <= i < |v.returned| ==> v.returned[i] < v.carved
    requires || w' == w[Item(p, Taken(v), size) := x]
             || w' == w[Item(p, v.carved + 1, size) := y][Item(p, Taken(v), size) := x]
    ensures SameItems(size, p, v, w, w')
  {
    TakeLive(v);
    if w' == w[Item(p, Taken(v), size) := x] {
      FirstWordKept(p, size, v, w, w', Taken(v), x);
    } else {
      var m := w[Item(p, v.carved + 1, size) := y];
      FirstWordKept(p, size, v, w, m, v.carved + 1, y);
      FirstWordKept(p, size, v, m, w', Taken(v), x);
      SameItemsTrans(size, p, v, w, m, w');
    }
  }

  /** The write of returning an item touches no other live item. */
  lemma GivenKept(size: nat, p: nat, v: View, w: Words, w': Words, k: nat, x: nat)
    requires size > 0 && w' == w[Item(p, k, size) := x]
    ensures SameItems(size, p, Give(v, k), w, w')
  {
    FirstWordKept(p, size, Give(v, k), w, w', k, x);
  }

  /** Deletion in progress keeps everything but the pages it gives back. */
  lemma ReleasingKeeps(bytes: nat, pages: set<nat>, s: State, t: State, a: nat, n: nat)
    requires Releasing(bytes, pages, s, t, a, n) && t.word == s.word
    ensures Keeps(s, t) && SameLost(s, t)
  {
    var l := s.allocators[a].slabs;
    assert ListOk(s, a);
    forall p: nat, k: nat | Live(s, p, k) && Live(t, p, k)
      ensures p in t.owner && t.owner[p] == s.owner[p]
    {
    }
    forall p
      ensures IsLost(t, p) <==> IsLost(s, p)
    {
      if p in l[..n] {
        assert p in l;
        assert OwnedBy(s, a, p);
      }
    }
    MovedKeeps(bytes, pages, s, t);
  }
}

/** The fixed-size heap: an array sifted in place. */
module FixedHeap {
  import opened Results
  import opened HeapSpec

  class FixedHeap<T(==)> {
    const heap: array<T>
    const compare: Compare<T>
    /** What popping leaves in the slot that became unused. */
    const nil: T
    var entries: nat

    ghost predicate Valid()
      reads this
    {
      entries <= heap.Length
    }

    ghost function Contents(): seq<T>
      requires Valid()
      reads this, heap
    {
      heap[..entries]
    }

    constructor (capacity: nat, compare: Compare<T>, nil: T)
      ensures Valid() && fresh(heap) && heap.Length == capacity && Contents() == []
      ensures this.compare == compare && this.nil == nil
    {
      heap := new T[capacity](_ => nil);
      this.compare, this.nil, entries := compare, nil, 0;
    }

    method SwapEntries(a: nat, b: nat)
      requires Valid() && a < entries && b < entries
      modifies heap
      ensures Contents() == Swap(old(Contents()), a, b) && heap[entries..] == old(heap[entries..])
    {
      heap[a], heap[b] := heap[b], heap[a];
    }

    method Insert(key: T, idx: nat)
      requires Valid() && idx < entries
      modifies heap
      ensures Contents() == SiftUp(compare, old(Contents())[idx := key], idx)
    {
      heap[idx] := key;
      var i: nat := idx;
      ghost var start := Contents();
      assert start == old(Contents())[idx := key];
      while i > 0 && compare(heap[Parent(i)], heap[i]) < 0
        invariant i < entries && SiftUp(compare, Contents(), i) == SiftUp(compare, start, idx)
      {
        SwapEntries(i, Parent(i));
        i := Parent(i);
      }
    }

    method PickLargest(i: nat) returns (largest: nat)
      requires Valid()
      ensures largest == if i < entries then Largest(compare, Contents(), i) else i
    {
      var l, r := 2 * i + 1, 2 * i + 2;
      largest := i;
      if l < entries && compare(heap[l], heap[i]) > 0 {
        largest := l;
      }
      if r < entries && compare(heap[r], heap[largest]) > 0 {
        largest := r;
      }
    }

    method Heapify(idx: nat)
      requires Valid()
      modifies heap
      ensures Contents() == SiftDown(compare, old(Contents()), idx) && heap[entries..] == old(heap[entries..])
    {
      var i: nat := idx;
      var largest := PickLargest(i);
      while largest != i
        invariant largest == if i < entries then Largest(compare, Contents(), i) else i
        invariant heap[entries..] == old(heap[entries..])
        invariant SiftDown(compare, Contents(), i) == SiftDown(compare, old(Contents()), idx)
        decreases entries - i
      {
        SwapEntries(i, largest);
        i := largest;
        largest := PickLargest(i);
      }
    }

    method Push(item: T) returns (status: Status)
      requires Valid()
      modifies this, heap
      ensures Valid()
      ensures old(entries) >= heap.Length ==> status == NoSpc && Contents() == old(Contents())
      ensures old(entries) < heap.Length ==> status == Ok && Contents() == HeapSpec.Push(compare, old(Contents()), item)
    {
      if heap.Length <= entries {
        return NoSpc;
      }
      entries := entries + 1;
      assert Contents()[entries - 1 := item] == old(Contents()) + [item];
      Insert(item, entries - 1);
      status := Ok;
    }

    method Pop() returns (status: Status, item: T)
      requires Valid()
      modifies this, heap
      ensures Valid()
      ensures old(entries) == 0 ==> status == Empty && item == nil && Contents() == old(Contents())
      ensures old(entries) > 0 ==>
                && status == Ok && item == old(Contents())[0]
                && Contents() == RemoveAt(compare, old(Contents()), 0)
                && heap[entries] == nil
    {
      if entries == 0 {
        return Empty, nil;
      }
      item := heap[0];
      entries := entries - 1;
      heap[0] := heap[entries];
      heap[entries] := nil;
      assert Contents() == Moved(old(Contents()), 0);
      ghost var rest := heap[entries..];
      assert rest[0] == nil;
      Heapify(0);
      assert heap[entries..][0] == nil;
      status := Ok;
    }

    method PeekHead() returns (status: Status, item: T)
      requires Valid()
      ensures entries == 0 ==> status == Empty && item == nil
      ensures entries > 0 ==> status == Ok && item == Contents()[0]
    {
      if entries == 0 {
        return Empty, nil;
      }
      status, item := Ok, heap[0];
    }

    /** The first place of the item, or the number of entries if it has none. */
    method Search(item: T) returns (k: nat)
      requires Valid()
      ensures k <= entries && item !in Contents()[..k]
      ensures k < entries ==> Contents()[k] == item
    {
      k := 0;
      while k < entries && heap[k] != item
        invariant k <= entries && item !in Contents()[..k]
      {
        k := k + 1;
      }
    }

    method RemoveItem(item: T) returns (status: Status)
      requires Valid()
      modifies this, heap
      ensures Valid()
      ensures item !in old(Contents()) ==> status == NotFound && Contents() == old(Contents())
      ensures item in old(Contents()) ==>
                && status == Ok
                && exists k: nat :: FirstAt(old(Contents()), item, k)
                      && Contents() == RemoveAt(compare, old(Contents()), k)
    {
      var k := Search(item);
      if k == entries {
        assert Contents()[..k] == Contents();
        return NotFound;
      }
      assert FirstAt(old(Contents()), item, k);
      entries := entries - 1;
      heap[k] := heap[entries];
      assert Contents() == Moved(old(Contents()), k);
      Heapify(k);
      status := Ok;
    }
  }

  ghost predicate FirstAt<T>(s: seq<T>, x: T, k: nat) {
    k < |s| && s[k] == x && x !in s[..k]
  }
}

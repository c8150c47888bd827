/** What looking a key up in a chained table means, as a scan of everything inserted and not deleted. */
module HashSpec {
  import opened Results
  import opened Arith

  /** A node and the hash it was inserted with. */
  datatype Item<!N> = Item(node: N, hash: nat)

  /** Which bucket a hash goes to. */
  function Offset(hash: nat, buckets: nat): (b: nat)
    requires buckets > 0
    ensures b < buckets
  {
    AndAtMost(hash, buckets - 1);
    And(hash, buckets - 1)
  }

  lemma {:induction false} AndLow(x: nat, k: nat)
    ensures And(x, Pow2(k) - 1) == Low(x, k)
  {
    if k > 0 {
      AndLow(x / 2, k - 1);
      assert (Pow2(k) - 1) / 2 == Pow2(k - 1) - 1 && (Pow2(k) - 1) % 2 == 1;
      if x == 0 {
        assert Low(0, k) == 0;
      }
    }
  }

  /** With a power of two of buckets, the bucket is the remainder of the hash. */
  lemma OffsetIsRemainder(hash: nat, k: nat)
    ensures Offset(hash, Pow2(k)) == hash % Pow2(k)
  {
    AndLow(hash, k);
    LowIsWrap(hash, k);
    WrapIsMod(hash, Pow2(k));
  }

  /** The items of one bucket, in the order of insertion. */
  function InBucket<N>(order: seq<Item<N>>, b: nat, buckets: nat): (r: seq<Item<N>>)
    requires buckets > 0
    ensures forall i :: 0 <= i < |r| ==> r[i] in order && Offset(r[i].hash, buckets) == b
  {
    if order == [] then []
    else
      var (front, last) := (order[..|order| - 1], order[|order| - 1]);
      InBucket(front, b, buckets) + if Offset(last.hash, buckets) == b then [last] else []
  }

  /**
   * The first item with this hash whose node the comparison accepts; a comparison that fails
   * ends the scan with nothing found.
   */
  function Search<N>(items: seq<Item<N>>, hash: nat, accepts: N -> Option<bool>): Option<N> {
    if items == [] then None
    else if items[0].hash != hash then Search(items[1..], hash, accepts)
    else
      match accepts(items[0].node)
      case None => None
      case Some(true) => Some(items[0].node)
      case Some(false) => Search(items[1..], hash, accepts)
  }

  /** One step of the scan. */
  lemma SearchFrom<N>(items: seq<Item<N>>, k: nat, hash: nat, accepts: N -> Option<bool>)
    requires k < |items|
    ensures Search(items[k..], hash, accepts) ==
            if items[k].hash != hash || accepts(items[k].node) == Some(false)
            then Search(items[k + 1..], hash, accepts)
            else if accepts(items[k].node) == None then None else Some(items[k].node)
  {
    assert items[k..][0] == items[k] && items[k..][1..] == items[k + 1..];
  }

  /** The list without the node. */
  function Without<N(==)>(order: seq<Item<N>>, node: N): (r: seq<Item<N>>)
    ensures forall i :: 0 <= i < |r| ==> r[i] in order && r[i].node != node
  {
    if order == [] then []
    else
      var (front, last) := (order[..|order| - 1], order[|order| - 1]);
      Without(front, node) + if last.node == node then [] else [last]
  }

  /** Where the scan ends within `front`, and where it goes on behind it. */
  lemma {:induction false} SearchAppend<N>(
    front: seq<Item<N>>, rest: seq<Item<N>>, hash: nat, accepts: N -> Option<bool>)
    ensures Search(front + rest, hash, accepts) ==
            if Stops(front, hash, accepts) then Search(front, hash, accepts) else Search(rest, hash, accepts)
  {
    if front == [] {
      assert front + rest == rest;
    } else {
      assert (front + rest)[1..] == front[1..] + rest;
      SearchAppend(front[1..], rest, hash, accepts);
    }
  }

  /** The comparison accepts or fails somewhere among the items with this hash. */
  predicate Stops<N>(items: seq<Item<N>>, hash: nat, accepts: N -> Option<bool>) {
    items != [] && ((items[0].hash == hash && accepts(items[0].node) != Some(false))
        || Stops(items[1..], hash, accepts))
  }

  lemma {:induction false} StopsAppend<N>(
    front: seq<Item<N>>, rest: seq<Item<N>>, hash: nat, accepts: N -> Option<bool>)
    ensures Stops(front + rest, hash, accepts) <==> Stops(front, hash, accepts) || Stops(rest, hash, accepts)
  {
    if front == [] {
      assert front + rest == rest;
    } else {
      assert (front + rest)[1..] == front[1..] + rest;
      StopsAppend(front[1..], rest, hash, accepts);
    }
  }

  /** Scanning the one bucket is as good as scanning everything. */
  lemma {:induction false} BucketEnough<N>(order: seq<Item<N>>, hash: nat, buckets: nat, accepts: N -> Option<bool>)
    requires buckets > 0
    ensures var bucket := InBucket(order, Offset(hash, buckets), buckets);
            && Search(bucket, hash, accepts) == Search(order, hash, accepts)
            && (Stops(bucket, hash, accepts) <==> Stops(order, hash, accepts))
  {
    if order != [] {
      var (front, last) := (order[..|order| - 1], order[|order| - 1]);
      var bucket := InBucket(front, Offset(hash, buckets), buckets);
      assert order == front + [last];
      BucketEnough(front, hash, buckets, accepts);
      SearchAppend(front, [last], hash, accepts);
      SearchAppend(bucket, [last], hash, accepts);
      StopsAppend(front, [last], hash, accepts);
      StopsAppend(bucket, [last], hash, accepts);
      if Offset(last.hash, buckets) != Offset(hash, buckets) {
        assert bucket + [] == bucket;
        if !Stops(front, hash, accepts) {
          NotStopping(front, hash, accepts);
        }
      }
    }
  }

  lemma {:induction false} NotStopping<N>(items: seq<Item<N>>, hash: nat, accepts: N -> Option<bool>)
    requires !Stops(items, hash, accepts)
    ensures Search(items, hash, accepts) == None
  {
    if items != [] {
      NotStopping(items[1..], hash, accepts);
    }
  }

  // ----- The earliest match -----

  /** The comparison accepts the i-th item and none inserted before it. */
  ghost predicate EarliestAt<N>(order: seq<Item<N>>, accepts: N -> Option<bool>, i: nat) {
    && i < |order| && accepts(order[i].node) == Some(true)
    && forall j :: 0 <= j < i ==> accepts(order[j].node) == Some(false)
  }

  /** The comparison never fails, and accepts only nodes with this hash. */
  ghost predicate Faithful<N>(order: seq<Item<N>>, hash: nat, accepts: N -> Option<bool>) {
    forall i :: 0 <= i < |order| ==>
      accepts(order[i].node).Some? && (accepts(order[i].node).value ==> order[i].hash == hash)
  }

  /** The search finds the earliest inserted node that the comparison accepts, and nothing only if there is none. */
  lemma {:induction false} SearchEarliest<N>(order: seq<Item<N>>, hash: nat, accepts: N -> Option<bool>)
    requires Faithful(order, hash, accepts)
    ensures var r := Search(order, hash, accepts);
            && (r.Some? ==> exists i: nat :: EarliestAt(order, accepts, i) && r.value == order[i].node)
            && (r.None? ==> forall i :: 0 <= i < |order| ==> accepts(order[i].node) == Some(false))
  {
    if order != [] {
      var rest := order[1..];
      if accepts(order[0].node) == Some(true) {
        assert EarliestAt(order, accepts, 0);
      } else {
        var first := accepts(order[0].node);
        assert first.Some? && first.value != true;
        forall i | 0 <= i < |rest|
          ensures accepts(rest[i].node).Some? && (accepts(rest[i].node).value ==> rest[i].hash == hash)
        {
          assert rest[i] == order[i + 1];
        }
        SearchEarliest(rest, hash, accepts);
        if Search(rest, hash, accepts).Some? {
          var i: nat :| EarliestAt(rest, accepts, i) && Search(rest, hash, accepts).value == rest[i].node;
          assert rest[i] == order[i + 1];
          forall j | 0 <= j < i + 1
            ensures accepts(order[j].node) == Some(false)
          {
            assert j > 0 ==> order[j] == rest[j - 1];
          }
          assert EarliestAt(order, accepts, i + 1);
        } else {
          assert forall i :: 0 < i < |order| ==> order[i] == rest[i - 1];
        }
      }
    }
  }

  /** The comparison accepts the i-th item and none before it, failing or not on those. */
  ghost predicate FirstAccepted<N>(order: seq<Item<N>>, accepts: N -> Option<bool>, i: nat) {
    && i < |order| && accepts(order[i].node) == Some(true)
    && forall j :: 0 <= j < i ==> accepts(order[j].node) != Some(true)
  }

  ghost predicate DistinctNodes<N>(order: seq<Item<N>>) {
    forall i, j :: 0 <= i < j < |order| ==> order[i].node != order[j].node
  }

  /** No comparison with an item of this hash before the i-th fails. */
  ghost predicate NoFailure<N>(order: seq<Item<N>>, hash: nat, accepts: N -> Option<bool>, i: nat) {
    forall j :: 0 <= j < i && j < |order| && order[j].hash == hash ==> accepts(order[j].node).Some?
  }

  lemma {:induction false} SearchAmong<N>(order: seq<Item<N>>, hash: nat, accepts: N -> Option<bool>, node: N)
    requires forall i :: 0 <= i < |order| ==> order[i].node != node
    ensures Search(order, hash, accepts) != Some(node)
  {
    if order != [] {
      SearchAmong(order[1..], hash, accepts, node);
    }
  }

  /**
   * Whatever the comparison, the first node it accepts is found exactly when that node has the
   * key's hash and no comparison with an earlier node of that hash fails.
   */
  lemma {:induction false} SearchExact<N>(order: seq<Item<N>>, hash: nat, accepts: N -> Option<bool>, i: nat)
    requires DistinctNodes(order) && FirstAccepted(order, accepts, i)
    ensures Search(order, hash, accepts) == Some(order[i].node) <==>
            order[i].hash == hash && NoFailure(order, hash, accepts, i)
  {
    var rest := order[1..];
    assert forall j :: 0 < j < |order| ==> order[j] == rest[j - 1];
    if i == 0 {
      SearchAmong(rest, hash, accepts, order[0].node);
    } else {
      assert order[i] == rest[i - 1];
      SearchExact(rest, hash, accepts, i - 1);
      assert NoFailure(order, hash, accepts, i) <==>
             (order[0].hash == hash ==> accepts(order[0].node).Some?) && NoFailure(rest, hash, accepts, i - 1);
    }
  }

  /** The i-th item has the hash and is accepted; of those before it with the hash, none is, nor fails. */
  ghost predicate Hit<N>(order: seq<Item<N>>, hash: nat, accepts: N -> Option<bool>, i: nat) {
    && i < |order| && order[i].hash == hash && accepts(order[i].node) == Some(true)
    && forall j :: 0 <= j < i && order[j].hash == hash ==> accepts(order[j].node) == Some(false)
  }

  /** Whatever the comparison and the items, a search finds a hit, and nothing only if there is none. */
  lemma {:induction false} SearchIs<N>(order: seq<Item<N>>, hash: nat, accepts: N -> Option<bool>)
    ensures match Search(order, hash, accepts)
            case Some(node) => exists i: nat :: Hit(order, hash, accepts, i) && order[i].node == node
            case None => forall i: nat :: !Hit(order, hash, accepts, i)
  {
    if order != [] {
      var rest := order[1..];
      assert forall j :: 0 < j < |order| ==> order[j] == rest[j - 1];
      SearchIs(rest, hash, accepts);
      if order[0].hash == hash && accepts(order[0].node) != Some(false) {
        assert accepts(order[0].node) == Some(true) ==> Hit(order, hash, accepts, 0);
      } else {
        HitShift(order, hash, accepts);
        if Search(rest, hash, accepts).Some? {
          var i: nat :| Hit(rest, hash, accepts, i) && rest[i].node == Search(rest, hash, accepts).value;
          assert Hit(order, hash, accepts, i + 1) && order[i + 1].node == rest[i].node;
        } else {
          forall i: nat
            ensures !Hit(order, hash, accepts, i)
          {
            assert i > 0 ==> !Hit(rest, hash, accepts, i - 1);
          }
        }
      }
    }
  }

  /** An item that is passed over decides nothing. */
  lemma HitShift<N>(order: seq<Item<N>>, hash: nat, accepts: N -> Option<bool>)
    requires order != [] && (order[0].hash == hash ==> accepts(order[0].node) == Some(false))
    ensures !Hit(order, hash, accepts, 0)
    ensures forall i: nat :: Hit(order[1..], hash, accepts, i) <==> Hit(order, hash, accepts, i + 1)
  {
    var rest := order[1..];
    assert forall j :: 0 < j < |order| ==> order[j] == rest[j - 1];
    forall i: nat
      ensures Hit(rest, hash, accepts, i) <==> Hit(order, hash, accepts, i + 1)
    {
      if Hit(rest, hash, accepts, i) {
        forall j | 0 <= j < i + 1 && order[j].hash == hash
          ensures accepts(order[j].node) == Some(false)
        {
        }
      }
      if Hit(order, hash, accepts, i + 1) {
        forall j | 0 <= j < i && rest[j].hash == hash
          ensures accepts(rest[j].node) == Some(false)
        {
          assert rest[j] == order[j + 1];
        }
      }
    }
  }

  // ----- Changing the table -----

  /** Deleting a node from its bucket deletes it from what was inserted. */
  lemma {:induction false} DeleteCommutes<N>(order: seq<Item<N>>, node: N, b: nat, buckets: nat)
    requires buckets > 0
    ensures InBucket(Without(order, node), b, buckets) == Without(InBucket(order, b, buckets), node)
  {
    if order != [] {
      var (front, last) := (order[..|order| - 1], order[|order| - 1]);
      DeleteCommutes(front, node, b, buckets);
      assert InBucket(front, b, buckets) + [] == InBucket(front, b, buckets);
      assert Without(front, node) + [] == Without(front, node);
    }
  }

  lemma {:induction false} WithoutAbsent<N>(order: seq<Item<N>>, node: N)
    requires forall i :: 0 <= i < |order| ==> order[i].node != node
    ensures Without(order, node) == order
  {
    if order != [] {
      var (front, last) := (order[..|order| - 1], order[|order| - 1]);
      assert order[|order| - 1].node != node;
      WithoutAbsent(front, node);
      assert Without(order, node) == front + [last];
      assert front + [last] == order;
    }
  }
}

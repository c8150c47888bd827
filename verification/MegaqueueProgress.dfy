/**
 * What a thread of the megaqueue ring achieves while the others pause: a producer publishes any
 * message there is room for, a reader gets every published message whole, a deleter gives back
 * every message that was read.
 */
module MegaqueueProgress {
  import opened Arith
  import opened Megaqueue

  /** A run, and where it leads. */
  datatype Moment = Moment(run: seq<Event>, m: Machine, h: History)

  /** In a ring of `n` slots, the run is possible and leads there. */
  ghost predicate Reachable(n: nat, mode: Mode, contents: seq<seq<int>>, x: Moment) {
    |contents| == n && !mode.Mixed? && Reached(n, mode, contents, x.run, x.m, x.h)
  }

  lemma ReachableInv(n: nat, mode: Mode, contents: seq<seq<int>>, x: Moment)
    requires Reachable(n, mode, contents, x)
    ensures Inv(n, mode, x.m, x.h)
  {
    RunKeepsInv(n, mode, contents, x.run);
  }

  datatype Thread = TheProducer | TheReader | TheDeleter

  function ThreadOf(e: Event): Thread {
    match e
    case ProducerAsks => TheProducer
    case ProducerAdvances => TheProducer
    case ProducerWrites(_, _) => TheProducer
    case ProducerSteps => TheProducer
    case DeleterCalls => TheDeleter
    case DeleterSteps => TheDeleter
    case _ => TheReader
  }

  /** The one run goes on as the other, by events of one thread only. */
  ghost predicate Alone(t: Thread, x: Moment, y: Moment) {
    && |x.run| <= |y.run| && y.run[..|x.run|] == x.run
    && forall i :: |x.run| <= i < |y.run| ==> ThreadOf(y.run[i]) == t
  }

  lemma AloneAgain(t: Thread, x: Moment, y: Moment, z: Moment)
    requires Alone(t, x, y) && Alone(t, y, z)
    ensures Alone(t, x, z)
  {
    assert z.run[..|x.run|] == z.run[..|y.run|][..|x.run|];
    forall i | |x.run| <= i < |z.run|
      ensures ThreadOf(z.run[i]) == t
    {
      if i < |y.run| {
        assert z.run[i] == z.run[..|y.run|][i];
      }
    }
  }

  /** One event more. */
  lemma Go(n: nat, mode: Mode, contents: seq<seq<int>>, x: Moment, e: Event) returns (y: Moment)
    requires Reachable(n, mode, contents, x) && Enabled(mode, x.m, e)
    ensures Reachable(n, mode, contents, y) && Alone(ThreadOf(e), x, y)
    ensures y.m == Step(n, mode, x.m, e) && y.h == Record(x.m, x.h, e)
  {
    var run, m, h := Extend(n, mode, contents, x.run, x.m, x.h, e);
    y := Moment(run, m, h);
  }

  /** Two steps of a call. */
  lemma Go2(n: nat, mode: Mode, contents: seq<seq<int>>, x: Moment, e: Event, f: Event) returns (z: Moment)
    requires Reachable(n, mode, contents, x) && Enabled(mode, x.m, e) && ThreadOf(e) == ThreadOf(f)
    requires Enabled(mode, Step(n, mode, x.m, e), f)
    ensures Reachable(n, mode, contents, z) && Alone(ThreadOf(e), x, z)
    ensures var m := Step(n, mode, x.m, e);
            z.m == Step(n, mode, m, f) && z.h == Record(m, Record(x.m, x.h, e), f)
  {
    var y := Go(n, mode, contents, x, e);
    z := Go(n, mode, contents, y, f);
    AloneAgain(ThreadOf(e), x, y, z);
  }

  // ----- The producer -----

  predicate ProducerFree(m: Machine) {
    m.producer.PIdle? || m.producer.PHolding?
  }

  lemma HasRoom(n: nat, mode: Mode, contents: seq<seq<int>>, x: Moment)
    requires Reachable(n, mode, contents, x) && x.m.producer.FullLoadDelete? && x.h.heads < x.h.dels + n - 1
    ensures StepProducer(n, x.m) == x.m.(producer :=
              if x.m.producer.call.Next? then PHolding(x.m.head) else AdvanceLoadHead)
    ensures Record(x.m, x.h, ProducerSteps) == x.h
  {
    ReachableInv(n, mode, contents, x);
    ProducerAnswers(n, mode, x.m, x.h);
    WrapIsMod(x.h.heads, n);
  }

  /** The producer is given a slot when there is room. */
  lemma GetsSlot(n: nat, mode: Mode, contents: seq<seq<int>>, x: Moment) returns (y: Moment)
    requires Reachable(n, mode, contents, x) && ProducerFree(x.m) && x.h.heads < x.h.dels + n - 1
    ensures Reachable(n, mode, contents, y) && Alone(TheProducer, x, y)
    ensures y.h == x.h && y.m == x.m.(producer := PHolding(x.m.head))
  {
    y := Go2(n, mode, contents, x, ProducerAsks, ProducerSteps);
    var z := Go(n, mode, contents, y, ProducerSteps);
    AloneAgain(TheProducer, x, y, z);
    HasRoom(n, mode, contents, z);
    y := Go(n, mode, contents, z, ProducerSteps);
    AloneAgain(TheProducer, x, z, y);
  }

  /** The producer writes one word more. */
  lemma WritesWord(n: nat, mode: Mode, contents: seq<seq<int>>, x: Moment, k: nat, word: int) returns (y: Moment)
    requires Reachable(n, mode, contents, x) && x.m.producer == PHolding(x.m.head)
    requires x.m.head < |x.m.slots| && k < |x.m.slots[x.m.head]|
    ensures Reachable(n, mode, contents, y) && Alone(TheProducer, x, y)
    ensures y.m == x.m.(slots := x.m.slots[x.m.head := x.m.slots[x.m.head][k := word]])
    ensures y.h == x.h.(pending := y.h.pending)
  {
    y := Go(n, mode, contents, x, ProducerWrites(k, word));
  }

  /** The producer writes a message into the slot it holds, word by word. */
  lemma Writes(n: nat, mode: Mode, contents: seq<seq<int>>, x: Moment, message: seq<int>) returns (y: Moment)
    requires Reachable(n, mode, contents, x) && x.m.producer == PHolding(x.m.head)
    requires x.m.head < |x.m.slots| && |message| == |x.m.slots[x.m.head]|
    ensures Reachable(n, mode, contents, y) && Alone(TheProducer, x, y)
    ensures y.m == x.m.(slots := x.m.slots[x.m.head := message]) && y.h == x.h.(pending := y.h.pending)
  {
    y := WritesUpTo(n, mode, contents, x, message, |message|);
    assert y.m.slots[x.m.head] == message;
  }

  lemma {:induction false} WritesUpTo(
    n: nat, mode: Mode, contents: seq<seq<int>>, x: Moment, message: seq<int>, k: nat)
    returns (y: Moment)
    requires Reachable(n, mode, contents, x) && x.m.producer == PHolding(x.m.head)
    requires x.m.head < |x.m.slots| && k <= |message| == |x.m.slots[x.m.head]|
    ensures Reachable(n, mode, contents, y) && Alone(TheProducer, x, y)
    ensures y.m == x.m.(slots := x.m.slots[x.m.head := message[..k] + x.m.slots[x.m.head][k..]])
    ensures y.h == x.h.(pending := y.h.pending)
    decreases k
  {
    var at := x.m.head;
    if k == 0 {
      y := x;
      assert message[..0] + x.m.slots[at][0..] == x.m.slots[at];
    } else {
      var z := WritesUpTo(n, mode, contents, x, message, k - 1);
      y := WritesWord(n, mode, contents, z, k - 1, message[k - 1]);
      AloneAgain(TheProducer, x, z, y);
      OneWordMore(message, x.m.slots[at], k);
    }
  }

  lemma OneWordMore(message: seq<int>, words: seq<int>, k: nat)
    requires 0 < k <= |message| == |words|
    ensures (message[..k - 1] + words[k - 1..])[k - 1 := message[k - 1]] == message[..k] + words[k..]
  {
  }

  /** The producer's advance finds that there is room. */
  lemma MayPublish(n: nat, mode: Mode, contents: seq<seq<int>>, x: Moment) returns (y: Moment)
    requires Reachable(n, mode, contents, x) && ProducerFree(x.m) && x.h.heads < x.h.dels + n - 1
    ensures Reachable(n, mode, contents, y) && Alone(TheProducer, x, y)
    ensures y.h == x.h && y.m == x.m.(producer := AdvanceLoadHead)
  {
    var z := Go2(n, mode, contents, x, ProducerAdvances, ProducerSteps);
    HasRoom(n, mode, contents, z);
    y := Go(n, mode, contents, z, ProducerSteps);
    AloneAgain(TheProducer, x, z, y);
  }

  /** The producer publishes what is in the slot behind the last message. */
  lemma PublishesSlot(n: nat, mode: Mode, contents: seq<seq<int>>, x: Moment) returns (y: Moment)
    requires Reachable(n, mode, contents, x) && ProducerFree(x.m) && x.h.heads < x.h.dels + n - 1
    requires x.m.head < |x.m.slots|
    ensures Reachable(n, mode, contents, y) && Alone(TheProducer, x, y)
    ensures y.m == x.m.(producer := PIdle, head := y.m.head)
    ensures y.h == x.h.(heads := x.h.heads + 1, published := x.h.published + [x.m.slots[x.m.head]],
                        sent := y.h.sent, pending := y.h.pending)
  {
    var z := MayPublish(n, mode, contents, x);
    y := Go2(n, mode, contents, z, ProducerSteps, ProducerSteps);
    AloneAgain(TheProducer, x, z, y);
  }

  /** From wherever there is room, a producer alone can publish any message as the next one. */
  lemma ProducerPublishes(n: nat, mode: Mode, contents: seq<seq<int>>, x: Moment, message: seq<int>)
    returns (y: Moment)
    requires Reachable(n, mode, contents, x) && ProducerFree(x.m) && x.h.heads < x.h.dels + n - 1
    requires x.m.head < |x.m.slots| && |message| == |x.m.slots[x.m.head]|
    ensures Reachable(n, mode, contents, y) && Alone(TheProducer, x, y) && y.m.producer == PIdle
    ensures y.h.published == x.h.published + [message] && y.h.heads == x.h.heads + 1
    ensures y.h.tails == x.h.tails && y.h.dels == x.h.dels && y.h.delivered == x.h.delivered
    ensures y.m.reader == x.m.reader && y.m.deleter == x.m.deleter
  {
    y := GetsSlot(n, mode, contents, x);
    var z := Writes(n, mode, contents, y, message);
    AloneAgain(TheProducer, x, y, z);
    y := PublishesSlot(n, mode, contents, z);
    AloneAgain(TheProducer, x, z, y);
  }

  // ----- The reader -----

  predicate ReaderFree(m: Machine) {
    m.reader.RIdle? || m.reader.RHolding?
  }

  lemma HasMessage(n: nat, mode: Mode, contents: seq<seq<int>>, x: Moment)
    requires Reachable(n, mode, contents, x) && x.m.reader.EmptyLoadTail? && x.h.tails < x.h.readerSaw
    ensures StepReader(n, mode, x.m) == x.m.(reader :=
              if x.m.reader.call.Next? then RHolding(x.m.tail) else AdvanceLoadTail)
    ensures Record(x.m, x.h, ReaderSteps) == x.h
  {
    ReachableInv(n, mode, contents, x);
    ReaderAnswers(n, mode, x.m, x.h);
    WrapIsMod(x.h.tails, n);
  }

  /** The reader is given the next message when there is one. */
  lemma GetsMessage(n: nat, mode: Mode, contents: seq<seq<int>>, x: Moment) returns (y: Moment)
    requires Reachable(n, mode, contents, x) && ReaderFree(x.m) && x.h.tails < x.h.heads
    ensures Reachable(n, mode, contents, y) && Alone(TheReader, x, y)
    ensures y.h == x.h.(readerSaw := x.h.heads) && y.m == x.m.(reader := RHolding(x.m.tail))
  {
    y := Go2(n, mode, contents, x, ReaderAsks, ReaderSteps);
    var z := Go(n, mode, contents, y, ReaderSteps);
    AloneAgain(TheReader, x, y, z);
    HasMessage(n, mode, contents, z);
    y := Go(n, mode, contents, z, ReaderSteps);
    AloneAgain(TheReader, x, z, y);
  }

  /** The reader reads every word of the message it holds. */
  lemma Reads(n: nat, mode: Mode, contents: seq<seq<int>>, x: Moment) returns (y: Moment)
    requires Reachable(n, mode, contents, x) && x.m.reader.RHolding?
    ensures Reachable(n, mode, contents, y) && Alone(TheReader, x, y)
    ensures y.m == x.m && y.h == x.h.(partial := y.h.partial)
    ensures x.h.tails < |x.h.published| && y.h.partial == AsMap(x.h.published[x.h.tails])
  {
    ReachableInv(n, mode, contents, x);
    ReaderSlotCurrent(n, mode, x.m, x.h);
    var message := x.h.published[x.h.tails];
    y := ReadsUpTo(n, mode, contents, x, |message|);
    ReachableInv(n, mode, contents, y);
    WholePartial(y.h, message);
  }

  lemma {:induction false} ReadsUpTo(n: nat, mode: Mode, contents: seq<seq<int>>, x: Moment, k: nat)
    returns (y: Moment)
    requires Reachable(n, mode, contents, x) && x.m.reader.RHolding? && x.m.reader.slot < |x.m.slots|
    requires k <= |x.m.slots[x.m.reader.slot]|
    ensures Reachable(n, mode, contents, y) && Alone(TheReader, x, y)
    ensures y.m == x.m && y.h == x.h.(partial := y.h.partial)
    ensures forall w: nat :: w < k ==> w in y.h.partial
    decreases k
  {
    if k == 0 {
      y := x;
    } else {
      var z := ReadsUpTo(n, mode, contents, x, k - 1);
      y := Go(n, mode, contents, z, ReaderReads(k - 1));
      AloneAgain(TheReader, x, z, y);
    }
  }

  lemma WholePartial(h: History, message: seq<int>)
    requires ReceivedInOrder(h) && |h.delivered| < |h.published| && message == h.published[|h.delivered|]
    requires ReadThrough(h.partial, message)
    ensures h.partial == AsMap(message)
  {
    if h.partial != map[] {
      WholeMessage(h.partial, message);
    }
  }

  /** The reader's advance finds that there is a message. */
  lemma MayPass(n: nat, mode: Mode, contents: seq<seq<int>>, x: Moment) returns (y: Moment)
    requires Reachable(n, mode, contents, x) && ReaderFree(x.m) && x.h.tails < x.h.heads
    ensures Reachable(n, mode, contents, y) && Alone(TheReader, x, y)
    ensures y.h == x.h.(readerSaw := x.h.heads) && y.m == x.m.(reader := AdvanceLoadTail)
  {
    var z := Go2(n, mode, contents, x, ReaderAdvances, ReaderSteps);
    HasMessage(n, mode, contents, z);
    y := Go(n, mode, contents, z, ReaderSteps);
    AloneAgain(TheReader, x, z, y);
  }

  /** The reader passes the message it is at, and in the legacy way gives it back at once. */
  lemma Passes(n: nat, mode: Mode, contents: seq<seq<int>>, x: Moment) returns (y: Moment)
    requires Reachable(n, mode, contents, x) && ReaderFree(x.m) && x.h.tails < x.h.heads
    ensures Reachable(n, mode, contents, y) && Alone(TheReader, x, y) && y.m.reader == RIdle
    ensures y.h == x.h.(tails := x.h.tails + 1, delivered := x.h.delivered + [x.h.partial], partial := map[],
                        readerSaw := x.h.heads, dels := if mode.Split? then x.h.dels else x.h.dels + 1)
    ensures y.m.slots == x.m.slots && y.m.producer == x.m.producer && y.m.deleter == x.m.deleter
  {
    var z := MayPass(n, mode, contents, x);
    y := Go2(n, mode, contents, z, ReaderSteps, ReaderSteps);
    AloneAgain(TheReader, x, z, y);
    if !mode.Split? {
      z := y;
      y := Go(n, mode, contents, z, ReaderSteps);
      AloneAgain(TheReader, x, z, y);
    }
  }

  /** The reader gets the next message whole. */
  lemma GetsNext(n: nat, mode: Mode, contents: seq<seq<int>>, x: Moment) returns (y: Moment)
    requires Reachable(n, mode, contents, x) && ReaderFree(x.m) && x.h.tails < x.h.heads
    ensures Reachable(n, mode, contents, y) && Alone(TheReader, x, y) && y.m.reader == RIdle
    ensures x.h.tails < |x.h.published| && y.h.delivered == x.h.delivered + [AsMap(x.h.published[x.h.tails])]
    ensures y.h.tails == x.h.tails + 1 && y.h.heads == x.h.heads && y.h.published == x.h.published
    ensures y.m.producer == x.m.producer && y.m.deleter == x.m.deleter
  {
    y := GetsMessage(n, mode, contents, x);
    var z := Reads(n, mode, contents, y);
    AloneAgain(TheReader, x, y, z);
    y := Passes(n, mode, contents, z);
    AloneAgain(TheReader, x, z, y);
  }

  function AsMaps(messages: seq<seq<int>>): (r: seq<map<nat, int>>)
    ensures |r| == |messages| && forall i :: 0 <= i < |r| ==> r[i] == AsMap(messages[i])
  {
    seq(|messages|, i requires 0 <= i < |messages| => AsMap(messages[i]))
  }

  lemma OneMoreMap(messages: seq<seq<int>>, k: nat, before: seq<map<nat, int>>)
    requires k < |messages|
    ensures before + AsMaps(messages[k..]) == before + [AsMap(messages[k])] + AsMaps(messages[k + 1..])
  {
  }

  lemma InBounds(n: nat, mode: Mode, contents: seq<seq<int>>, x: Moment)
    requires Reachable(n, mode, contents, x)
    ensures x.h.dels <= x.h.tails <= x.h.heads == |x.h.published| && |x.h.delivered| == x.h.tails
  {
    ReachableInv(n, mode, contents, x);
  }

  /** From wherever it is between calls, a reader alone can get all published messages, whole and in order. */
  lemma {:induction false} ReaderGetsAll(n: nat, mode: Mode, contents: seq<seq<int>>, x: Moment) returns (y: Moment)
    requires Reachable(n, mode, contents, x) && ReaderFree(x.m)
    ensures Reachable(n, mode, contents, y) && Alone(TheReader, x, y)
    ensures x.h.tails <= x.h.heads == |x.h.published|
    ensures y.h.delivered == x.h.delivered + AsMaps(x.h.published[x.h.tails..])
    ensures y.h.tails == y.h.heads == x.h.heads && y.h.published == x.h.published
    ensures y.m.producer == x.m.producer && y.m.deleter == x.m.deleter
    decreases x.h.heads - x.h.tails
  {
    InBounds(n, mode, contents, x);
    y := x;
    if x.h.tails < x.h.heads {
      var z := GetsNext(n, mode, contents, x);
      y := ReaderGetsAll(n, mode, contents, z);
      AloneAgain(TheReader, x, z, y);
      OneMoreMap(x.h.published, x.h.tails, x.h.delivered);
    } else {
      assert x.h.delivered + AsMaps([]) == x.h.delivered;
    }
  }

  // ----- The deleter -----

  lemma HasRead(n: nat, mode: Mode, contents: seq<seq<int>>, x: Moment)
    requires Reachable(n, mode, contents, x) && x.m.deleter.CanLoadDelete? && x.h.dels < x.h.deleterSaw
    ensures StepDeleter(n, x.m) == x.m.(deleter := DeleteLoadDelete) && Record(x.m, x.h, DeleterSteps) == x.h
  {
    ReachableInv(n, mode, contents, x);
    DeleterAnswers(n, mode, x.m, x.h);
  }

  /** The deleter gives one message back. */
  lemma GivesOneBack(n: nat, contents: seq<seq<int>>, x: Moment) returns (y: Moment)
    requires Reachable(n, Split, contents, x) && x.m.deleter.DIdle? && x.h.dels < x.h.tails
    ensures Reachable(n, Split, contents, y) && Alone(TheDeleter, x, y) && y.m.deleter == DIdle
    ensures y.h == x.h.(dels := x.h.dels + 1, deleterSaw := x.h.tails)
    ensures y.m.producer == x.m.producer && y.m.reader == x.m.reader
  {
    var z := Go2(n, Split, contents, x, DeleterCalls, DeleterSteps);
    HasRead(n, Split, contents, z);
    y := Go(n, Split, contents, z, DeleterSteps);
    AloneAgain(TheDeleter, x, z, y);
    z := y;
    y := Go2(n, Split, contents, z, DeleterSteps, DeleterSteps);
    AloneAgain(TheDeleter, x, z, y);
  }

  /** A deleter alone can give back every message that was read. */
  lemma {:induction false} DeleterGivesAllBack(n: nat, contents: seq<seq<int>>, x: Moment) returns (y: Moment)
    requires Reachable(n, Split, contents, x) && x.m.deleter.DIdle?
    ensures Reachable(n, Split, contents, y) && Alone(TheDeleter, x, y)
    ensures y.h.dels == y.h.tails == x.h.tails && y.h == x.h.(dels := y.h.dels, deleterSaw := y.h.deleterSaw)
    ensures y.m.producer == x.m.producer && y.m.reader == x.m.reader
    decreases x.h.tails - x.h.dels
  {
    InBounds(n, Split, contents, x);
    y := x;
    if x.h.dels < x.h.tails {
      var z := GivesOneBack(n, contents, x);
      y := DeleterGivesAllBack(n, contents, z);
      AloneAgain(TheDeleter, x, z, y);
    }
  }

  // ----- All of them -----

  lemma OneMapMore(messages: seq<seq<int>>, message: seq<int>)
    ensures AsMaps(messages + [message]) == AsMaps(messages) + [AsMap(message)]
  {
  }

  /** A message sent is received: behind all that was published before it, and whole. */
  lemma SentIsReceived(n: nat, mode: Mode, contents: seq<seq<int>>, x: Moment, message: seq<int>) returns (y: Moment)
    requires Reachable(n, mode, contents, x) && ProducerFree(x.m) && ReaderFree(x.m)
    requires x.h.heads < x.h.dels + n - 1 && x.m.head < |x.m.slots| && |message| == |x.m.slots[x.m.head]|
    ensures Reachable(n, mode, contents, y) && x.h.tails <= |x.h.published|
    ensures y.h.delivered == x.h.delivered + AsMaps(x.h.published[x.h.tails..]) + [AsMap(message)]
  {
    InBounds(n, mode, contents, x);
    var z := ProducerPublishes(n, mode, contents, x, message);
    y := ReaderGetsAll(n, mode, contents, z);
    assert z.h.published[x.h.tails..] == x.h.published[x.h.tails..] + [message];
    OneMapMore(x.h.published[x.h.tails..], message);
  }
}

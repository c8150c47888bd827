/**
 * The megaqueue ring: one producer, one reader and one deleter that share three counters.
 * Every load and every store of a counter, and every access to one word of a slot, is a step of
 * its own, so that a run is any interleaving of those steps.
 */
module Megaqueue {
  import opened Arith

  /** How the reader gives slots back: apart from a deleter, in its own stead, or (forbidden) both. */
  datatype Mode = Split | Legacy | Mixed

  /** The call in progress; an advance remembers whether its thread held a slot when it began. */
  datatype Call = Next | Advance(held: bool)

  /** What the producer does next. */
  datatype Producer =
    | PIdle
    | PHolding(slot: nat)
    | NextLoadHead
    | FullLoadHead(call: Call, slot: nat)
    | FullLoadDelete(call: Call, slot: nat, head: nat)
    | AdvanceLoadHead
    | AdvanceStoreHead(offset: nat)

  /** What the reader does next. */
  datatype Reader =
    | RIdle
    | RHolding(slot: nat)
    | NextLoadTail
    | EmptyLoadHead(call: Call, slot: nat)
    | EmptyLoadTail(call: Call, slot: nat, head: nat)
    | AdvanceLoadTail
    | AdvanceStoreTail(offset: nat)
    | AdvanceStoreDelete(offset: nat)

  /** What the deleter does next. */
  datatype Deleter =
    | DIdle
    | CanLoadTail
    | CanLoadDelete(tail: nat)
    | DeleteLoadDelete
    | DeleteStoreDelete(offset: nat)

  /** The shared region and the three threads. */
  datatype Machine = Machine(
    head: nat, tail: nat, del: nat, slots: seq<seq<int>>,
    producer: Producer, reader: Reader, deleter: Deleter)

  datatype Event =
    | ProducerAsks | ProducerAdvances | ProducerWrites(word: nat, value: int) | ProducerSteps
    | ReaderAsks | ReaderAdvances | ReaderReads(word: nat) | ReaderSteps
    | DeleterCalls | DeleterSteps

  function Start(contents: seq<seq<int>>): Machine {
    Machine(0, 0, 0, contents, PIdle, RIdle, DIdle)
  }

  // ----- The steps -----

  /** Which steps can happen: calls between calls, slot accesses only while a slot is held. */
  predicate Enabled(mode: Mode, m: Machine, e: Event) {
    match e
    case ProducerAsks => m.producer.PIdle? || m.producer.PHolding?
    case ProducerAdvances => m.producer.PIdle? || m.producer.PHolding?
    case ProducerWrites(w, _) =>
      m.producer.PHolding? && m.producer.slot < |m.slots| && w < |m.slots[m.producer.slot]|
    case ProducerSteps => !m.producer.PIdle? && !m.producer.PHolding?
    case ReaderAsks => m.reader.RIdle? || m.reader.RHolding?
    case ReaderAdvances => m.reader.RIdle? || m.reader.RHolding?
    case ReaderReads(w) => m.reader.RHolding? && m.reader.slot < |m.slots| && w < |m.slots[m.reader.slot]|
    case ReaderSteps => !m.reader.RIdle? && !m.reader.RHolding?
    case DeleterCalls => mode != Legacy && m.deleter.DIdle?
    case DeleterSteps => !m.deleter.DIdle?
  }

  function StepProducer(n: nat, m: Machine): Machine
    requires n > 0
  {
    match m.producer
    case PIdle => m
    case PHolding(_) => m
    case NextLoadHead => m.(producer := FullLoadHead(Next, m.head))
    case FullLoadHead(call, slot) => m.(producer := FullLoadDelete(call, slot, m.head))
    case FullLoadDelete(call, slot, head) =>
      if m.del == Wrap(head + 1, n) then m.(producer := PIdle)
      else if call.Next? then m.(producer := PHolding(slot))
      else m.(producer := AdvanceLoadHead)
    case AdvanceLoadHead => m.(producer := AdvanceStoreHead(Wrap(m.head + 1, n)))
    case AdvanceStoreHead(offset) => m.(head := offset, producer := PIdle)
  }

  function StepReader(n: nat, mode: Mode, m: Machine): Machine
    requires n > 0
  {
    match m.reader
    case RIdle => m
    case RHolding(_) => m
    case NextLoadTail => m.(reader := EmptyLoadHead(Next, m.tail))
    case EmptyLoadHead(call, slot) => m.(reader := EmptyLoadTail(call, slot, m.head))
    case EmptyLoadTail(call, slot, head) =>
      if m.tail == head then m.(reader := RIdle)
      else if call.Next? then m.(reader := RHolding(slot))
      else m.(reader := AdvanceLoadTail)
    case AdvanceLoadTail => m.(reader := AdvanceStoreTail(Wrap(m.tail + 1, n)))
    case AdvanceStoreTail(offset) =>
      m.(tail := offset, reader := if mode.Split? then RIdle else AdvanceStoreDelete(offset))
    case AdvanceStoreDelete(offset) => m.(del := offset, reader := RIdle)
  }

  function StepDeleter(n: nat, m: Machine): Machine
    requires n > 0
  {
    match m.deleter
    case DIdle => m
    case CanLoadTail => m.(deleter := CanLoadDelete(m.tail))
    case CanLoadDelete(tail) => m.(deleter := if tail == m.del then DIdle else DeleteLoadDelete)
    case DeleteLoadDelete => m.(deleter := DeleteStoreDelete(Wrap(m.del + 1, n)))
    case DeleteStoreDelete(offset) => m.(del := offset, deleter := DIdle)
  }

  function Step(n: nat, mode: Mode, m: Machine, e: Event): Machine
    requires n > 0 && Enabled(mode, m, e)
  {
    match e
    case ProducerAsks => m.(producer := NextLoadHead)
    case ProducerAdvances => m.(producer := FullLoadHead(Advance(m.producer.PHolding?), 0))
    case ProducerWrites(w, v) =>
      m.(slots := m.slots[m.producer.slot := m.slots[m.producer.slot][w := v]])
    case ProducerSteps => StepProducer(n, m)
    case ReaderAsks => m.(reader := NextLoadTail)
    case ReaderAdvances => m.(reader := EmptyLoadHead(Advance(m.reader.RHolding?), 0))
    case ReaderReads(_) => m
    case ReaderSteps => StepReader(n, mode, m)
    case DeleterCalls => m.(deleter := CanLoadTail)
    case DeleterSteps => StepDeleter(n, m)
  }

  // ----- What has happened -----

  /**
   * The history of a run: how far each counter has come in all, what was published, what the
   * producer wrote into each message and has written into the next one, what the reader took out
   * of each message and has taken out of the current one.
   */
  datatype History = History(
    heads: nat, tails: nat, dels: nat,
    published: seq<seq<int>>, sent: seq<map<nat, int>>, pending: map<nat, int>,
    delivered: seq<map<nat, int>>, partial: map<nat, int>,
    readerSaw: nat, deleterSaw: nat)

  const NOTHING_YET := History(0, 0, 0, [], [], map[], [], map[], 0, 0)

  function Record(m: Machine, h: History, e: Event): History
    requires e.ReaderReads? ==> m.reader.RHolding? && m.reader.slot < |m.slots| && e.word < |m.slots[m.reader.slot]|
  {
    match e
    case ProducerWrites(w, v) => h.(pending := h.pending[w := v])
    case ProducerSteps =>
      if m.producer.AdvanceStoreHead? && m.head < |m.slots| then
        h.(heads := h.heads + 1, published := h.published + [m.slots[m.head]],
           sent := h.sent + [h.pending], pending := map[])
      else h
    case ReaderReads(w) => h.(partial := h.partial[w := m.slots[m.reader.slot][w]])
    case ReaderSteps =>
      if m.reader.EmptyLoadHead? then h.(readerSaw := h.heads)
      else if m.reader.AdvanceStoreTail? then
        h.(tails := h.tails + 1, delivered := h.delivered + [h.partial], partial := map[])
      else if m.reader.AdvanceStoreDelete? then h.(dels := h.dels + 1)
      else h
    case DeleterSteps =>
      if m.deleter.CanLoadTail? then h.(deleterSaw := h.tails)
      else if m.deleter.DeleteStoreDelete? then h.(dels := h.dels + 1)
      else h
    case _ => h
  }

  // ----- The invariant -----

  /** Every word taken out of a message is that message's word. */
  predicate Faithful(got: map<nat, int>, message: seq<int>) {
    forall w :: w in got ==> w < |message| && got[w] == message[w]
  }

  predicate Counters(n: nat, m: Machine, h: History) {
    && n > 0 && |m.slots| == n && |h.published| == h.heads && |h.delivered| == h.tails
    && h.dels <= h.tails <= h.heads <= h.dels + n - 1
    && m.head == Wrap(h.heads, n) && m.tail == Wrap(h.tails, n) && m.del == Wrap(h.dels, n)
  }

  /** Every message not yet given back is still in its slot. */
  predicate Contents(n: nat, m: Machine, h: History)
    requires Counters(n, m, h)
  {
    forall i {:trigger h.published[i]} :: h.dels <= i < h.heads ==> m.slots[Wrap(i, n)] == h.published[i]
  }

  predicate ReceivedInOrder(h: History) {
    && |h.delivered| <= |h.published|
    && (forall i {:trigger h.delivered[i]} :: 0 <= i < |h.delivered| ==> Faithful(h.delivered[i], h.published[i]))
    && (h.partial != map[] ==> |h.delivered| < |h.published| && Faithful(h.partial, h.published[|h.delivered|]))
  }

  /** The words of every message are those that the producer wrote, where it wrote any. */
  predicate AsWritten(n: nat, m: Machine, h: History)
    requires Counters(n, m, h)
  {
    && |h.sent| == |h.published|
    && (forall i {:trigger h.sent[i]} :: 0 <= i < |h.sent| ==> Faithful(h.sent[i], h.published[i]))
    && Faithful(h.pending, m.slots[m.head])
  }

  predicate ProducerOk(n: nat, m: Machine, h: History)
    requires n > 0
  {
    match m.producer
    case PIdle => true
    case PHolding(slot) => slot == m.head && h.heads < h.dels + n - 1
    case NextLoadHead => true
    case FullLoadHead(call, slot) => if call.Next? then slot == m.head else call.held ==> h.heads < h.dels + n - 1
    case FullLoadDelete(call, slot, head) =>
      head == m.head && if call.Next? then slot == m.head else call.held ==> h.heads < h.dels + n - 1
    case AdvanceLoadHead => h.heads < h.dels + n - 1
    case AdvanceStoreHead(offset) => offset == Wrap(h.heads + 1, n) && h.heads < h.dels + n - 1
  }

  predicate ReaderOk(n: nat, m: Machine, h: History)
    requires n > 0
  {
    match m.reader
    case RIdle => true
    case RHolding(slot) => slot == m.tail && h.tails < h.heads
    case NextLoadTail => true
    case EmptyLoadHead(call, slot) => if call.Next? then slot == m.tail else call.held ==> h.tails < h.heads
    case EmptyLoadTail(call, slot, head) =>
      && (if call.Next? then slot == m.tail else call.held ==> h.tails < h.readerSaw)
      && head == Wrap(h.readerSaw, n) && h.tails <= h.readerSaw <= h.heads && h.readerSaw <= h.tails + n - 1
    case AdvanceLoadTail => h.tails < h.heads
    case AdvanceStoreTail(offset) => offset == Wrap(h.tails + 1, n) && h.tails < h.heads
    case AdvanceStoreDelete(offset) => offset == m.tail && h.tails == h.dels + 1
  }

  predicate DeleterOk(n: nat, m: Machine, h: History)
    requires n > 0
  {
    match m.deleter
    case DIdle => true
    case CanLoadTail => true
    case CanLoadDelete(tail) =>
      tail == Wrap(h.deleterSaw, n) && h.dels <= h.deleterSaw <= h.tails && h.deleterSaw <= h.dels + n - 1
    case DeleteLoadDelete => h.dels < h.tails
    case DeleteStoreDelete(offset) => offset == Wrap(h.dels + 1, n) && h.dels < h.tails
  }

  /** Only one thread moves the delete counter. */
  predicate OneDeleter(mode: Mode, m: Machine, h: History) {
    match mode
    case Split => !m.reader.AdvanceStoreDelete?
    case Legacy => m.deleter.DIdle? && (m.reader.AdvanceStoreDelete? || h.tails == h.dels)
    case Mixed => false
  }

  predicate Inv(n: nat, mode: Mode, m: Machine, h: History) {
    && Counters(n, m, h) && Contents(n, m, h) && AsWritten(n, m, h) && ReceivedInOrder(h) && OneDeleter(mode, m, h)
    && ProducerOk(n, m, h) && ReaderOk(n, m, h) && DeleterOk(n, m, h)
  }

  // ----- The invariant holds along every run -----

  /** Publishing: the slot at the head becomes message number `heads`. */
  lemma Publishes(n: nat, mode: Mode, m: Machine, h: History)
    requires Inv(n, mode, m, h) && m.producer.AdvanceStoreHead?
    ensures Inv(n, mode, StepProducer(n, m), Record(m, h, ProducerSteps))
  {
    var h' := Record(m, h, ProducerSteps);
    assert h'.published == h.published + [m.slots[m.head]];
  }

  /** The producer's test says "full" exactly when all slots but one are in use. */
  lemma FullExact(n: nat, m: Machine, h: History)
    requires Counters(n, m, h)
    ensures m.del == Wrap(m.head + 1, n) <==> h.heads == h.dels + n - 1
    ensures Wrap(m.head + 1, n) == Wrap(h.heads + 1, n)
  {
    NextSlot(h.heads, n);
    if h.heads + 1 < h.dels + n {
      SameSlot(h.dels, h.heads + 1, n);
    }
  }

  lemma ProducerMoves(n: nat, mode: Mode, m: Machine, h: History)
    requires Inv(n, mode, m, h) && Enabled(mode, m, ProducerSteps)
    ensures Inv(n, mode, StepProducer(n, m), Record(m, h, ProducerSteps))
  {
    if m.producer.AdvanceStoreHead? {
      Publishes(n, mode, m, h);
    } else {
      ProducerTests(n, mode, m, h);
      ProducerLocal(n, mode, m, h, StepProducer(n, m).producer);
    }
  }

  /** A step that only moves the producer's program counter. */
  lemma ProducerLocal(n: nat, mode: Mode, m: Machine, h: History, p: Producer)
    requires Inv(n, mode, m, h) && ProducerOk(n, m.(producer := p), h)
    ensures Inv(n, mode, m.(producer := p), h)
  {
  }

  lemma ProducerTests(n: nat, mode: Mode, m: Machine, h: History)
    requires Inv(n, mode, m, h) && Enabled(mode, m, ProducerSteps) && !m.producer.AdvanceStoreHead?
    ensures var m' := StepProducer(n, m); m' == m.(producer := m'.producer) && ProducerOk(n, m', h)
  {
    FullExact(n, m, h);
  }

  /** While the producer holds a slot, no message that is unread or not given back is in it. */
  lemma ProducerSlotFree(n: nat, mode: Mode, m: Machine, h: History, i: nat)
    requires Inv(n, mode, m, h) && m.producer.PHolding? && h.dels <= i < h.heads
    ensures Wrap(i, n) != m.producer.slot
  {
    SameSlot(i, h.heads, n);
  }

  lemma ProducerWritesInv(n: nat, mode: Mode, m: Machine, h: History, w: nat, v: int)
    requires Inv(n, mode, m, h) && Enabled(mode, m, ProducerWrites(w, v))
    ensures Inv(n, mode, Step(n, mode, m, ProducerWrites(w, v)), Record(m, h, ProducerWrites(w, v)))
  {
    var slot := m.producer.slot;
    WriteIsKnown(h.pending, m.slots[slot], w, v);
    WrittenContents(n, mode, m, h, m.slots[slot][w := v]);
    WrittenInv(n, mode, m, h, m.slots[slot][w := v], h.pending[w := v]);
  }

  lemma WriteIsKnown(got: map<nat, int>, message: seq<int>, w: nat, v: int)
    requires Faithful(got, message) && w < |message|
    ensures Faithful(got[w := v], message[w := v])
  {
  }

  /** The slot that the producer holds may take any words. */
  lemma WrittenContents(n: nat, mode: Mode, m: Machine, h: History, words: seq<int>)
    requires Inv(n, mode, m, h) && m.producer.PHolding?
    ensures m.producer.slot < n && Contents(n, m.(slots := m.slots[m.producer.slot := words]), h)
  {
    var m' := m.(slots := m.slots[m.producer.slot := words]);
    forall i | h.dels <= i < h.heads
      ensures m'.slots[Wrap(i, n)] == h.published[i]
    {
      ProducerSlotFree(n, mode, m, h, i);
    }
  }

  lemma WrittenInv(n: nat, mode: Mode, m: Machine, h: History, words: seq<int>, pending: map<nat, int>)
    requires Inv(n, mode, m, h) && m.producer.PHolding? && m.producer.slot < n && Faithful(pending, words)
    requires Contents(n, m.(slots := m.slots[m.producer.slot := words]), h)
    ensures Inv(n, mode, m.(slots := m.slots[m.producer.slot := words]), h.(pending := pending))
  {
  }

  /** The reader's test says "empty" exactly when nothing was unread as it loaded the head. */
  lemma EmptyExact(n: nat, m: Machine, h: History)
    requires Counters(n, m, h) && ReaderOk(n, m, h) && m.reader.EmptyLoadTail?
    ensures m.tail == m.reader.head <==> h.readerSaw == h.tails
  {
    SameSlot(h.tails, h.readerSaw, n);
  }

  /** What the reader sees in its slot is the message that is next in order. */
  lemma ReaderSlotCurrent(n: nat, mode: Mode, m: Machine, h: History)
    requires Inv(n, mode, m, h) && m.reader.RHolding?
    ensures h.tails < h.heads && m.reader.slot < |m.slots| && m.slots[m.reader.slot] == h.published[h.tails]
  {
  }

  lemma ReaderReadsInv(n: nat, mode: Mode, m: Machine, h: History, w: nat)
    requires Inv(n, mode, m, h) && Enabled(mode, m, ReaderReads(w))
    ensures Inv(n, mode, m, Record(m, h, ReaderReads(w)))
  {
    ReaderSlotCurrent(n, mode, m, h);
    var h' := Record(m, h, ReaderReads(w));
    assert Faithful(h'.partial, h.published[h.tails]);
    assert ReceivedInOrder(h');
  }

  lemma DeliversInOrder(h: History, h': History)
    requires ReceivedInOrder(h) && |h.delivered| < |h.published|
    requires h'.published == h.published && h'.delivered == h.delivered + [h.partial] && h'.partial == map[]
    ensures ReceivedInOrder(h')
  {
    forall i | 0 <= i < |h'.delivered|
      ensures Faithful(h'.delivered[i], h'.published[i])
    {
      if i < |h.delivered| {
        assert h'.delivered[i] == h.delivered[i];
      }
    }
  }

  lemma Delivers(n: nat, mode: Mode, m: Machine, h: History)
    requires Inv(n, mode, m, h) && m.reader.AdvanceStoreTail?
    ensures Inv(n, mode, StepReader(n, mode, m), Record(m, h, ReaderSteps))
  {
    DeliversInOrder(h, Record(m, h, ReaderSteps));
  }

  lemma ReaderMoves(n: nat, mode: Mode, m: Machine, h: History)
    requires Inv(n, mode, m, h) && Enabled(mode, m, ReaderSteps)
    ensures Inv(n, mode, StepReader(n, mode, m), Record(m, h, ReaderSteps))
  {
    if m.reader.AdvanceStoreTail? {
      Delivers(n, mode, m, h);
    } else if m.reader.AdvanceStoreDelete? {
      GivesBack(n, mode, m, h);
    } else {
      ReaderTests(n, mode, m, h);
      var m', h' := StepReader(n, mode, m), Record(m, h, ReaderSteps);
      ReaderLocal(n, mode, m, h, m'.reader, h'.readerSaw);
    }
  }

  /** A step that only moves the reader's program counter and what it has seen. */
  lemma ReaderLocal(n: nat, mode: Mode, m: Machine, h: History, r: Reader, saw: nat)
    requires Inv(n, mode, m, h)
    requires ReaderOk(n, m.(reader := r), h.(readerSaw := saw)) && OneDeleter(mode, m.(reader := r), h)
    ensures Inv(n, mode, m.(reader := r), h.(readerSaw := saw))
  {
  }

  lemma ReaderTests(n: nat, mode: Mode, m: Machine, h: History)
    requires Inv(n, mode, m, h) && Enabled(mode, m, ReaderSteps)
    requires !m.reader.AdvanceStoreTail? && !m.reader.AdvanceStoreDelete?
    ensures var (m', h') := (StepReader(n, mode, m), Record(m, h, ReaderSteps));
            && m' == m.(reader := m'.reader) && h' == h.(readerSaw := h'.readerSaw)
            && ReaderOk(n, m', h') && OneDeleter(mode, m', h)
  {
    if m.reader.EmptyLoadTail? {
      EmptyExact(n, m, h);
    } else if m.reader.AdvanceLoadTail? {
      NextSlot(h.tails, n);
    }
  }

  lemma GivesBack(n: nat, mode: Mode, m: Machine, h: History)
    requires Inv(n, mode, m, h) && m.reader.AdvanceStoreDelete?
    ensures Inv(n, mode, StepReader(n, mode, m), Record(m, h, ReaderSteps))
  {
  }

  /** The deleter's test says "nothing to delete" exactly when nothing was as it loaded the tail. */
  lemma DeleteExact(n: nat, m: Machine, h: History)
    requires Counters(n, m, h) && DeleterOk(n, m, h) && m.deleter.CanLoadDelete?
    ensures m.deleter.tail == m.del <==> h.deleterSaw == h.dels
  {
    SameSlot(h.dels, h.deleterSaw, n);
  }

  lemma DeleterMoves(n: nat, mode: Mode, m: Machine, h: History)
    requires Inv(n, mode, m, h) && Enabled(mode, m, DeleterSteps)
    ensures Inv(n, mode, StepDeleter(n, m), Record(m, h, DeleterSteps))
  {
    if m.deleter.DeleteStoreDelete? {
      Deletes(n, mode, m, h);
    } else {
      DeleterTests(n, mode, m, h);
      var m', h' := StepDeleter(n, m), Record(m, h, DeleterSteps);
      DeleterLocal(n, mode, m, h, m'.deleter, h'.deleterSaw);
    }
  }

  /** A step that only moves the deleter's program counter and what it has seen. */
  lemma DeleterLocal(n: nat, mode: Mode, m: Machine, h: History, d: Deleter, saw: nat)
    requires Inv(n, mode, m, h)
    requires DeleterOk(n, m.(deleter := d), h.(deleterSaw := saw)) && OneDeleter(mode, m.(deleter := d), h)
    ensures Inv(n, mode, m.(deleter := d), h.(deleterSaw := saw))
  {
  }

  lemma DeleterTests(n: nat, mode: Mode, m: Machine, h: History)
    requires Inv(n, mode, m, h) && Enabled(mode, m, DeleterSteps) && !m.deleter.DeleteStoreDelete?
    ensures var (m', h') := (StepDeleter(n, m), Record(m, h, DeleterSteps));
            && m' == m.(deleter := m'.deleter) && h' == h.(deleterSaw := h'.deleterSaw)
            && DeleterOk(n, m', h') && OneDeleter(mode, m', h)
  {
    if m.deleter.CanLoadDelete? {
      DeleteExact(n, m, h);
    } else if m.deleter.DeleteLoadDelete? {
      NextSlot(h.dels, n);
    }
  }

  lemma Deletes(n: nat, mode: Mode, m: Machine, h: History)
    requires Inv(n, mode, m, h) && m.deleter.DeleteStoreDelete?
    ensures Inv(n, mode, StepDeleter(n, m), Record(m, h, DeleterSteps))
  {
    DeletedThreads(n, mode, m, h);
  }

  /** Giving a slot back disturbs no other thread. */
  lemma DeletedThreads(n: nat, mode: Mode, m: Machine, h: History)
    requires Inv(n, mode, m, h) && m.deleter.DeleteStoreDelete?
    ensures var (m', h') := (StepDeleter(n, m), Record(m, h, DeleterSteps));
            ProducerOk(n, m', h') && ReaderOk(n, m', h') && DeleterOk(n, m', h') && OneDeleter(mode, m', h')
  {
  }

  /** Every step of every thread keeps the invariant. */
  lemma StepKeepsInv(n: nat, mode: Mode, m: Machine, h: History, e: Event)
    requires Inv(n, mode, m, h) && Enabled(mode, m, e)
    ensures Inv(n, mode, Step(n, mode, m, e), Record(m, h, e))
  {
    match e
    case ProducerAsks => ProducerLocal(n, mode, m, h, Step(n, mode, m, e).producer);
    case ProducerAdvances => ProducerLocal(n, mode, m, h, Step(n, mode, m, e).producer);
    case ProducerWrites(w, v) => ProducerWritesInv(n, mode, m, h, w, v);
    case ProducerSteps => ProducerMoves(n, mode, m, h);
    case ReaderAsks => ReaderLocal(n, mode, m, h, Step(n, mode, m, e).reader, h.readerSaw);
    case ReaderAdvances => ReaderLocal(n, mode, m, h, Step(n, mode, m, e).reader, h.readerSaw);
    case ReaderReads(w) => ReaderReadsInv(n, mode, m, h, w);
    case ReaderSteps => ReaderMoves(n, mode, m, h);
    case DeleterCalls => DeleterLocal(n, mode, m, h, CanLoadTail, h.deleterSaw);
    case DeleterSteps => DeleterMoves(n, mode, m, h);
  }

  /**
   * What the last load of a producer's test decides: there is room exactly when fewer than all
   * slots but one are in use.  Then a call for a slot gets the one behind the last message, and an
   * advance goes on to publish; otherwise the producer is told "full" and nothing has changed.
   */
  lemma ProducerAnswers(n: nat, mode: Mode, m: Machine, h: History)
    requires Inv(n, mode, m, h) && m.producer.FullLoadDelete?
    ensures Record(m, h, ProducerSteps) == h
    ensures StepProducer(n, m) == m.(producer :=
              if h.heads >= h.dels + n - 1 then PIdle
              else if m.producer.call.Next? then PHolding(h.heads % n) else AdvanceLoadHead)
  {
    FullExact(n, m, h);
    WrapIsMod(h.heads, n);
  }

  /**
   * What the last load of a reader's test decides: there is a message exactly when one was unread
   * as the reader loaded the head.  Then a call for a slot gets that of the next message, and an
   * advance goes on to pass it; otherwise the reader is told "empty" and nothing has changed.
   */
  lemma ReaderAnswers(n: nat, mode: Mode, m: Machine, h: History)
    requires Inv(n, mode, m, h) && m.reader.EmptyLoadTail?
    ensures Record(m, h, ReaderSteps) == h
    ensures StepReader(n, mode, m) == m.(reader :=
              if h.readerSaw <= h.tails then RIdle
              else if m.reader.call.Next? then RHolding(h.tails % n) else AdvanceLoadTail)
  {
    EmptyExact(n, m, h);
    WrapIsMod(h.tails, n);
  }

  /** A deletion goes on exactly when a message was read and not given back as the deleter loaded the tail. */
  lemma DeleterAnswers(n: nat, mode: Mode, m: Machine, h: History)
    requires Inv(n, mode, m, h) && m.deleter.CanLoadDelete?
    ensures Record(m, h, DeleterSteps) == h
    ensures StepDeleter(n, m) == m.(deleter := if h.deleterSaw <= h.dels then DIdle else DeleteLoadDelete)
  {
    DeleteExact(n, m, h);
  }

  /** A producer that was given a slot never finds the ring full when it advances past it. */
  lemma HeldAdvanceSucceeds(n: nat, mode: Mode, m: Machine, h: History)
    requires Inv(n, mode, m, h) && m.producer.FullLoadDelete? && m.producer.call == Advance(true)
    ensures StepProducer(n, m).producer == AdvanceLoadHead
  {
    FullExact(n, m, h);
  }

  /** A reader that was given a slot never finds the ring empty when it advances past it. */
  lemma HeldReadAdvanceSucceeds(n: nat, mode: Mode, m: Machine, h: History)
    requires Inv(n, mode, m, h) && m.reader.EmptyLoadTail? && m.reader.call == Advance(true)
    ensures StepReader(n, mode, m).reader == AdvanceLoadTail
  {
    EmptyExact(n, m, h);
  }

  // ----- Runs -----

  /** Every event of the run was possible when it happened, starting from an empty queue. */
  ghost predicate Possible(n: nat, mode: Mode, contents: seq<seq<int>>, run: seq<Event>)
    requires n > 0
    decreases |run|, 0
  {
    run != [] ==>
      && Possible(n, mode, contents, run[..|run| - 1])
      && Enabled(mode, End(n, mode, contents, run[..|run| - 1]).0, run[|run| - 1])
  }

  /** Where the run leads, with its history. */
  ghost function End(n: nat, mode: Mode, contents: seq<seq<int>>, run: seq<Event>): (Machine, History)
    requires n > 0 && Possible(n, mode, contents, run)
    decreases |run|, 1
  {
    if run == [] then (Start(contents), NOTHING_YET)
    else
      var ((m, h), e) := (End(n, mode, contents, run[..|run| - 1]), run[|run| - 1]);
      (Step(n, mode, m, e), Record(m, h, e))
  }

  lemma {:induction false} RunKeepsInv(n: nat, mode: Mode, contents: seq<seq<int>>, run: seq<Event>)
    requires n > 0 && |contents| == n && !mode.Mixed? && Possible(n, mode, contents, run)
    ensures var (m, h) := End(n, mode, contents, run); Inv(n, mode, m, h)
    decreases |run|
  {
    if run != [] {
      var front := run[..|run| - 1];
      RunKeepsInv(n, mode, contents, front);
      var (m, h) := End(n, mode, contents, front);
      StepKeepsInv(n, mode, m, h, run[|run| - 1]);
    }
  }

  /** Under every interleaving the counters stay in order and never more than a ring apart. */
  lemma EveryRunBounded(n: nat, mode: Mode, contents: seq<seq<int>>, run: seq<Event>)
    requires n > 0 && |contents| == n && !mode.Mixed? && Possible(n, mode, contents, run)
    ensures var (m, h) := End(n, mode, contents, run);
            && h.dels <= h.tails <= h.heads <= h.dels + n - 1
            && m.head == h.heads % n && m.tail == h.tails % n && m.del == h.dels % n
  {
    RunKeepsInv(n, mode, contents, run);
    var (m, h) := End(n, mode, contents, run);
    WrapIsMod(h.heads, n);
    WrapIsMod(h.tails, n);
    WrapIsMod(h.dels, n);
  }

  /**
   * Under every interleaving the reader gets the published messages in order: what it took out
   * of its i-th message are words of the i-th published message, at their places, and the words
   * that the producer wrote there.  A slot that the producer may write never holds a message that
   * has not been read and given back.
   */
  lemma EveryRunDelivers(n: nat, mode: Mode, contents: seq<seq<int>>, run: seq<Event>)
    requires n > 0 && |contents| == n && !mode.Mixed? && Possible(n, mode, contents, run)
    ensures var (m, h) := End(n, mode, contents, run);
            && |h.delivered| == h.tails && |h.published| == |h.sent| == h.heads && ReceivedInOrder(h)
            && (forall i :: 0 <= i < |h.delivered| ==> Agree(h.delivered[i], h.sent[i]))
            && (m.producer.PHolding? ==> forall i :: h.dels <= i < h.heads ==> Wrap(i, n) != m.producer.slot)
            && (m.reader.RHolding? ==> h.tails < h.heads && m.reader.slot < |m.slots|
                                       && m.slots[m.reader.slot] == h.published[h.tails])
            && (forall i :: 0 <= i < |h.delivered| && ReadThrough(h.delivered[i], h.published[i]) ==>
                  h.delivered[i] == AsMap(h.published[i]))
  {
    RunKeepsInv(n, mode, contents, run);
    var (m, h) := End(n, mode, contents, run);
    forall i | 0 <= i < |h.delivered| && ReadThrough(h.delivered[i], h.published[i])
      ensures h.delivered[i] == AsMap(h.published[i])
    {
      WholeMessage(h.delivered[i], h.published[i]);
    }
    if m.producer.PHolding? {
      forall i | h.dels <= i < h.heads
        ensures Wrap(i, n) != m.producer.slot
      {
        ProducerSlotFree(n, mode, m, h, i);
      }
    }
  }

  /** What was read is what was written, wherever something was. */
  predicate Agree(got: map<nat, int>, written: map<nat, int>) {
    forall w :: w in got && w in written ==> got[w] == written[w]
  }

  /** The reader has taken out every word of the message. */
  predicate ReadThrough(got: map<nat, int>, message: seq<int>) {
    forall w :: 0 <= w < |message| ==> w in got
  }

  function AsMap(message: seq<int>): map<nat, int> {
    map w: nat | w < |message| :: message[w]
  }

  /** A reader that takes out every word has the whole message. */
  lemma WholeMessage(got: map<nat, int>, message: seq<int>)
    requires Faithful(got, message) && ReadThrough(got, message)
    ensures got == AsMap(message)
  {
  }

  // ----- Why read_advance and delete_advance must not be used together -----

  ghost predicate Reached(n: nat, mode: Mode, contents: seq<seq<int>>, run: seq<Event>, m: Machine, h: History) {
    n > 0 && Possible(n, mode, contents, run) && End(n, mode, contents, run) == (m, h)
  }

  /** One more event at the end of a run. */
  lemma Extend(n: nat, mode: Mode, contents: seq<seq<int>>, run: seq<Event>, m: Machine, h: History, e: Event)
    returns (longer: seq<Event>, m': Machine, h': History)
    requires Reached(n, mode, contents, run, m, h) && Enabled(mode, m, e)
    ensures m' == Step(n, mode, m, e) && h' == Record(m, h, e) && Reached(n, mode, contents, longer, m', h')
    ensures longer == run + [e]
  {
    longer, m', h' := run + [e], Step(n, mode, m, e), Record(m, h, e);
    assert longer[..|longer| - 1] == run;
  }

  /** A run in which one message is published. */
  lemma OnePublished(n: nat, contents: seq<seq<int>>) returns (run: seq<Event>, h: History)
    requires n >= 2 && |contents| == n
    ensures Reached(n, Mixed, contents, run, Machine(1, 0, 0, contents, PIdle, RIdle, DIdle), h)
    ensures h.dels == 0 && h.tails == 0
  {
    var m;
    assert Wrap(1, n) == 1;
    run, m, h := [], Start(contents), NOTHING_YET;
    run, m, h := Extend(n, Mixed, contents, run, m, h, ProducerAdvances);
    run, m, h := Extend(n, Mixed, contents, run, m, h, ProducerSteps);
    run, m, h := Extend(n, Mixed, contents, run, m, h, ProducerSteps);
    run, m, h := Extend(n, Mixed, contents, run, m, h, ProducerSteps);
    run, m, h := Extend(n, Mixed, contents, run, m, h, ProducerSteps);
  }

  /** A run in which one message is published and the reader has moved the tail past it. */
  lemma OneRead(n: nat, contents: seq<seq<int>>) returns (run: seq<Event>, h: History)
    requires n >= 2 && |contents| == n
    ensures Reached(n, Mixed, contents, run, Machine(1, 1, 0, contents, PIdle, AdvanceStoreDelete(1), DIdle), h)
    ensures h.dels == 0 && h.tails == 1
  {
    var m := Machine(1, 0, 0, contents, PIdle, RIdle, DIdle);
    assert Wrap(1, n) == 1;
    run, h := OnePublished(n, contents);
    run, m, h := Extend(n, Mixed, contents, run, m, h, ReaderAdvances);
    run, m, h := Extend(n, Mixed, contents, run, m, h, ReaderSteps);
    run, m, h := Extend(n, Mixed, contents, run, m, h, ReaderSteps);
    run, m, h := Extend(n, Mixed, contents, run, m, h, ReaderSteps);
    run, m, h := Extend(n, Mixed, contents, run, m, h, ReaderSteps);
  }

  /**
   * With both at work the counters can cross: the deleter decides to delete, the reader then
   * gives that slot back itself, and the deleter goes on to delete a slot that was never read.
   */
  lemma MixedCrosses(n: nat, contents: seq<seq<int>>) returns (run: seq<Event>, m: Machine, h: History)
    requires n >= 2 && |contents| == n
    ensures Reached(n, Mixed, contents, run, m, h) && h.dels > h.tails
  {
    m := Machine(1, 1, 0, contents, PIdle, AdvanceStoreDelete(1), DIdle);
    run, h := OneRead(n, contents);
    run, m, h := Extend(n, Mixed, contents, run, m, h, DeleterCalls);
    run, m, h := Extend(n, Mixed, contents, run, m, h, DeleterSteps);
    run, m, h := Extend(n, Mixed, contents, run, m, h, DeleterSteps);
    run, m, h := Extend(n, Mixed, contents, run, m, h, ReaderSteps);
    assert m == Machine(1, 1, 1, contents, PIdle, RIdle, DeleteLoadDelete);
    run, m, h := Extend(n, Mixed, contents, run, m, h, DeleterSteps);
    run, m, h := Extend(n, Mixed, contents, run, m, h, DeleterSteps);
  }

  /** The unwrapped counters are in order and less than a ring apart. */
  predicate Bounded(n: nat, h: History) {
    h.dels <= h.tails <= h.heads <= h.dels + n - 1
  }

  /** If the run is possible, it keeps the counters in bounds. */
  ghost predicate KeepsBounds(n: nat, mode: Mode, contents: seq<seq<int>>, run: seq<Event>) {
    n > 0 && Possible(n, mode, contents, run) ==> Bounded(n, End(n, mode, contents, run).1)
  }

  /** In a ring that can hold a message, all runs keep the counters in bounds exactly when the two are not mixed. */
  lemma BoundedExactly(n: nat, mode: Mode, contents: seq<seq<int>>)
    requires n >= 2 && |contents| == n
    ensures (forall run :: KeepsBounds(n, mode, contents, run)) <==> !mode.Mixed?
  {
    if mode.Mixed? {
      var run, m, h := MixedCrosses(n, contents);
      assert !KeepsBounds(n, mode, contents, run);
    } else {
      forall run
        ensures KeepsBounds(n, mode, contents, run)
      {
        if Possible(n, mode, contents, run) {
          EveryRunBounded(n, mode, contents, run);
        }
      }
    }
  }
}

/**
 * Whole calls on the megaqueue ring: what a call answers when any steps of the other threads come
 * between its own, and how far a thread gets that is left alone.
 */
module MegaqueueCalls {
  import opened Arith
  import opened Megaqueue

  // ----- Calls and their steps -----

  predicate IsCall(e: Event) {
    !e.ProducerWrites? && !e.ReaderReads? && !e.ProducerSteps? && !e.ReaderSteps? && !e.DeleterSteps?
  }

  /** A step of the thread that makes this call. */
  function OwnStep(call: Event): Event
    requires IsCall(call)
  {
    match call
    case ProducerAsks => ProducerSteps
    case ProducerAdvances => ProducerSteps
    case ReaderAsks => ReaderSteps
    case ReaderAdvances => ReaderSteps
    case DeleterCalls => DeleterSteps
  }

  /** Whether the thread that makes this call begins another one. */
  predicate CallsAgain(call: Event, e: Event)
    requires IsCall(call)
  {
    IsCall(e) && OwnStep(e) == OwnStep(call)
  }

  /** How many of the events from `from` on are `e`. */
  function Count(run: seq<Event>, from: nat, e: Event): nat {
    if |run| <= from then 0 else Count(run[..|run| - 1], from, e) + if run[|run| - 1] == e then 1 else 0
  }

  /** A possible run with a call at `at` whose thread does not begin another call after it. */
  ghost predicate During(n: nat, mode: Mode, contents: seq<seq<int>>, run: seq<Event>, at: nat) {
    && n > 0 && |contents| == n && !mode.Mixed? && Possible(n, mode, contents, run)
    && at < |run| && IsCall(run[at]) && forall i :: at < i < |run| ==> !CallsAgain(run[at], run[i])
  }

  /** The run ends with the k-th step of the call's thread. */
  ghost predicate EndsWithStep(n: nat, mode: Mode, contents: seq<seq<int>>, run: seq<Event>, at: nat, k: nat) {
    && During(n, mode, contents, run, at)
    && run[|run| - 1] == OwnStep(run[at]) && Count(run, at + 1, OwnStep(run[at])) == k
  }

  /** Where the thread is after `k` steps of the call, and that the call has no more steps than that. */
  predicate Stage(mode: Mode, m: Machine, call: Event, k: nat)
    requires IsCall(call)
  {
    match call
    case ProducerAsks => AskStage(m.producer, k)
    case ProducerAdvances => AdvanceStage(m.producer, k)
    case ReaderAsks => ReadAskStage(m.reader, k)
    case ReaderAdvances => ReadAdvanceStage(mode, m.reader, k)
    case DeleterCalls => DeleteStage(m.deleter, k)
  }

  predicate AskStage(p: Producer, k: nat) {
    || (k == 0 && p.NextLoadHead?)
    || (k == 1 && p.FullLoadHead? && p.call.Next?)
    || (k == 2 && p.FullLoadDelete? && p.call.Next?)
    || (k == 3 && (p.PIdle? || p.PHolding?))
  }

  predicate AdvanceStage(p: Producer, k: nat) {
    || (k == 0 && p.FullLoadHead? && p.call.Advance?)
    || (k == 1 && p.FullLoadDelete? && p.call.Advance?)
    || (k == 2 && (p.PIdle? || p.AdvanceLoadHead?))
    || (k == 3 && p.AdvanceStoreHead?)
    || (k == 4 && p.PIdle?)
  }

  predicate ReadAskStage(r: Reader, k: nat) {
    || (k == 0 && r.NextLoadTail?)
    || (k == 1 && r.EmptyLoadHead? && r.call.Next?)
    || (k == 2 && r.EmptyLoadTail? && r.call.Next?)
    || (k == 3 && (r.RIdle? || r.RHolding?))
  }

  predicate ReadAdvanceStage(mode: Mode, r: Reader, k: nat) {
    || (k == 0 && r.EmptyLoadHead? && r.call.Advance?)
    || (k == 1 && r.EmptyLoadTail? && r.call.Advance?)
    || (k == 2 && (r.RIdle? || r.AdvanceLoadTail?))
    || (k == 3 && r.AdvanceStoreTail?)
    || (k == 4 && if mode.Split? then r.RIdle? else r.AdvanceStoreDelete?)
    || (k == 5 && !mode.Split? && r.RIdle?)
  }

  predicate DeleteStage(d: Deleter, k: nat) {
    || (k == 0 && d.CanLoadTail?)
    || (k == 1 && d.CanLoadDelete?)
    || (k == 2 && (d.DIdle? || d.DeleteLoadDelete?))
    || (k == 3 && d.DeleteStoreDelete?)
    || (k == 4 && d.DIdle?)
  }

  lemma StageStep(n: nat, mode: Mode, m: Machine, call: Event, k: nat, e: Event)
    requires n > 0 && Enabled(mode, m, e) && IsCall(call) && !CallsAgain(call, e) && Stage(mode, m, call, k)
    ensures Stage(mode, Step(n, mode, m, e), call, if e == OwnStep(call) then k + 1 else k)
  {
  }

  lemma DuringFront(n: nat, mode: Mode, contents: seq<seq<int>>, run: seq<Event>, at: nat)
    requires During(n, mode, contents, run, at) && at < |run| - 1
    ensures During(n, mode, contents, run[..|run| - 1], at) && !CallsAgain(run[at], run[|run| - 1])
  {
  }

  /** Whatever the other threads do, a call goes through its stages, and has at most five steps. */
  lemma {:induction false} CallStages(n: nat, mode: Mode, contents: seq<seq<int>>, run: seq<Event>, at: nat)
    requires During(n, mode, contents, run, at)
    ensures Stage(mode, End(n, mode, contents, run).0, run[at], Count(run, at + 1, OwnStep(run[at])))
    decreases |run|
  {
    var front := run[..|run| - 1];
    var m := End(n, mode, contents, front).0;
    if at < |front| {
      DuringFront(n, mode, contents, run, at);
      CallStages(n, mode, contents, front, at);
      StageStep(n, mode, m, run[at], Count(front, at + 1, OwnStep(run[at])), run[|run| - 1]);
    }
  }

  /** Before the last event the call's thread was one stage earlier, and all was well. */
  lemma BeforeStep(n: nat, mode: Mode, contents: seq<seq<int>>, run: seq<Event>, at: nat, k: nat)
    returns (m: Machine, h: History)
    requires EndsWithStep(n, mode, contents, run, at, k)
    ensures k > 0 && Possible(n, mode, contents, run[..|run| - 1])
    ensures (m, h) == End(n, mode, contents, run[..|run| - 1])
    ensures Inv(n, mode, m, h) && Stage(mode, m, run[at], k - 1) && Enabled(mode, m, OwnStep(run[at]))
    ensures End(n, mode, contents, run) == (Step(n, mode, m, OwnStep(run[at])), Record(m, h, OwnStep(run[at])))
  {
    var front := run[..|run| - 1];
    m, h := End(n, mode, contents, front).0, End(n, mode, contents, front).1;
    RunKeepsInv(n, mode, contents, front);
    CallStages(n, mode, contents, front, at);
  }

  // ----- What the calls answer -----

  /** Asking for a slot gives the one behind the last message exactly when there was room, and else "full". */
  lemma AskAnswer(n: nat, mode: Mode, contents: seq<seq<int>>, run: seq<Event>, at: nat)
    requires EndsWithStep(n, mode, contents, run, at, 3) && run[at] == ProducerAsks
    ensures var (m, h) := End(n, mode, contents, run);
            m.producer == if h.heads < h.dels + n - 1 then PHolding(h.heads % n) else PIdle
  {
    var m, h := BeforeStep(n, mode, contents, run, at, 3);
    ProducerAnswers(n, mode, m, h);
  }

  /** An advance finds the ring full exactly when there was no room; then it is over after two steps. */
  lemma AdvanceAnswer(n: nat, mode: Mode, contents: seq<seq<int>>, run: seq<Event>, at: nat)
    requires EndsWithStep(n, mode, contents, run, at, 2) && run[at] == ProducerAdvances
    ensures var (m, h) := End(n, mode, contents, run);
            m.producer == if h.heads < h.dels + n - 1 then AdvanceLoadHead else PIdle
  {
    var m, h := BeforeStep(n, mode, contents, run, at, 2);
    ProducerAnswers(n, mode, m, h);
  }

  /** Otherwise its fourth step publishes one message: what is in the slot behind the last one. */
  lemma AdvancePublishes(n: nat, mode: Mode, contents: seq<seq<int>>, run: seq<Event>, at: nat)
    requires EndsWithStep(n, mode, contents, run, at, 4) && run[at] == ProducerAdvances
    ensures Possible(n, mode, contents, run[..|run| - 1])
    ensures var ((m, h), (m', h')) := (End(n, mode, contents, run[..|run| - 1]), End(n, mode, contents, run));
            && h.heads % n < |m.slots| && m'.producer == PIdle && m'.head == h'.heads % n
            && h' == h.(heads := h.heads + 1, published := h.published + [m.slots[h.heads % n]],
                        sent := h.sent + [h.pending], pending := map[])
  {
    var m, h := BeforeStep(n, mode, contents, run, at, 4);
    StorePublishes(n, mode, m, h);
  }

  lemma StorePublishes(n: nat, mode: Mode, m: Machine, h: History)
    requires Inv(n, mode, m, h) && m.producer.AdvanceStoreHead?
    ensures var (m', h') := (StepProducer(n, m), Record(m, h, ProducerSteps));
            && h.heads % n < |m.slots| && m'.producer == PIdle && m'.head == h'.heads % n
            && h' == h.(heads := h.heads + 1, published := h.published + [m.slots[h.heads % n]],
                        sent := h.sent + [h.pending], pending := map[])
  {
    WrapIsMod(h.heads, n);
    WrapIsMod(h.heads + 1, n);
  }

  /**
   * Asking for a message gives the slot of the next one exactly when one was unread as the head
   * was loaded, and else "empty".
   */
  lemma ReadAskAnswer(n: nat, mode: Mode, contents: seq<seq<int>>, run: seq<Event>, at: nat)
    requires EndsWithStep(n, mode, contents, run, at, 3) && run[at] == ReaderAsks
    ensures var (m, h) := End(n, mode, contents, run);
            m.reader == if h.tails < h.readerSaw then RHolding(h.tails % n) else RIdle
  {
    var m, h := BeforeStep(n, mode, contents, run, at, 3);
    ReaderAnswers(n, mode, m, h);
  }

  /** What a reader sees of the head is how many messages were published when it loaded it. */
  lemma ReadSees(n: nat, mode: Mode, contents: seq<seq<int>>, run: seq<Event>, at: nat)
    requires at < |run| && (run[at] == ReaderAsks || run[at] == ReaderAdvances)
    requires EndsWithStep(n, mode, contents, run, at, if run[at].ReaderAsks? then 2 else 1)
    ensures var h := End(n, mode, contents, run).1; h.readerSaw == h.heads
  {
    var m, h := BeforeStep(n, mode, contents, run, at, if run[at].ReaderAsks? then 2 else 1);
  }

  /** Passing a message finds the ring empty exactly when none was unread; then it is over after two steps. */
  lemma ReadAdvanceAnswer(n: nat, mode: Mode, contents: seq<seq<int>>, run: seq<Event>, at: nat)
    requires EndsWithStep(n, mode, contents, run, at, 2) && run[at] == ReaderAdvances
    ensures var (m, h) := End(n, mode, contents, run);
            m.reader == if h.tails < h.readerSaw then AdvanceLoadTail else RIdle
  {
    var m, h := BeforeStep(n, mode, contents, run, at, 2);
    ReaderAnswers(n, mode, m, h);
  }

  /** Otherwise its fourth step ends one message. */
  lemma ReadAdvancePasses(n: nat, mode: Mode, contents: seq<seq<int>>, run: seq<Event>, at: nat)
    requires EndsWithStep(n, mode, contents, run, at, 4) && run[at] == ReaderAdvances
    ensures Possible(n, mode, contents, run[..|run| - 1])
    ensures var (h, (m', h')) := (End(n, mode, contents, run[..|run| - 1]).1, End(n, mode, contents, run));
            && m'.reader == (if mode.Split? then RIdle else AdvanceStoreDelete(h'.tails % n))
            && m'.tail == h'.tails % n
            && h' == h.(tails := h.tails + 1, delivered := h.delivered + [h.partial], partial := map[])
  {
    var m, h := BeforeStep(n, mode, contents, run, at, 4);
    WrapIsMod(h.tails + 1, n);
  }

  /** In the legacy way of reading, its fifth step gives that message's slot back. */
  lemma ReadAdvanceGivesBack(n: nat, mode: Mode, contents: seq<seq<int>>, run: seq<Event>, at: nat)
    requires EndsWithStep(n, mode, contents, run, at, 5) && run[at] == ReaderAdvances
    ensures mode.Legacy? && Possible(n, mode, contents, run[..|run| - 1])
    ensures var (h, (m', h')) := (End(n, mode, contents, run[..|run| - 1]).1, End(n, mode, contents, run));
            m'.reader == RIdle && m'.del == h'.dels % n && h' == h.(dels := h.dels + 1) && h'.dels == h'.tails
  {
    var m, h := BeforeStep(n, mode, contents, run, at, 5);
    WrapIsMod(h.dels + 1, n);
  }

  /** A deletion goes on exactly when a message was read and not given back as the tail was loaded. */
  lemma DeleteAnswer(n: nat, mode: Mode, contents: seq<seq<int>>, run: seq<Event>, at: nat)
    requires EndsWithStep(n, mode, contents, run, at, 2) && run[at] == DeleterCalls
    ensures var (m, h) := End(n, mode, contents, run);
            m.deleter == if h.dels < h.deleterSaw then DeleteLoadDelete else DIdle
  {
    var m, h := BeforeStep(n, mode, contents, run, at, 2);
    DeleterAnswers(n, mode, m, h);
  }

  /** Its first step sees how many messages were read, and its fourth gives one slot back. */
  lemma DeleteGivesBack(n: nat, mode: Mode, contents: seq<seq<int>>, run: seq<Event>, at: nat, k: nat)
    requires EndsWithStep(n, mode, contents, run, at, k) && run[at] == DeleterCalls && (k == 1 || k == 4)
    ensures Possible(n, mode, contents, run[..|run| - 1])
    ensures var (h, (m', h')) := (End(n, mode, contents, run[..|run| - 1]).1, End(n, mode, contents, run));
            if k == 1 then h' == h.(deleterSaw := h.tails)
            else h' == h.(dels := h.dels + 1) && m'.deleter == DIdle && m'.del == h'.dels % n
  {
    var m, h := BeforeStep(n, mode, contents, run, at, k);
    WrapIsMod(h.dels + 1, n);
  }
}

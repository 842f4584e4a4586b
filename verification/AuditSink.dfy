// The off-box copy of the audit log (pkg/audit/sink.go): recorders that put events on
// a bounded queue without waiting, and one deliverer that posts each at most twice.
module AuditSink {
  import opened Text
  import CanonicalJson
  import AuditChain

  const CAPACITY: nat := 256

  /** The wire shape of one recorded entry. */
  datatype SinkEvent = SinkEvent(recordedAt: int, who: AuditChain.Who, metadata: CanonicalJson.Metadata)

  /** Where the deliverer is: waiting for the queue, waiting for the reply to its first or
      second post, or pausing between the two. */
  datatype Phase =
    | Idle
    | FirstPost(ev: SinkEvent)
    | Pause(ev: SinkEvent)
    | SecondPost(ev: SinkEvent)

  /** An event the deliverer is done with, and the replies to its posts. */
  datatype Finished = Finished(ev: SinkEvent, replies: seq<bool>)

  datatype Drop = Drop(ev: SinkEvent, waiting: nat)

  /** The shared state, the events of recorders that have written locally and not yet reached the
      queue, and the history of what happened to every event. */
  datatype Sink = Sink(queue: seq<SinkEvent>, phase: Phase, between: seq<SinkEvent>,
                       recorded: seq<SinkEvent>, enqueued: seq<SinkEvent>, dropped: seq<Drop>,
                       finished: seq<Finished>, posted: seq<SinkEvent>)

  /** One atomic step of a recorder or of the deliverer. */
  datatype Step =
    | LocalFailure(entry: AuditChain.Entry)
    | LocalSuccess(entry: AuditChain.Entry, now: int)
    | Offer(recorder: nat)
    | Take
    | Reply(ok: bool)
    | Wake

  function Forwarded(e: AuditChain.Entry, now: int): SinkEvent {
    SinkEvent(now, e.who, e.metadata)
  }

  predicate Enabled(s: Sink, step: Step) {
    match step
    case Offer(i) => i < |s.between|
    case Take => s.phase.Idle? && s.queue != []
    case Reply(_) => s.phase.FirstPost? || s.phase.SecondPost?
    case Wake => s.phase.Pause?
    case _ => true
  }

  function Next(s: Sink, step: Step): Sink
    requires Enabled(s, step)
  {
    match step
    case LocalFailure(_) => s
    case LocalSuccess(e, now) =>
      var ev := Forwarded(e, now);
      s.(recorded := s.recorded + [ev], between := s.between + [ev])
    case Offer(i) =>
      var ev, rest := s.between[i], s.between[..i] + s.between[i + 1..];
      if |s.queue| < CAPACITY
      then s.(between := rest, queue := s.queue + [ev], enqueued := s.enqueued + [ev])
      else s.(between := rest, dropped := s.dropped + [Drop(ev, |s.queue|)])
    case Take =>
      s.(queue := s.queue[1..], phase := FirstPost(s.queue[0]), posted := s.posted + [s.queue[0]])
    case Reply(ok) =>
      if s.phase.FirstPost? then
        if ok then s.(phase := Idle, finished := s.finished + [Finished(s.phase.ev, [true])])
        else s.(phase := Pause(s.phase.ev))
      else s.(phase := Idle, finished := s.finished + [Finished(s.phase.ev, [false, ok])])
    case Wake => s.(phase := SecondPost(s.phase.ev), posted := s.posted + [s.phase.ev])
  }

  const EMPTY := Sink([], Idle, [], [], [], [], [], [])

  /** A schedule in which every step is possible when it is taken. */
  predicate Legal(s: Sink, steps: seq<Step>)
    decreases |steps|
  {
    steps == [] || (Enabled(s, steps[0]) && Legal(Next(s, steps[0]), steps[1..]))
  }

  function Run(s: Sink, steps: seq<Step>): Sink
    requires Legal(s, steps)
    decreases |steps|
  {
    if steps == [] then s else Run(Next(s, steps[0]), steps[1..])
  }

  // ---- what holds of every run ---------------------------------------------

  function InFlight(s: Sink): seq<SinkEvent> {
    if s.phase.Idle? then [] else [s.phase.ev]
  }

  function Events(fs: seq<Finished>): seq<SinkEvent> {
    if fs == [] then [] else Events(fs[..|fs| - 1]) + [fs[|fs| - 1].ev]
  }

  function Dropped(ds: seq<Drop>): seq<SinkEvent> {
    if ds == [] then [] else Dropped(ds[..|ds| - 1]) + [ds[|ds| - 1].ev]
  }

  /** The posts that the finished events account for: one for each reply. */
  function Posts(fs: seq<Finished>): seq<SinkEvent> {
    if fs == [] then []
    else
      var f := fs[|fs| - 1];
      Posts(fs[..|fs| - 1]) + if |f.replies| == 1 then [f.ev] else [f.ev, f.ev]
  }

  function PostsInFlight(s: Sink): seq<SinkEvent> {
    match s.phase
    case Idle => []
    case FirstPost(ev) => [ev]
    case Pause(ev) => [ev]
    case SecondPost(ev) => [ev, ev]
  }

  predicate Delivered(f: Finished) {
    f.replies == [true] || f.replies == [false, true]
  }

  predicate FailedTwice(f: Finished) {
    f.replies == [false, false]
  }

  /** Every event recorded locally was put on the queue or dropped, or is still on its way to it. */
  predicate Counted(s: Sink) {
    multiset(s.recorded) == multiset(s.enqueued) + multiset(Dropped(s.dropped)) + multiset(s.between)
  }

  /** The queue is first in, first out: finished, in flight and waiting, in this order. */
  predicate InOrder(s: Sink) {
    s.enqueued == Events(s.finished) + InFlight(s) + s.queue
  }

  /** No event is posted more often than its replies say, nor out of turn. */
  predicate PostedInTurn(s: Sink) {
    s.posted == Posts(s.finished) + PostsInFlight(s)
  }

  /** Every finished event was delivered at its last post or failed at both, and
      nothing was dropped unless the queue was full. */
  predicate Fated(s: Sink) {
    |s.queue| <= CAPACITY
    && (forall i | 0 <= i < |s.finished| :: Delivered(s.finished[i]) || FailedTwice(s.finished[i]))
    && (forall i | 0 <= i < |s.dropped| :: s.dropped[i].waiting == CAPACITY)
  }

  predicate Conserved(s: Sink) {
    Counted(s) && InOrder(s) && PostedInTurn(s) && Fated(s)
  }

  lemma EventsSnoc(fs: seq<Finished>, f: Finished)
    ensures Events(fs + [f]) == Events(fs) + [f.ev]
    ensures Posts(fs + [f]) == Posts(fs) + if |f.replies| == 1 then [f.ev] else [f.ev, f.ev]
  {
    assert (fs + [f])[..|fs|] == fs;
  }

  lemma DroppedSnoc(ds: seq<Drop>, d: Drop)
    ensures Dropped(ds + [d]) == Dropped(ds) + [d.ev]
  {
    assert (ds + [d])[..|ds|] == ds;
  }

  lemma Snoc<T>(xs: seq<T>, x: T)
    ensures multiset(xs + [x]) == multiset(xs) + multiset{x}
  {
  }

  lemma TakenOut<T>(xs: seq<T>, i: nat)
    requires i < |xs|
    ensures multiset(xs) == multiset(xs[..i] + xs[i + 1..]) + multiset{xs[i]}
  {
    assert xs == xs[..i] + ([xs[i]] + xs[i + 1..]);
  }

  lemma CountedIs(s: Sink, recorded: multiset<SinkEvent>, enqueued: multiset<SinkEvent>,
                  dropped: multiset<SinkEvent>, between: multiset<SinkEvent>)
    requires recorded == multiset(s.recorded) && enqueued == multiset(s.enqueued)
    requires dropped == multiset(Dropped(s.dropped)) && between == multiset(s.between)
    ensures Counted(s) <==> recorded == enqueued + dropped + between
  {
  }

  lemma SuccessCounted(s: Sink, e: AuditChain.Entry, now: int)
    requires Counted(s)
    ensures Counted(Next(s, LocalSuccess(e, now)))
  {
    var r, q, d, b := multiset(s.recorded), multiset(s.enqueued), multiset(Dropped(s.dropped)), multiset(s.between);
    var ev := Forwarded(e, now);
    CountedIs(s, r, q, d, b);
    Snoc(s.recorded, ev);
    Snoc(s.between, ev);
    hide Counted, Dropped;
    CountedIs(Next(s, LocalSuccess(e, now)), r + multiset{ev}, q, d, b + multiset{ev});
  }

  lemma OfferIs(s: Sink, i: nat)
    requires i < |s.between|
    ensures var ev, t := s.between[i], Next(s, Offer(i));
            t.recorded == s.recorded && t.between == s.between[..i] + s.between[i + 1..]
            && ((t.enqueued == s.enqueued + [ev] && t.dropped == s.dropped)
                || (t.enqueued == s.enqueued && t.dropped == s.dropped + [Drop(ev, |s.queue|)]))
  {
  }

  lemma QueuedCounted(s: Sink, t: Sink, i: nat)
    requires Counted(s) && i < |s.between|
    requires t.recorded == s.recorded && t.between == s.between[..i] + s.between[i + 1..]
    requires t.enqueued == s.enqueued + [s.between[i]] && t.dropped == s.dropped
    ensures Counted(t)
  {
    hide Dropped;
    TakenOut(s.between, i);
    Snoc(s.enqueued, s.between[i]);
  }

  lemma DroppedCounted(s: Sink, t: Sink, i: nat)
    requires Counted(s) && i < |s.between|
    requires t.recorded == s.recorded && t.between == s.between[..i] + s.between[i + 1..]
    requires t.enqueued == s.enqueued && t.dropped == s.dropped + [Drop(s.between[i], |s.queue|)]
    ensures Counted(t)
  {
    DroppedSnoc(s.dropped, Drop(s.between[i], |s.queue|));
    hide Dropped;
    TakenOut(s.between, i);
    Snoc(Dropped(s.dropped), s.between[i]);
  }

  lemma OfferCounted(s: Sink, i: nat)
    requires Counted(s) && i < |s.between|
    ensures Counted(Next(s, Offer(i)))
  {
    var t := Next(s, Offer(i));
    OfferIs(s, i);
    hide Counted, Dropped, Next;
    if t.dropped == s.dropped {
      QueuedCounted(s, t, i);
    } else {
      DroppedCounted(s, t, i);
    }
  }

  lemma OtherCounted(s: Sink, step: Step)
    requires Counted(s) && Enabled(s, step) && !step.LocalSuccess? && !step.Offer?
    ensures Counted(Next(s, step))
  {
    hide Dropped;
    var t := Next(s, step);
    assert t.recorded == s.recorded && t.enqueued == s.enqueued && t.dropped == s.dropped && t.between == s.between;
  }

  lemma CountedKept(s: Sink, step: Step)
    requires Counted(s) && Enabled(s, step)
    ensures Counted(Next(s, step))
  {
    hide Counted, Next;
    match step {
      case LocalSuccess(e, now) => SuccessCounted(s, e, now);
      case Offer(i) => OfferCounted(s, i);
      case _ => OtherCounted(s, step);
    }
  }

  lemma InOrderKept(s: Sink, step: Step)
    requires InOrder(s) && Enabled(s, step)
    ensures InOrder(Next(s, step))
  {
    var front := Events(s.finished);
    if step.Reply? {
      ReplyInOrder(s, step.ok);
    }
    hide Events;
    match step {
      case Offer(i) =>
        Regroup(front + InFlight(s), s.queue, [s.between[i]]);
      case Take =>
        assert s.queue == [s.queue[0]] + s.queue[1..];
        assert front + [] + ([s.queue[0]] + s.queue[1..]) == front + [s.queue[0]] + s.queue[1..];
      case _ =>
    }
  }

  lemma ReplyInOrder(s: Sink, ok: bool)
    requires InOrder(s) && Enabled(s, Reply(ok))
    ensures InOrder(Next(s, Reply(ok)))
  {
    hide Events;
    if ok || s.phase.SecondPost? {
      var f := Finished(s.phase.ev, if s.phase.FirstPost? then [true] else [false, ok]);
      EventsSnoc(s.finished, f);
      hide Posts;
      var t := Next(s, Reply(ok));
      assert t.finished == s.finished + [f] && t.phase.Idle? && t.queue == s.queue && t.enqueued == s.enqueued;
      hide Next;
      assert Events(s.finished) + [f.ev] + [] == Events(s.finished) + [f.ev];
    }
  }

  lemma ReplyPosted(s: Sink, ok: bool)
    requires PostedInTurn(s) && Enabled(s, Reply(ok))
    ensures PostedInTurn(Next(s, Reply(ok)))
  {
    var t, ev := Next(s, Reply(ok)), s.phase.ev;
    if t.finished == s.finished {
      hide Posts;
    } else {
      var f := if s.phase.FirstPost? then Finished(ev, [true]) else Finished(ev, [false, ok]);
      assert t.finished == s.finished + [f] && t.posted == s.posted && t.phase.Idle?;
      EventsSnoc(s.finished, f);
      hide Posts, Next;
      assert Posts(t.finished) + [] == Posts(t.finished);
    }
  }

  lemma PostPosted(s: Sink, step: Step)
    requires PostedInTurn(s) && Enabled(s, step) && (step.Take? || step.Wake?)
    ensures PostedInTurn(Next(s, step))
  {
    hide Posts;
    var front := Posts(s.finished);
    assert front + [] == front;
    if step.Wake? {
      assert front + [s.phase.ev] + [s.phase.ev] == front + [s.phase.ev, s.phase.ev];
    }
  }

  lemma NothingPosted(s: Sink, step: Step)
    requires PostedInTurn(s) && Enabled(s, step) && (step.LocalFailure? || step.LocalSuccess? || step.Offer?)
    ensures PostedInTurn(Next(s, step))
  {
    hide Posts;
    var t := Next(s, step);
    assert t.posted == s.posted && t.finished == s.finished && t.phase == s.phase;
  }

  lemma PostedKept(s: Sink, step: Step)
    requires PostedInTurn(s) && Enabled(s, step)
    ensures PostedInTurn(Next(s, step))
  {
    hide PostedInTurn, Next;
    match step {
      case Reply(ok) => ReplyPosted(s, ok);
      case Take => PostPosted(s, step);
      case Wake => PostPosted(s, step);
      case _ => NothingPosted(s, step);
    }
  }

  lemma FatedKept(s: Sink, step: Step)
    requires Fated(s) && Enabled(s, step)
    ensures Fated(Next(s, step))
  {
  }

  lemma StepConserves(s: Sink, step: Step)
    requires Conserved(s) && Enabled(s, step)
    ensures Conserved(Next(s, step))
  {
    hide Counted, InOrder, PostedInTurn, Fated, Next, Enabled;
    CountedKept(s, step);
    InOrderKept(s, step);
    PostedKept(s, step);
    FatedKept(s, step);
  }

  /** Conservation under any interleaving of any number of recorders with the deliverer. */
  lemma {:induction false} RunConserves(s: Sink, steps: seq<Step>)
    requires Conserved(s) && Legal(s, steps)
    ensures Conserved(Run(s, steps))
    decreases |steps|
  {
    hide Conserved, Next, Enabled;
    if steps != [] {
      StepConserves(s, steps[0]);
      RunConserves(Next(s, steps[0]), steps[1..]);
    }
  }

  lemma EmptyConserved()
    ensures Conserved(EMPTY)
  {
  }

  /** The local successes of a run, as the events they would forward. */
  function Successes(steps: seq<Step>): seq<SinkEvent> {
    if steps == [] then []
    else (if steps[0].LocalSuccess? then [Forwarded(steps[0].entry, steps[0].now)] else []) + Successes(steps[1..])
  }

  /** A failed local write forwards nothing, and nothing but the log itself decides what is forwarded. */
  lemma {:induction false} RecordedAreSuccesses(s: Sink, steps: seq<Step>)
    requires Legal(s, steps)
    ensures Run(s, steps).recorded == s.recorded + Successes(steps)
    decreases |steps|
  {
    if steps != [] {
      RecordedAreSuccesses(Next(s, steps[0]), steps[1..]);
    }
  }

  function DeliveredEvents(fs: seq<Finished>): seq<SinkEvent> {
    if fs == [] then []
    else
      var f := fs[|fs| - 1];
      DeliveredEvents(fs[..|fs| - 1]) + if Delivered(f) then [f.ev] else []
  }

  function FailedEvents(fs: seq<Finished>): seq<SinkEvent> {
    if fs == [] then []
    else
      var f := fs[|fs| - 1];
      FailedEvents(fs[..|fs| - 1]) + if FailedTwice(f) then [f.ev] else []
  }

  lemma {:induction false} FinishedSplit(fs: seq<Finished>)
    requires forall i | 0 <= i < |fs| :: Delivered(fs[i]) || FailedTwice(fs[i])
    ensures multiset(Events(fs)) == multiset(DeliveredEvents(fs)) + multiset(FailedEvents(fs))
  {
    if fs != [] {
      FinishedSplit(fs[..|fs| - 1]);
    }
  }

  lemma RecordedPartition(s: Sink)
    requires Conserved(s)
    ensures multiset(s.recorded)
         == multiset(DeliveredEvents(s.finished)) + multiset(FailedEvents(s.finished))
            + multiset(Dropped(s.dropped)) + multiset(s.queue) + multiset(InFlight(s)) + multiset(s.between)
  {
    FinishedSplit(s.finished);
    hide DeliveredEvents, FailedEvents, Dropped, Events, InFlight, PostedInTurn;
  }

  lemma RecordedFromEmpty(steps: seq<Step>)
    requires Legal(EMPTY, steps)
    ensures Run(EMPTY, steps).recorded == Successes(steps)
  {
    RecordedAreSuccesses(EMPTY, steps);
    assert [] + Successes(steps) == Successes(steps);
  }

  lemma RunConservesCapacity(s: Sink)
    requires Conserved(s)
    ensures |s.queue| <= CAPACITY
  {
  }

  /** Every local success is exactly one of delivered, failed twice, dropped, waiting, in flight, or in the
      hands of a recorder that has not reached the queue yet. */
  lemma EveryEventAccountedFor(steps: seq<Step>)
    requires Legal(EMPTY, steps)
    ensures var s := Run(EMPTY, steps);
            multiset(Successes(steps))
            == multiset(DeliveredEvents(s.finished)) + multiset(FailedEvents(s.finished))
               + multiset(Dropped(s.dropped)) + multiset(s.queue) + multiset(InFlight(s)) + multiset(s.between)
            && |s.queue| <= 256
  {
    EmptyConserved();
    RunConserves(EMPTY, steps);
    RunConservesCapacity(Run(EMPTY, steps));
    RecordedFromEmpty(steps);
    RecordedPartition(Run(EMPTY, steps));
    hide Run, Legal, Successes, DeliveredEvents, FailedEvents, Dropped, Conserved, InFlight;
  }

  /** The order in which events reach the sink is the order in which they were queued. */
  ghost predicate Subsequence(xs: seq<SinkEvent>, ys: seq<SinkEvent>)
    decreases |ys|
  {
    if xs == [] then true
    else ys != [] && (if xs[|xs| - 1] == ys[|ys| - 1] && Subsequence(xs[..|xs| - 1], ys[..|ys| - 1]) then true
                      else Subsequence(xs, ys[..|ys| - 1]))
  }

  lemma {:induction false} SubsequenceOfLonger(xs: seq<SinkEvent>, ys: seq<SinkEvent>, more: seq<SinkEvent>)
    requires Subsequence(xs, ys)
    ensures Subsequence(xs, ys + more)
    decreases |more|
  {
    if more == [] {
      assert ys + more == ys;
    } else {
      SubsequenceOfLonger(xs, ys, more[..|more| - 1]);
      assert (ys + more)[..|ys + more| - 1] == ys + more[..|more| - 1];
    }
  }

  lemma {:induction false} DeliveredSubsequence(fs: seq<Finished>)
    ensures Subsequence(DeliveredEvents(fs), Events(fs))
  {
    if fs != [] {
      var front := fs[..|fs| - 1];
      DeliveredSubsequence(front);
      assert (Events(front) + [fs[|fs| - 1].ev])[..|Events(front)|] == Events(front);
      var d := DeliveredEvents(front);
      assert d + [] == d;
      assert (d + [fs[|fs| - 1].ev])[..|d|] == d;
    }
  }

  lemma InOrderSubsequence(s: Sink)
    requires InOrder(s)
    ensures Subsequence(DeliveredEvents(s.finished), s.enqueued)
  {
    DeliveredSubsequence(s.finished);
    hide Subsequence, DeliveredEvents, Events;
    SubsequenceOfLonger(DeliveredEvents(s.finished), Events(s.finished), InFlight(s) + s.queue);
    assert Events(s.finished) + (InFlight(s) + s.queue) == s.enqueued;
  }

  lemma DeliveredInOrder(steps: seq<Step>)
    requires Legal(EMPTY, steps)
    ensures var s := Run(EMPTY, steps); Subsequence(DeliveredEvents(s.finished), s.enqueued)
  {
    EmptyConserved();
    RunConserves(EMPTY, steps);
    InOrderSubsequence(Run(EMPTY, steps));
  }

  /** With nothing waiting or in flight, everything queued is finished, in order. */
  lemma DrainedFinished(s: Sink)
    requires Conserved(s) && s.queue == [] && s.phase.Idle?
    ensures Events(s.finished) == s.enqueued
  {
    assert Events(s.finished) + [] + [] == Events(s.finished);
  }

  /** Between two recorders the order of the log and the order of the queue may differ: the second
      to commit can be the first to reach the queue. */
  lemma SinkOrderMayDiffer(a: AuditChain.Entry, b: AuditChain.Entry, now: int)
    requires a != b
    ensures var steps := [LocalSuccess(a, now)] + ([LocalSuccess(b, now)] + ([Offer(1)] + ([Offer(0)] + [])));
            Legal(EMPTY, steps)
            && Run(EMPTY, steps).recorded == [Forwarded(a, now), Forwarded(b, now)]
            && Run(EMPTY, steps).enqueued == [Forwarded(b, now), Forwarded(a, now)]
            && Run(EMPTY, steps).recorded != Run(EMPTY, steps).enqueued
  {
    var x, y := Forwarded(a, now), Forwarded(b, now);
    var s1 := EMPTY.(recorded := [x], between := [x]);
    var s2 := EMPTY.(recorded := [x, y], between := [x, y]);
    var s3 := s2.(between := [x], queue := [y], enqueued := [y]);
    var s4 := s3.(between := [], queue := [y, x], enqueued := [y, x]);
    assert Next(EMPTY, LocalSuccess(a, now)) == s1 && Next(s1, LocalSuccess(b, now)) == s2;
    assert Next(s2, Offer(1)) == s3 by { assert [x, y][..1] + [x, y][2..] == [x]; }
    assert Next(s3, Offer(0)) == s4 by { assert [x][..0] + [x][1..] == []; }
    assert x != y && [x, y][0] != [y, x][0];
    assert Legal(s4, []) && Run(s4, []) == s4;
    hide Next, Legal, Run, Forwarded;
    RunCons(s3, Offer(0), []);
    RunCons(s2, Offer(1), [Offer(0)] + []);
    RunCons(s1, LocalSuccess(b, now), [Offer(1)] + ([Offer(0)] + []));
    RunCons(EMPTY, LocalSuccess(a, now), [LocalSuccess(b, now)] + ([Offer(1)] + ([Offer(0)] + [])));
  }

  lemma RunCons(s: Sink, step: Step, rest: seq<Step>)
    requires Enabled(s, step) && Legal(Next(s, step), rest)
    ensures Legal(s, [step] + rest) && Run(s, [step] + rest) == Run(Next(s, step), rest)
  {
    assert ([step] + rest)[1..] == rest;
  }

  /** The recorders reach the queue in the order in which they wrote to the log. */
  predicate OldestFirst(steps: seq<Step>) {
    forall i | 0 <= i < |steps| && steps[i].Offer? :: steps[i].recorder == 0
  }

  predicate OldestStep(step: Step) {
    step.Offer? ==> step.recorder == 0
  }

  lemma OldestCons(steps: seq<Step>)
    requires steps != []
    ensures OldestFirst(steps) <==> OldestStep(steps[0]) && OldestFirst(steps[1..])
  {
    if OldestStep(steps[0]) && OldestFirst(steps[1..]) {
      forall i | 0 <= i < |steps| && steps[i].Offer? ensures steps[i].recorder == 0 {
        if i > 0 { assert steps[i] == steps[1..][i - 1]; }
      }
    }
  }

  /** History is only ever added to. */
  lemma {:induction false} HistoryGrows(s: Sink, steps: seq<Step>)
    requires Legal(s, steps)
    ensures var t := Run(s, steps); s.recorded <= t.recorded && s.enqueued <= t.enqueued && s.dropped <= t.dropped
    decreases |steps|
  {
    if steps != [] {
      HistoryGrowsBy(s, steps[0]);
      HistoryGrows(Next(s, steps[0]), steps[1..]);
      hide Next, Enabled;
    }
  }

  lemma HistoryGrowsBy(s: Sink, step: Step)
    requires Enabled(s, step)
    ensures var t := Next(s, step); s.recorded <= t.recorded && s.enqueued <= t.enqueued && s.dropped <= t.dropped
  {
  }

  /** The log is the queue's history followed by the recorders on their way. */
  predicate Aligned(s: Sink) {
    s.recorded == s.enqueued + s.between
  }

  lemma AlignedStep(s: Sink, step: Step)
    requires Aligned(s) && Enabled(s, step) && OldestStep(step) && Next(s, step).dropped == s.dropped
    ensures Aligned(Next(s, step))
  {
    match step {
      case LocalSuccess(e, now) =>
        Regroup(s.enqueued, s.between, [Forwarded(e, now)]);
      case Offer(_) =>
        assert s.between == [s.between[0]] + s.between[1..] && s.between[..0] + s.between[1..] == s.between[1..];
        Regroup(s.enqueued, [s.between[0]], s.between[1..]);
      case _ =>
    }
  }

  lemma {:induction false} AlignedRun(s: Sink, steps: seq<Step>)
    requires Aligned(s) && Legal(s, steps) && OldestFirst(steps) && Run(s, steps).dropped == s.dropped
    ensures Aligned(Run(s, steps))
    decreases |steps|
  {
    if steps != [] {
      OldestCons(steps);
      var t := Next(s, steps[0]);
      HistoryGrowsBy(s, steps[0]);
      HistoryGrows(t, steps[1..]);
      hide Next, Enabled, Aligned, OldestFirst;
      assert s.dropped <= t.dropped <= s.dropped;
      AlignedStep(s, steps[0]);
      AlignedRun(t, steps[1..]);
    }
  }

  predicate AllDifferent(xs: seq<SinkEvent>) {
    forall i, j | 0 <= i < j < |xs| :: xs[i] != xs[j]
  }

  /** Once a recorder has overtaken another, the queue's history is no front of the log again. */
  lemma OvertakingShows(s: Sink, i: nat, recorded: seq<SinkEvent>, enqueued: seq<SinkEvent>)
    requires Aligned(s) && 0 < i < |s.between| && Next(s, Offer(i)).dropped == s.dropped
    requires AllDifferent(recorded) && s.recorded <= recorded && Next(s, Offer(i)).enqueued <= enqueued
    ensures !(enqueued <= recorded)
  {
    var n := |s.enqueued|;
    assert enqueued[n] == s.between[i];
    assert recorded[n] == s.recorded[n] == s.between[0] && recorded[n + i] == s.recorded[n + i] == s.between[i];
  }

  lemma {:induction false} FrontMeansOldestFirst(s: Sink, steps: seq<Step>)
    requires Aligned(s) && Legal(s, steps) && Run(s, steps).dropped == s.dropped
    requires AllDifferent(Run(s, steps).recorded) && Run(s, steps).enqueued <= Run(s, steps).recorded
    ensures OldestFirst(steps)
    decreases |steps|
  {
    if steps != [] {
      OldestCons(steps);
      var t := Next(s, steps[0]);
      HistoryGrowsBy(s, steps[0]);
      HistoryGrows(t, steps[1..]);
      assert s.dropped <= t.dropped <= s.dropped;
      if steps[0].Offer? && steps[0].recorder > 0 {
        OvertakingShows(s, steps[0].recorder, Run(s, steps).recorded, Run(s, steps).enqueued);
      }
      hide Next, Enabled, Aligned, OldestFirst, AllDifferent;
      AlignedStep(s, steps[0]);
      FrontMeansOldestFirst(t, steps[1..]);
    }
  }

  /** While nothing is dropped, and the events differ, the queue receives a front of the log in the
      log's order if and only if the recorders reach it in the order in which they wrote; then what is
      not yet queued is exactly the recorders on their way. */
  lemma SinkOrderIsLogOrderIff(steps: seq<Step>)
    requires Legal(EMPTY, steps) && Run(EMPTY, steps).dropped == []
    ensures var t := Run(EMPTY, steps);
            (OldestFirst(steps) ==> t.recorded == t.enqueued + t.between)
            && (AllDifferent(t.recorded) ==> (OldestFirst(steps) <==> t.enqueued <= t.recorded))
  {
    assert Aligned(EMPTY) by { assert EMPTY.enqueued + EMPTY.between == []; }
    var t := Run(EMPTY, steps);
    if OldestFirst(steps) {
      AlignedRun(EMPTY, steps);
    } else if AllDifferent(t.recorded) && t.enqueued <= t.recorded {
      FrontMeansOldestFirst(EMPTY, steps);
    }
    hide Run, Legal, OldestFirst, AllDifferent;
  }

  lemma SubsequenceSnoc(xs: seq<SinkEvent>, ys: seq<SinkEvent>, x: SinkEvent)
    requires Subsequence(xs, ys)
    ensures Subsequence(xs + [x], ys + [x]) && Subsequence(xs, ys + [x])
  {
    assert (xs + [x])[..|xs|] == xs && (ys + [x])[..|ys|] == ys;
  }

  lemma {:induction false} SubsequenceTransitive(xs: seq<SinkEvent>, ys: seq<SinkEvent>, zs: seq<SinkEvent>)
    requires Subsequence(xs, ys) && Subsequence(ys, zs)
    ensures Subsequence(xs, zs)
    decreases |zs|
  {
    if xs != [] {
      var xs', ys', zs' := xs[..|xs| - 1], ys[..|ys| - 1], zs[..|zs| - 1];
      if ys[|ys| - 1] == zs[|zs| - 1] && Subsequence(ys', zs') {
        if xs[|xs| - 1] == ys[|ys| - 1] && Subsequence(xs', ys') {
          SubsequenceTransitive(xs', ys', zs');
        } else {
          SubsequenceTransitive(xs, ys', zs');
        }
      } else {
        SubsequenceTransitive(xs, ys, zs');
      }
    }
  }

  /** The log is what has reached the queue or been dropped, in order, and the recorders on their way. */
  ghost predicate Trailing(s: Sink, front: seq<SinkEvent>) {
    s.recorded == front + s.between && Subsequence(s.enqueued, front)
  }

  lemma TrailingOffer(s: Sink, front: seq<SinkEvent>)
    requires Trailing(s, front) && s.between != []
    ensures Trailing(Next(s, Offer(0)), front + [s.between[0]])
  {
    var ev, t := s.between[0], Next(s, Offer(0));
    OfferIs(s, 0);
    SubsequenceSnoc(s.enqueued, front, ev);
    hide Subsequence, Next;
    assert s.between == [ev] + s.between[1..] && s.between[..0] + s.between[1..] == s.between[1..];
    Regroup(front, [ev], s.between[1..]);
  }

  lemma TrailingStep(s: Sink, front: seq<SinkEvent>, step: Step) returns (front': seq<SinkEvent>)
    requires Trailing(s, front) && Enabled(s, step) && OldestStep(step)
    ensures Trailing(Next(s, step), front')
  {
    front' := front;
    match step {
      case LocalSuccess(e, now) =>
        hide Subsequence, Forwarded;
        Regroup(front, s.between, [Forwarded(e, now)]);
      case Offer(_) =>
        front' := front + [s.between[0]];
        TrailingOffer(s, front);
      case _ =>
        hide Subsequence;
    }
  }

  lemma {:induction false} TrailingRun(s: Sink, front: seq<SinkEvent>, steps: seq<Step>)
    returns (front': seq<SinkEvent>)
    requires Trailing(s, front) && Legal(s, steps) && OldestFirst(steps)
    ensures Trailing(Run(s, steps), front')
    decreases |steps|
  {
    front' := front;
    if steps != [] {
      OldestCons(steps);
      hide Next, Enabled, Trailing, OldestFirst;
      var next := TrailingStep(s, front, steps[0]);
      front' := TrailingRun(Next(s, steps[0]), next, steps[1..]);
    }
  }

  /** With drops too: if the recorders reach the queue in the order in which they wrote, what is queued
      and what is delivered are subsequences of the log. */
  lemma DeliveredInLogOrder(steps: seq<Step>)
    requires Legal(EMPTY, steps) && OldestFirst(steps)
    ensures var t := Run(EMPTY, steps);
            Subsequence(t.enqueued, t.recorded) && Subsequence(DeliveredEvents(t.finished), t.recorded)
  {
    assert Trailing(EMPTY, []) by { assert EMPTY.recorded == [] + EMPTY.between; }
    var front := TrailingRun(EMPTY, [], steps);
    var t := Run(EMPTY, steps);
    DeliveredInOrder(steps);
    hide Run, Legal, Subsequence, DeliveredEvents, OldestFirst;
    SubsequenceOfLonger(t.enqueued, front, t.between);
    SubsequenceTransitive(DeliveredEvents(t.finished), t.enqueued, t.recorded);
  }

  // ---- the answers decide the fates ------------------------------------------------

  /** What the sink answered in a schedule, post by post. */
  function Answers(steps: seq<Step>): seq<bool> {
    if steps == [] then []
    else (if steps[0].Reply? then [steps[0].ok] else []) + Answers(steps[1..])
  }

  /** The answers to the posts of the finished events. */
  function RepliesOf(fs: seq<Finished>): seq<bool> {
    if fs == [] then [] else RepliesOf(fs[..|fs| - 1]) + fs[|fs| - 1].replies
  }

  /** An event in its pause, or posted again, has been refused once. */
  function RepliesInFlight(s: Sink): seq<bool> {
    if s.phase.Pause? || s.phase.SecondPost? then [false] else []
  }

  predicate Answered(s: Sink, answers: seq<bool>) {
    answers == RepliesOf(s.finished) + RepliesInFlight(s)
  }

  lemma AnsweredStep(s: Sink, answers: seq<bool>, step: Step)
    requires Answered(s, answers) && Enabled(s, step)
    ensures Answered(Next(s, step), answers + if step.Reply? then [step.ok] else [])
  {
    hide RepliesOf;
    assert answers + [] == answers && RepliesOf(s.finished) + [] == RepliesOf(s.finished);
    if step.Reply? {
      var r := if s.phase.FirstPost? then [step.ok] else [false, step.ok];
      RepliesSnoc(s.finished, Finished(s.phase.ev, r));
      if s.phase.SecondPost? {
        Regroup(RepliesOf(s.finished), [false], [step.ok]);
      }
    }
  }

  lemma RepliesSnoc(fs: seq<Finished>, f: Finished)
    ensures RepliesOf(fs + [f]) == RepliesOf(fs) + f.replies
  {
    assert (fs + [f])[..|fs|] == fs;
  }

  lemma {:induction false} AnsweredRun(s: Sink, answers: seq<bool>, steps: seq<Step>)
    requires Answered(s, answers) && Legal(s, steps)
    ensures Answered(Run(s, steps), answers + Answers(steps))
    decreases |steps|
  {
    if steps == [] {
      assert answers + [] == answers;
    } else {
      AnsweredStep(s, answers, steps[0]);
      hide Answered, Next, Enabled;
      var one := if steps[0].Reply? then [steps[0].ok] else [];
      AnsweredRun(Next(s, steps[0]), answers + one, steps[1..]);
      Regroup(answers, one, Answers(steps[1..]));
    }
  }

  /** Read in the order of the posts, the sink's answers are exactly those that the finished events
      have, one after the other, and that of an event which has been refused once. So the answers decide
      what became of every event: a first success or a second answer ends it, nothing else does. */
  lemma AnswersAreReplies(steps: seq<Step>)
    requires Legal(EMPTY, steps)
    ensures var s := Run(EMPTY, steps);
            Answers(steps) == RepliesOf(s.finished) + RepliesInFlight(s)
            && forall i | 0 <= i < |s.finished| ::
                 s.finished[i].replies == [true] || s.finished[i].replies == [false, true]
                 || s.finished[i].replies == [false, false]
  {
    AnsweredRun(EMPTY, [], steps);
    EmptyConserved();
    RunConserves(EMPTY, steps);
    AllFated(Run(EMPTY, steps));
    assert [] + Answers(steps) == Answers(steps);
    hide Run, Legal, Answers, RepliesOf, Conserved;
  }

  lemma AllFated(s: Sink)
    requires Conserved(s)
    ensures forall i | 0 <= i < |s.finished| ::
              s.finished[i].replies == [true] || s.finished[i].replies == [false, true]
              || s.finished[i].replies == [false, false]
  {
    hide Counted, InOrder, PostedInTurn;
  }

  function CountOf(b: bool, answers: seq<bool>): nat {
    if answers == [] then 0 else CountOf(b, answers[..|answers| - 1]) + if answers[|answers| - 1] == b then 1 else 0
  }

  lemma {:induction false} CountAppend(b: bool, xs: seq<bool>, ys: seq<bool>)
    ensures CountOf(b, xs + ys) == CountOf(b, xs) + CountOf(b, ys)
    decreases |ys|
  {
    if ys == [] {
      assert xs + ys == xs;
    } else {
      CountAppend(b, xs, ys[..|ys| - 1]);
      assert (xs + ys)[..|xs + ys| - 1] == xs + ys[..|ys| - 1];
    }
  }

  /** The events delivered at their second post. */
  function Retried(fs: seq<Finished>): nat {
    if fs == [] then 0 else Retried(fs[..|fs| - 1]) + if fs[|fs| - 1].replies == [false, true] then 1 else 0
  }

  lemma CountSmall(b: bool)
    ensures CountOf(true, [true]) == 1 && CountOf(false, [true]) == 0
    ensures CountOf(true, [false]) == 0 && CountOf(false, [false]) == 1
    ensures CountOf(b, [false, true]) == 1
    ensures CountOf(b, [false, false]) == if b then 0 else 2
  {
    assert [false, true][..1] == [false] && [false, false][..1] == [false];
    assert CountOf(b, [true][..0]) == 0 && CountOf(b, [false][..0]) == 0;
  }

  lemma {:induction false} RepliesCounted(fs: seq<Finished>)
    requires forall i | 0 <= i < |fs| :: Delivered(fs[i]) || FailedTwice(fs[i])
    ensures CountOf(true, RepliesOf(fs)) == |DeliveredEvents(fs)|
    ensures CountOf(false, RepliesOf(fs)) == 2 * |FailedEvents(fs)| + Retried(fs)
  {
    if fs != [] {
      var f, front := fs[|fs| - 1], fs[..|fs| - 1];
      RepliesCounted(front);
      CountAppend(true, RepliesOf(front), f.replies);
      CountAppend(false, RepliesOf(front), f.replies);
      CountSmall(true);
      CountSmall(false);
      hide CountOf;
    }
  }

  /** The sink's successes are the events delivered; its refusals are two for each event that failed, one
      for each delivered at the second post, and one for an event still to be posted again. */
  lemma AnswersCounted(steps: seq<Step>)
    requires Legal(EMPTY, steps)
    ensures var s := Run(EMPTY, steps);
            CountOf(true, Answers(steps)) == |DeliveredEvents(s.finished)|
            && CountOf(false, Answers(steps))
               == 2 * |FailedEvents(s.finished)| + Retried(s.finished)
                  + if s.phase.Pause? || s.phase.SecondPost? then 1 else 0
  {
    var s := Run(EMPTY, steps);
    AnswersAreReplies(steps);
    RepliesCounted(s.finished);
    CountAppend(true, RepliesOf(s.finished), RepliesInFlight(s));
    CountAppend(false, RepliesOf(s.finished), RepliesInFlight(s));
    CountSmall(true);
    hide Run, Legal, Answers, RepliesOf, DeliveredEvents, FailedEvents, Retried;
  }

  // ---- when an event is dropped ------------------------------------------------------

  /** How many events wait after a schedule, counted from its steps alone: 256 at most. */
  function Waiting(steps: seq<Step>): int {
    if steps == [] then 0
    else
      var n, last := Waiting(steps[..|steps| - 1]), steps[|steps| - 1];
      if last.Offer? then (if n < 256 then n + 1 else n) else if last.Take? then n - 1 else n
  }

  /** How many recorders found 256 waiting. */
  function Refused(steps: seq<Step>): nat {
    if steps == [] then 0
    else
      var front := steps[..|steps| - 1];
      Refused(front) + if steps[|steps| - 1].Offer? && Waiting(front) == 256 then 1 else 0
  }

  lemma {:induction false} LegalFront(s: Sink, steps: seq<Step>)
    requires Legal(s, steps) && steps != []
    ensures var n := |steps| - 1;
            Legal(s, steps[..n]) && Enabled(Run(s, steps[..n]), steps[n])
            && Run(s, steps) == Next(Run(s, steps[..n]), steps[n])
    decreases |steps|
  {
    hide Next, Enabled;
    if |steps| > 1 {
      LegalFront(Next(s, steps[0]), steps[1..]);
      assert steps[1..][..|steps| - 2] == steps[..|steps| - 1][1..];
    } else {
      assert steps[..0] == [] && steps[1..] == [];
    }
  }

  lemma QueueStep(s: Sink, step: Step)
    requires Enabled(s, step) && |s.queue| <= 256
    ensures var t, n := Next(s, step), |s.queue|;
            |t.queue| == (if step.Offer? then (if n < 256 then n + 1 else n) else if step.Take? then n - 1 else n)
            && |t.dropped| == |s.dropped| + if step.Offer? && n == 256 then 1 else 0
  {
  }

  /** An event is dropped exactly when 256 are waiting as its recorder arrives: the queue is as long as
      counting says, and as many events are dropped as recorders found it full. */
  lemma {:induction false} DroppedIffFull(steps: seq<Step>)
    requires Legal(EMPTY, steps)
    ensures var s := Run(EMPTY, steps); |s.queue| == Waiting(steps) && |s.dropped| == Refused(steps)
  {
    if steps != [] {
      LegalFront(EMPTY, steps);
      DroppedIffFull(steps[..|steps| - 1]);
      EmptyConserved();
      RunConserves(EMPTY, steps[..|steps| - 1]);
      RunConservesCapacity(Run(EMPTY, steps[..|steps| - 1]));
      QueueStep(Run(EMPTY, steps[..|steps| - 1]), steps[|steps| - 1]);
      hide Conserved, Run, Legal, Next, Enabled;
    }
  }

  // ---- emptying the queue --------------------------------------------------------------

  /** What becomes of an event whose posts are answered by `up`, first and second. */
  function Outcome(ev: SinkEvent, up: (SinkEvent, bool) -> bool): Finished {
    Finished(ev, if up(ev, true) then [true] else [false, up(ev, false)])
  }

  /** An event is posted a second time if and only if the first post was refused. */
  function PostsOf(queue: seq<SinkEvent>, up: (SinkEvent, bool) -> bool): seq<SinkEvent> {
    if queue == [] then []
    else
      var front, ev := queue[..|queue| - 1], queue[|queue| - 1];
      PostsOf(front, up) + if up(ev, true) then [ev] else [ev, ev]
  }

  /** The first `done` events of the queue `was` are finished. */
  ghost predicate Drained(before: Sink, now: Sink, was: seq<SinkEvent>, done: nat, up: (SinkEvent, bool) -> bool)
    requires done <= |was|
  {
    |now.finished| == |before.finished| + done
    && now.finished[..|before.finished|] == before.finished
    && (forall i | 0 <= i < done :: now.finished[|before.finished| + i] == Outcome(was[i], up))
    && now.posted == before.posted + PostsOf(was[..done], up)
  }

  lemma DrainStart(posted: seq<SinkEvent>, was: seq<SinkEvent>, up: (SinkEvent, bool) -> bool)
    ensures posted == posted + PostsOf(was[..0], up) && was[..|was|] == was && was == was[0..]
  {
  }

  lemma DrainedOne(before: Sink, now: Sink, after: Sink, was: seq<SinkEvent>, done: nat,
                   up: (SinkEvent, bool) -> bool)
    requires done < |was| && Drained(before, now, was, done, up)
    requires after.finished == now.finished + [Outcome(was[done], up)]
    requires after.posted == now.posted + if up(was[done], true) then [was[done]] else [was[done], was[done]]
    ensures Drained(before, after, was, done + 1, up)
  {
    assert was[..done + 1][..done] == was[..done];
    var more := if up(was[done], true) then [was[done]] else [was[done], was[done]];
    Regroup(before.posted, PostsOf(was[..done], up), more);
  }

  // ---- the recorder object ----------------------------------------------------

  class ForwardingRecorder {
    var queue: seq<SinkEvent>
    var phase: Phase
    ghost var history: Sink

    ghost predicate Valid()
      reads this
    {
      history.queue == queue && history.phase == phase && Conserved(history)
    }

    constructor ()
      ensures Valid() && history == EMPTY
    {
      queue, phase, history := [], Idle, EMPTY;
    }

    /** Records locally first (`localOk` is that write's result) and forwards only a success.
        The sink never decides the answer. */
    method Record(e: AuditChain.Entry, localOk: bool, now: int) returns (ok: bool)
      requires Valid()
      modifies this
      ensures Valid() && ok == localOk && phase == old(phase)
      ensures history == if localOk then Next(Next(old(history), LocalSuccess(e, now)), Offer(|old(history.between)|))
                         else Next(old(history), LocalFailure(e))
      ensures history.between == old(history.between)
      ensures queue == if localOk && |old(queue)| < 256 then old(queue) + [SinkEvent(now, e.who, e.metadata)]
                       else old(queue)
    {
      hide Conserved;
      if !localOk {
        return false;
      }
      StepConserves(history, LocalSuccess(e, now));
      history := Next(history, LocalSuccess(e, now));
      var ev := SinkEvent(now, e.who, e.metadata);
      StepConserves(history, Offer(|history.between| - 1));
      history := Next(history, Offer(|history.between| - 1));
      if |queue| < CAPACITY {
        queue := queue + [ev];
      }
      return true;
    }

    /** The deliverer takes the oldest event and sends its first post. */
    method TakeOldest()
      requires Valid() && phase.Idle? && queue != []
      modifies this
      ensures Valid() && history == Next(old(history), Take)
    {
      hide Conserved;
      StepConserves(history, Take);
      history := Next(history, Take);
      phase := FirstPost(queue[0]);
      queue := queue[1..];
    }

    /** The sink answers the post in flight. */
    method Answer(ok: bool)
      requires Valid() && (phase.FirstPost? || phase.SecondPost?)
      modifies this
      ensures Valid() && history == Next(old(history), Reply(ok))
      // A success ends the event after either post; a failure pauses after the first and ends it after the second.
      ensures ok || old(phase).SecondPost? <==> phase.Idle?
      ensures !ok && old(phase).FirstPost? <==> phase.Pause?
    {
      hide Conserved;
      StepConserves(history, Reply(ok));
      history := Next(history, Reply(ok));
      phase := if phase.FirstPost? && !ok then Pause(phase.ev) else Idle;
    }

    /** The pause is over: the second and last post. */
    method Retry()
      requires Valid() && phase.Pause?
      modifies this
      ensures Valid() && history == Next(old(history), Wake)
    {
      hide Conserved;
      StepConserves(history, Wake);
      history := Next(history, Wake);
      phase := SecondPost(phase.ev);
    }

    /** The deliverer's loop while no recorder runs, against a sink whose answers are `up`:
        it empties the queue, in order, whatever the sink answers. */
    method Drain(up: (SinkEvent, bool) -> bool)
      requires Valid() && phase.Idle?
      modifies this
      ensures Valid() && phase.Idle? && queue == []
      ensures history.recorded == old(history.recorded) && history.enqueued == old(history.enqueued)
      ensures Events(history.finished) == old(history.enqueued)
      // Each event is finished in its turn: after one post if the sink took it, else after a second.
      ensures |history.finished| == |old(history.finished)| + |old(queue)|
      ensures history.finished[..|old(history.finished)|] == old(history.finished)
      ensures forall i | 0 <= i < |old(queue)| ::
                history.finished[|old(history.finished)| + i] == Outcome(old(queue)[i], up)
      ensures history.posted == old(history.posted) + PostsOf(old(queue), up)
    {
      hide Conserved, Events, PostsOf;
      ghost var was, done := queue, 0;
      DrainStart(history.posted, was, up);
      while queue != []
        invariant Valid() && phase.Idle? && done + |queue| == |was| && queue == was[done..]
        invariant history.recorded == old(history.recorded) && history.enqueued == old(history.enqueued)
        invariant Drained(old(history), history, was, done, up)
        decreases |queue|
      {
        var ev := queue[0];
        ghost var before := history;
        TakeOldest();
        Answer(up(ev, true));
        if phase.Pause? {
          Retry();
          Answer(up(ev, false));
        }
        DrainedOne(old(history), before, history, was, done, up);
        done := done + 1;
      }
      DrainedFinished(history);
    }
  }
}

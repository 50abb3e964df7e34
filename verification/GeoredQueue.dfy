/**
 The outbound peer queue of internal/geored/client.go as a state machine. Any number of publishers run enqueue
 against one worker running run; every select, atomic add, receive, tick and push is one step.
 */
module GeoredQueue {
  import opened Arith

  datatype Event = SqnUpdate(aucId: int, sqn: int) | Other(kind: string, payload: seq<bv8>)

  datatype Config = Config(capacity: nat, batchMax: nat)
  {
    predicate Valid() {
      capacity >= 1 && batchMax >= 1
    }
  }

  /** The defaults of New: any non-positive setting is replaced. */
  function FromSettings(queueSize: int, batchMaxEvents: int): (c: Config)
    ensures c.Valid()
    ensures queueSize > 0 ==> c.capacity == queueSize
    ensures batchMaxEvents > 0 ==> c.batchMax == batchMaxEvents
    ensures queueSize <= 0 ==> c.capacity == 50_000
    ensures batchMaxEvents <= 0 ==> c.batchMax == 500
  {
    Config(if queueSize <= 0 then 50000 else queueSize, if batchMaxEvents <= 0 then 500 else batchMaxEvents)
  }

  /** int32 arithmetic of the atomic counter. */
  function Wrap32(n: int): int {
    (n + 0x8000_0000) % 0x1_0000_0000 - 0x8000_0000
  }

  lemma WrapAdd(n: int, d: int)
    ensures Wrap32(Wrap32(n) + d) == Wrap32(n + d)
    ensures -0x8000_0000 <= n < 0x8000_0000 ==> Wrap32(n) == n
  {
    var k := (n + 0x8000_0000) / 0x1_0000_0000;
    assert Wrap32(n) == n - k * 0x1_0000_0000;
    assert (n + d + 0x8000_0000) - k * 0x1_0000_0000 == Wrap32(n) + d + 0x8000_0000;
    ModShift(n + d + 0x8000_0000, k, 0x1_0000_0000);
  }

  /** The worker: in its select, holding a received event whose counter update is pending, or pushing a batch. */
  datatype Worker = Selecting | Received(e: Event) | Sending(events: seq<Event>)

  datatype Attempt = Attempt(events: seq<Event>, ok: bool)

  /**
   Publishers are anonymous: the multisets hold the events of those at each point of enqueue, before the first
   select, in its default branch, after draining, and before the retry; incPending counts the sends not yet counted.
   The last five fields are history.
   */
  datatype State = State(
    ch: seq<Event>, depth: int,
    trying: multiset<Event>, full: multiset<Event>, drained: multiset<Event>, retrying: multiset<Event>,
    incPending: nat,
    worker: Worker, batch: seq<Event>, healthy: bool,
    entered: multiset<Event>, accepted: seq<Event>, attempts: seq<Attempt>, discarded: multiset<Event>,
    rejected: multiset<Event>)

  datatype Step =
    | Enter(e: Event) | SendOk(e: Event) | FindFull(e: Event) | Drain(e: Event) | FindEmpty(e: Event)
    | CountDrain(e: Event) | RetryOk(e: Event) | RetryFull(e: Event) | CountSend
    | Receive | CountReceive | Tick | PushDone(ok: bool)

  function Initial(): State {
    State([], 0, multiset{}, multiset{}, multiset{}, multiset{}, 0, Selecting, [], true,
          multiset{}, [], [], multiset{}, multiset{})
  }

  predicate Enabled(c: Config, s: State, step: Step) {
    match step
    case Enter(e) => true
    case SendOk(e) => e in s.trying && |s.ch| < c.capacity
    case FindFull(e) => e in s.trying && |s.ch| >= c.capacity
    case Drain(e) => e in s.full && s.ch != []
    case FindEmpty(e) => e in s.full && s.ch == []
    case CountDrain(e) => e in s.drained
    case RetryOk(e) => e in s.retrying && |s.ch| < c.capacity
    case RetryFull(e) => e in s.retrying && |s.ch| >= c.capacity
    case CountSend => s.incPending > 0
    case Receive => s.worker.Selecting? && s.ch != []
    case CountReceive => s.worker.Received?
    case Tick => s.worker.Selecting? && s.batch != []
    case PushDone(ok) => s.worker.Sending?
  }

  function Send(s: State, e: Event): State {
    s.(ch := s.ch + [e], accepted := s.accepted + [e], incPending := s.incPending + 1)
  }

  function Apply(c: Config, s: State, step: Step): State
    requires Enabled(c, s, step)
  {
    match step
    case Enter(e) => s.(trying := s.trying + multiset{e}, entered := s.entered + multiset{e})
    case SendOk(e) => Send(s.(trying := s.trying - multiset{e}), e)
    case FindFull(e) => s.(trying := s.trying - multiset{e}, full := s.full + multiset{e})
    case Drain(e) => s.(full := s.full - multiset{e}, drained := s.drained + multiset{e}, ch := s.ch[1..],
                        discarded := s.discarded + multiset{s.ch[0]})
    case FindEmpty(e) => s.(full := s.full - multiset{e}, retrying := s.retrying + multiset{e})
    case CountDrain(e) => s.(drained := s.drained - multiset{e}, retrying := s.retrying + multiset{e},
                             depth := Wrap32(s.depth - 1))
    case RetryOk(e) => Send(s.(retrying := s.retrying - multiset{e}), e)
    case RetryFull(e) => s.(retrying := s.retrying - multiset{e}, rejected := s.rejected + multiset{e})
    case CountSend => s.(incPending := s.incPending - 1, depth := Wrap32(s.depth + 1))
    case Receive => s.(worker := Received(s.ch[0]), ch := s.ch[1..])
    case CountReceive =>
      var batch := s.batch + [s.worker.e];
      var t := s.(depth := Wrap32(s.depth - 1));
      if |batch| >= c.batchMax then t.(worker := Sending(batch), batch := [])
      else t.(worker := Selecting, batch := batch)
    case Tick => s.(worker := Sending(s.batch), batch := [])
    case PushDone(ok) => s.(worker := Selecting, attempts := s.attempts + [Attempt(s.worker.events, ok)], healthy := ok)
  }

  // ---------------------------------------------------------------- what every run keeps

  /** a can be obtained from b by leaving elements out. */
  predicate Subsequence(a: seq<Event>, b: seq<Event>)
    decreases |b|
  {
    a == []
    || (b != []
        && ((a[|a| - 1] == b[|b| - 1] && Subsequence(a[..|a| - 1], b[..|b| - 1])) || Subsequence(a, b[..|b| - 1])))
  }

  lemma SubsequenceAppend(a: seq<Event>, b: seq<Event>, e: Event)
    requires Subsequence(a, b)
    ensures Subsequence(a + [e], b + [e])
  {
    assert (a + [e])[..|a|] == a && (b + [e])[..|b|] == b;
  }

  /** Leaving out one more element, anywhere. */
  lemma {:induction false} SubsequenceRemove(x: seq<Event>, e: Event, y: seq<Event>, b: seq<Event>)
    requires Subsequence(x + [e] + y, b)
    ensures Subsequence(x + y, b)
    decreases |b|
  {
    var a := x + [e] + y;
    var init := b[..|b| - 1];
    if a[|a| - 1] == b[|b| - 1] && Subsequence(a[..|a| - 1], init) {
      if y == [] {
        assert a[..|a| - 1] == x && x + y == x;
        assert Subsequence(x, init);
      } else {
        var yi := y[..|y| - 1];
        assert a[..|a| - 1] == x + [e] + yi;
        SubsequenceRemove(x, e, yi, init);
        assert (x + y)[..|x + y| - 1] == x + yi;
      }
    } else {
      SubsequenceRemove(x, e, y, init);
    }
  }

  lemma {:induction false} SubsequenceTrans(a: seq<Event>, b: seq<Event>, c: seq<Event>)
    requires Subsequence(a, b) && Subsequence(b, c)
    ensures Subsequence(a, c)
    decreases |c|
  {
    if a != [] {
      var init := c[..|c| - 1];
      if b[|b| - 1] == c[|c| - 1] && Subsequence(b[..|b| - 1], init) {
        if a[|a| - 1] == b[|b| - 1] && Subsequence(a[..|a| - 1], b[..|b| - 1]) {
          SubsequenceTrans(a[..|a| - 1], b[..|b| - 1], init);
        } else {
          SubsequenceTrans(a, b[..|b| - 1], init);
        }
      } else {
        SubsequenceTrans(a, b, init);
      }
    }
  }

  /** The events of all push attempts, or of those with one outcome, in order. */
  function Pushed(attempts: seq<Attempt>, outcomes: set<bool>): seq<Event> {
    if attempts == [] then []
    else
      var last := attempts[|attempts| - 1];
      Pushed(attempts[..|attempts| - 1], outcomes) + if last.ok in outcomes then last.events else []
  }

  /** Events the worker has taken off the channel and not yet finished pushing, oldest first. */
  function InHand(s: State): seq<Event> {
    Holds(s.worker, s.batch)
  }

  function Holds(worker: Worker, batch: seq<Event>): seq<Event> {
    match worker
    case Selecting => batch
    case Received(e) => batch + [e]
    case Sending(events) => events + batch
  }

  /** Everything that went through the channel and was not drained, in order. */
  function Line(s: State): seq<Event> {
    Pushed(s.attempts, {true, false}) + InHand(s) + s.ch
  }

  predicate Bounded(c: Config, s: State) {
    && |s.ch| <= c.capacity
    && |s.batch| < c.batchMax
    && (s.worker.Sending? ==> s.batch == [] && 1 <= |s.worker.events| <= c.batchMax)
    && forall i {:trigger s.attempts[i]} :: 0 <= i < |s.attempts| ==> 1 <= |s.attempts[i].events| <= c.batchMax
  }

  /** The channel length corrected by the updates still pending. */
  function Count(s: State): int {
    |s.ch| - s.incPending + |s.drained| + if s.worker.Received? then 1 else 0
  }

  predicate DepthExact(s: State) {
    s.depth == Wrap32(Count(s))
  }

  /** Every event that entered is still inside enqueue, was refused, or was accepted. */
  ghost predicate EntriesConserved(s: State) {
    forall e :: s.entered[e] == Entries(s, e)
  }

  function Entries(s: State, e: Event): nat {
    s.trying[e] + s.full[e] + s.drained[e] + s.retrying[e] + s.rejected[e] + multiset(s.accepted)[e]
  }

  /** Every accepted event was drained or is still in the line. */
  predicate LineConserved(s: State) {
    multiset(s.accepted) == s.discarded + multiset(Line(s))
  }

  ghost predicate Inv(c: Config, s: State) {
    Bounded(c, s) && DepthExact(s) && EntriesConserved(s) && LineConserved(s) && Subsequence(Line(s), s.accepted)
    && s.healthy == (s.attempts == [] || s.attempts[|s.attempts| - 1].ok)
  }

  lemma InitialInv(c: Config)
    requires c.Valid()
    ensures Inv(c, Initial())
  {
  }

  lemma PushedSnoc(attempts: seq<Attempt>, a: Attempt, outcomes: set<bool>)
    ensures Pushed(attempts + [a], outcomes) == Pushed(attempts, outcomes) + if a.ok in outcomes then a.events else []
  {
    assert (attempts + [a])[..|attempts|] == attempts;
  }

  lemma StepBounded(c: Config, s: State, step: Step)
    requires c.Valid() && Bounded(c, s) && Enabled(c, s, step)
    ensures Bounded(c, Apply(c, s, step))
  {
  }

  /** How far one step moves the counter. */
  function Delta(step: Step): int {
    match step
    case CountSend => 1
    case CountDrain(_) => -1
    case CountReceive => -1
    case _ => 0
  }

  lemma StepCount(c: Config, s: State, step: Step)
    requires Enabled(c, s, step)
    ensures Count(Apply(c, s, step)) == Count(s) + Delta(step)
  {
    hide Wrap32;
  }

  lemma StepCounter(c: Config, s: State, step: Step)
    requires Enabled(c, s, step)
    ensures Apply(c, s, step).depth == if Delta(step) == 0 then s.depth else Wrap32(s.depth + Delta(step))
  {
    hide Wrap32;
  }

  lemma StepDepth(c: Config, s: State, step: Step)
    requires DepthExact(s) && Enabled(c, s, step)
    ensures DepthExact(Apply(c, s, step))
  {
    hide Apply, Count;
    StepCount(c, s, step);
    StepCounter(c, s, step);
    WrapAdd(Count(s), Delta(step));
  }

  lemma StepEntries(c: Config, s: State, step: Step)
    requires EntriesConserved(s) && Enabled(c, s, step)
    ensures EntriesConserved(Apply(c, s, step))
  {
    var t := Apply(c, s, step);
    forall x
      ensures t.entered[x] == Entries(t, x)
    {
      assert s.entered[x] == Entries(s, x);
      EntriesStep(c, s, step, x);
    }
  }

  /** Steps of the worker and counter updates move no event in or out of enqueue. */
  predicate Outside(step: Step) {
    step.CountSend? || step.Receive? || step.CountReceive? || step.Tick? || step.PushDone?
  }

  predicate SameInside(s: State, t: State) {
    && t.trying == s.trying && t.full == s.full && t.drained == s.drained && t.retrying == s.retrying
    && t.rejected == s.rejected && t.accepted == s.accepted && t.entered == s.entered
  }

  lemma EntriesOutside(c: Config, s: State, step: Step)
    requires Enabled(c, s, step) && Outside(step)
    ensures SameInside(s, Apply(c, s, step))
  {
    hide Wrap32;
    match step
    case CountSend =>
    case Receive =>
    case CountReceive =>
    case Tick =>
    case PushDone(ok) =>
  }

  lemma EntriesSame(s: State, t: State, x: Event)
    requires SameInside(s, t)
    ensures Entries(t, x) == Entries(s, x)
  {
  }

  lemma EntriesSent(s: State, t: State, e: Event, x: Event)
    requires t.accepted == s.accepted + [e] && t.entered == s.entered && t.full == s.full && t.drained == s.drained
    requires t.rejected == s.rejected
    requires (e in s.trying && t.trying == s.trying - multiset{e} && t.retrying == s.retrying)
             || (e in s.retrying && t.retrying == s.retrying - multiset{e} && t.trying == s.trying)
    ensures t.entered == s.entered && Entries(t, x) == Entries(s, x)
  {
    if e in s.trying && t.trying == s.trying - multiset{e} && t.retrying == s.retrying {
      EntriesSend(s, s.trying, e, x);
    } else {
      EntriesSend(s, s.retrying, e, x);
    }
  }

  lemma EntriesStep(c: Config, s: State, step: Step, x: Event)
    requires Enabled(c, s, step)
    ensures Apply(c, s, step).entered[x] - Entries(Apply(c, s, step), x) == s.entered[x] - Entries(s, x)
  {
    hide Wrap32;
    if Outside(step) {
      EntriesOutside(c, s, step);
      EntriesSame(s, Apply(c, s, step), x);
    } else {
      EntriesInside(c, s, step, x);
    }
  }

  lemma EntriesInside(c: Config, s: State, step: Step, x: Event)
    requires Enabled(c, s, step) && !Outside(step)
    ensures Apply(c, s, step).entered[x] - Entries(Apply(c, s, step), x) == s.entered[x] - Entries(s, x)
  {
    hide Wrap32, Entries, Apply;
    match step
    case Enter(e) => EnterEntries(c, s, e, x);
    case SendOk(e) => SendEntries(c, s, step, e, x);
    case RetryOk(e) => SendEntries(c, s, step, e, x);
    case FindFull(e) => FindFullEntries(c, s, e, x);
    case Drain(e) => DrainEntries(c, s, e, x);
    case FindEmpty(e) => FindEmptyEntries(c, s, e, x);
    case CountDrain(e) => CountDrainEntries(c, s, e, x);
    case RetryFull(e) => RetryFullEntries(c, s, e, x);
  }

  lemma EnterEntries(c: Config, s: State, e: Event, x: Event)
    ensures var t := Apply(c, s, Enter(e)); t.entered[x] - Entries(t, x) == s.entered[x] - Entries(s, x)
  {
    EntriesEnter(c, s, e, x);
  }

  lemma SendEntries(c: Config, s: State, step: Step, e: Event, x: Event)
    requires Enabled(c, s, step) && (step == SendOk(e) || step == RetryOk(e))
    ensures var t := Apply(c, s, step); t.entered[x] - Entries(t, x) == s.entered[x] - Entries(s, x)
  {
    EntriesSent(s, Apply(c, s, step), e, x);
  }

  lemma FindFullEntries(c: Config, s: State, e: Event, x: Event)
    requires Enabled(c, s, FindFull(e))
    ensures var t := Apply(c, s, FindFull(e)); t.entered[x] - Entries(t, x) == s.entered[x] - Entries(s, x)
  {
    EntriesMove(s.trying, s.full, e, x);
  }

  lemma DrainEntries(c: Config, s: State, e: Event, x: Event)
    requires Enabled(c, s, Drain(e))
    ensures var t := Apply(c, s, Drain(e)); t.entered[x] - Entries(t, x) == s.entered[x] - Entries(s, x)
  {
    EntriesMove(s.full, s.drained, e, x);
  }

  lemma FindEmptyEntries(c: Config, s: State, e: Event, x: Event)
    requires Enabled(c, s, FindEmpty(e))
    ensures var t := Apply(c, s, FindEmpty(e)); t.entered[x] - Entries(t, x) == s.entered[x] - Entries(s, x)
  {
    EntriesMove(s.full, s.retrying, e, x);
  }

  lemma CountDrainEntries(c: Config, s: State, e: Event, x: Event)
    requires Enabled(c, s, CountDrain(e))
    ensures var t := Apply(c, s, CountDrain(e)); t.entered[x] - Entries(t, x) == s.entered[x] - Entries(s, x)
  {
    EntriesMove(s.drained, s.retrying, e, x);
  }

  lemma RetryFullEntries(c: Config, s: State, e: Event, x: Event)
    requires Enabled(c, s, RetryFull(e))
    ensures var t := Apply(c, s, RetryFull(e)); t.entered[x] - Entries(t, x) == s.entered[x] - Entries(s, x)
  {
    EntriesMove(s.retrying, s.rejected, e, x);
  }

  lemma EntriesEnter(c: Config, s: State, e: Event, x: Event)
    ensures (s.trying + multiset{e})[x] - s.trying[x] == (s.entered + multiset{e})[x] - s.entered[x]
  {
  }

  lemma EntriesSend(s: State, from: multiset<Event>, e: Event, x: Event)
    requires e in from
    ensures (from - multiset{e})[x] + multiset(s.accepted + [e])[x] == from[x] + multiset(s.accepted)[x]
  {
  }

  lemma EntriesMove(from: multiset<Event>, to: multiset<Event>, e: Event, x: Event)
    requires e in from
    ensures (from - multiset{e})[x] + (to + multiset{e})[x] == from[x] + to[x]
  {
  }

  lemma HeadTail(q: seq<Event>)
    requires q != []
    ensures q == [q[0]] + q[1..]
  {
  }

  lemma LineOfPushDone(c: Config, s: State, ok: bool)
    requires s.worker.Sending? && s.batch == []
    ensures Line(Apply(c, s, PushDone(ok))) == Line(s)
  {
    hide Wrap32, Pushed;
    PushedSnoc(s.attempts, Attempt(s.worker.events, ok), {true, false});
    var done := Pushed(s.attempts, {true, false});
    assert done + (s.worker.events + []) == (done + s.worker.events) + [];
  }

  lemma LineOfReceive(c: Config, s: State)
    requires s.worker.Selecting? && s.ch != []
    ensures Line(Apply(c, s, Receive)) == Line(s)
  {
    var before := Pushed(s.attempts, {true, false}) + s.batch;
    HeadTail(s.ch);
    assert before + ([s.ch[0]] + s.ch[1..]) == (before + [s.ch[0]]) + s.ch[1..];
    assert Pushed(s.attempts, {true, false}) + (s.batch + [s.ch[0]]) == before + [s.ch[0]];
  }

  lemma LineOfBatching(c: Config, s: State, step: Step)
    requires step.CountReceive? || step.Tick?
    requires Enabled(c, s, step)
    ensures Line(Apply(c, s, step)) == Line(s)
  {
    assert InHand(Apply(c, s, step)) == InHand(s);
  }

  predicate Moves(step: Step) {
    step.SendOk? || step.RetryOk? || step.Drain?
  }

  /** Only accepted sends and drains change the line. */
  lemma LineStep(c: Config, s: State, step: Step)
    requires Bounded(c, s) && Enabled(c, s, step) && !Moves(step)
    ensures Line(Apply(c, s, step)) == Line(s)
  {
    match step
    case PushDone(ok) => LineOfPushDone(c, s, ok);
    case Receive => LineOfReceive(c, s);
    case CountReceive => LineOfBatching(c, s, step);
    case Tick => LineOfBatching(c, s, step);
    case _ =>
  }

  lemma DrainedLine(c: Config, s: State, e: Event)
    requires Enabled(c, s, Drain(e)) && Subsequence(Line(s), s.accepted) && LineConserved(s)
    ensures var t := Apply(c, s, Drain(e));
            Subsequence(Line(t), t.accepted) && LineConserved(t)
  {
    hide Subsequence, Pushed, Holds;
    var before := Pushed(s.attempts, {true, false}) + InHand(s);
    HeadTail(s.ch);
    assert Line(s) == before + [s.ch[0]] + s.ch[1..];
    SubsequenceRemove(before, s.ch[0], s.ch[1..], s.accepted);
    assert Line(Apply(c, s, Drain(e))) == before + s.ch[1..];
  }

  lemma SentLine(s: State, e: Event)
    requires Subsequence(Line(s), s.accepted) && LineConserved(s)
    ensures Subsequence(Line(Send(s, e)), Send(s, e).accepted) && LineConserved(Send(s, e))
  {
    hide Subsequence, Pushed, Holds;
    SubsequenceAppend(Line(s), s.accepted, e);
    var before := Pushed(s.attempts, {true, false}) + InHand(s);
    assert before + (s.ch + [e]) == (before + s.ch) + [e];
  }

  lemma StepOrdered(c: Config, s: State, step: Step)
    requires Bounded(c, s) && Subsequence(Line(s), s.accepted) && LineConserved(s) && Enabled(c, s, step)
    ensures var t := Apply(c, s, step);
            Subsequence(Line(t), t.accepted) && LineConserved(t)
  {
    hide Subsequence, Pushed, Holds;
    match step
    case SendOk(e) => SentLine(s.(trying := s.trying - multiset{e}), e);
    case RetryOk(e) => SentLine(s.(retrying := s.retrying - multiset{e}), e);
    case Drain(e) => DrainedLine(c, s, e);
    case _ => LineStep(c, s, step);
  }

  lemma HealthKept(c: Config, s: State, step: Step)
    requires Enabled(c, s, step) && !step.PushDone?
    ensures Apply(c, s, step).healthy == s.healthy && Apply(c, s, step).attempts == s.attempts
  {
    hide Wrap32;
  }

  lemma StepHealth(c: Config, s: State, step: Step)
    requires s.healthy == (s.attempts == [] || s.attempts[|s.attempts| - 1].ok) && Enabled(c, s, step)
    ensures var t := Apply(c, s, step); t.healthy == (t.attempts == [] || t.attempts[|t.attempts| - 1].ok)
  {
    hide Wrap32;
    if !step.PushDone? {
      HealthKept(c, s, step);
    }
  }

  lemma StepInv(c: Config, s: State, step: Step)
    requires c.Valid() && Inv(c, s) && Enabled(c, s, step)
    ensures Inv(c, Apply(c, s, step))
  {
    StepBounded(c, s, step);
    StepDepth(c, s, step);
    StepEntries(c, s, step);
    StepOrdered(c, s, step);
    StepHealth(c, s, step);
  }

  // ---------------------------------------------------------------- runs

  /** The state after a run, or None when some step was not enabled. */
  datatype Outcome = Stuck | At(state: State)

  function Run(c: Config, s: State, steps: seq<Step>): Outcome
    decreases |steps|
  {
    if steps == [] then At(s)
    else if !Enabled(c, s, steps[0]) then Stuck
    else Run(c, Apply(c, s, steps[0]), steps[1..])
  }

  lemma {:induction false} RunInv(c: Config, s: State, steps: seq<Step>)
    requires c.Valid() && Inv(c, s)
    ensures Run(c, s, steps).At? ==> Inv(c, Run(c, s, steps).state)
    decreases |steps|
  {
    if steps != [] && Enabled(c, s, steps[0]) {
      StepInv(c, s, steps[0]);
      RunInv(c, Apply(c, s, steps[0]), steps[1..]);
    }
  }

  /** s is the state after some run of publishers, worker and ticks, in any interleaving. */
  ghost predicate Reachable(c: Config, s: State) {
    exists steps :: Run(c, Initial(), steps) == At(s)
  }

  lemma ReachableInv(c: Config, s: State)
    requires c.Valid() && Reachable(c, s)
    ensures Inv(c, s)
  {
    var steps :| Run(c, Initial(), steps) == At(s);
    InitialInv(c);
    RunInv(c, Initial(), steps);
  }

  lemma {:induction false} PushedSubsequence(attempts: seq<Attempt>, tail: seq<Event>, b: seq<Event>)
    requires Subsequence(Pushed(attempts, {true, false}) + tail, b)
    ensures Subsequence(Pushed(attempts, {true}) + tail, b)
  {
    if attempts != [] {
      var init, last := attempts[..|attempts| - 1], attempts[|attempts| - 1];
      var x, y := Pushed(init, {true, false}), Pushed(init, {true});
      assert x + last.events + tail == x + (last.events + tail);
      PushedSubsequence(init, last.events + tail, b);
      if last.ok {
        assert y + last.events + tail == y + (last.events + tail);
      } else {
        DropMiddle(y, last.events, tail, b);
        assert y + [] == y;
      }
    }
  }

  lemma {:induction false} DropMiddle(x: seq<Event>, m: seq<Event>, y: seq<Event>, b: seq<Event>)
    requires Subsequence(x + (m + y), b)
    ensures Subsequence(x + y, b)
    decreases |m|
  {
    if m == [] {
      assert m + y == y;
    } else {
      assert x + (m + y) == x + [m[0]] + (m[1..] + y);
      SubsequenceRemove(x, m[0], m[1..] + y, b);
      DropMiddle(x, m[1..], y, b);
    }
  }

  /**
   Order and bounds in every run of any publishers: the batches the peer took, then the events in hand, then the
   channel, form a subsequence of the order in which sends were accepted, and all sizes keep their limits.
   */
  lemma QueueOrder(c: Config, s: State)
    requires c.Valid() && Reachable(c, s)
    ensures Subsequence(Pushed(s.attempts, {true}) + InHand(s) + s.ch, s.accepted)
    ensures |s.ch| <= c.capacity
    ensures forall i {:trigger s.attempts[i]} :: 0 <= i < |s.attempts| ==> 1 <= |s.attempts[i].events| <= c.batchMax
  {
    hide Subsequence, Pushed, Holds, DepthExact, EntriesConserved, LineConserved;
    ReachableInv(c, s);
    var x, y := Pushed(s.attempts, {true, false}), Pushed(s.attempts, {true});
    assert x + InHand(s) + s.ch == x + (InHand(s) + s.ch);
    PushedSubsequence(s.attempts, InHand(s) + s.ch, s.accepted);
    assert y + InHand(s) + s.ch == y + (InHand(s) + s.ch);
  }

  lemma {:induction false} PushedSplit(attempts: seq<Attempt>)
    ensures multiset(Pushed(attempts, {true, false}))
            == multiset(Pushed(attempts, {true})) + multiset(Pushed(attempts, {false}))
  {
    if attempts != [] {
      PushedSplit(attempts[..|attempts| - 1]);
    }
  }

  /** All places an event can be other than a finished push. */
  function Elsewhere(s: State): multiset<Event> {
    s.trying + s.full + s.drained + s.retrying + s.rejected + s.discarded + multiset(s.ch) + multiset(InHand(s))
  }

  lemma ConservedSum(s: State)
    requires EntriesConserved(s) && LineConserved(s)
    ensures s.entered == Elsewhere(s) + multiset(Pushed(s.attempts, {true, false}))
  {
    assert multiset(Line(s)) == multiset(Pushed(s.attempts, {true, false})) + multiset(InHand(s)) + multiset(s.ch);
    var sum := Elsewhere(s) + multiset(Pushed(s.attempts, {true, false}));
    forall e
      ensures s.entered[e] == sum[e]
    {
      assert s.entered[e] == Entries(s, e);
    }
  }

  /**
   Conservation in every run: each event that entered is, once, still inside enqueue, refused, drained, in the
   channel, in the worker's hands, delivered, or lost with a failed push; and the counter does not drift.
   */
  lemma QueueConservation(c: Config, s: State)
    requires c.Valid() && Reachable(c, s)
    ensures s.entered == Elsewhere(s) + multiset(Pushed(s.attempts, {true})) + multiset(Pushed(s.attempts, {false}))
    ensures s.depth == Wrap32(Count(s))
    ensures s.incPending == 0 && s.drained == multiset{} && !s.worker.Received? && c.capacity < 0x8000_0000 ==>
              s.depth == |s.ch|
  {
    hide Elsewhere, Pushed, EntriesConserved, LineConserved, Subsequence, Holds, Reachable;
    ReachableInv(c, s);
    PushedSplit(s.attempts);
    ConservedSum(s);
    WrapAdd(|s.ch|, 0);
    SumAssociates(Elsewhere(s), multiset(Pushed(s.attempts, {true})), multiset(Pushed(s.attempts, {false})));
  }

  lemma SumAssociates(x: multiset<Event>, a: multiset<Event>, b: multiset<Event>)
    ensures x + (a + b) == x + a + b
  {
  }

  /** A publisher never waits: each select has exactly one of its two cases, and each pending update can be made. */
  lemma EnqueueNeverBlocks(c: Config, s: State, e: Event)
    requires c.Valid() && Reachable(c, s)
    ensures e in s.trying ==> (Enabled(c, s, SendOk(e)) <==> |s.ch| != c.capacity)
                              && (Enabled(c, s, FindFull(e)) <==> |s.ch| == c.capacity)
    ensures e in s.full ==> (Enabled(c, s, Drain(e)) <==> s.ch != []) && (Enabled(c, s, FindEmpty(e)) <==> s.ch == [])
    ensures e in s.drained ==> Enabled(c, s, CountDrain(e))
    ensures e in s.retrying ==> (Enabled(c, s, RetryOk(e)) <==> |s.ch| != c.capacity)
                                && (Enabled(c, s, RetryFull(e)) <==> |s.ch| == c.capacity)
    ensures Enabled(c, s, Enter(e)) && (s.incPending > 0 ==> Enabled(c, s, CountSend))
  {
    hide Reachable, Line, Subsequence, EntriesConserved, LineConserved, DepthExact;
    ReachableInv(c, s);
  }

  // ---------------------------------------------------------------- one publisher at a time

  /** Events inside enqueue before their send has been accepted or refused, and sends not yet counted. */
  function Inside(s: State): nat {
    |s.trying| + |s.full| + |s.drained| + |s.retrying| + s.incPending
  }

  predicate Solo(c: Config, s: State, steps: seq<Step>)
    decreases |steps|
  {
    Inside(s) <= 1
    && (steps != [] && Enabled(c, s, steps[0]) ==> Solo(c, Apply(c, s, steps[0]), steps[1..]))
  }

  predicate RoomToRetry(c: Config, s: State) {
    s.retrying != multiset{} || s.drained != multiset{} ==> |s.ch| < c.capacity
  }

  lemma Takes(m: multiset<Event>, e: Event)
    requires e in m
    ensures |m| >= 1 && |m - multiset{e}| == |m| - 1
  {
    assert m == (m - multiset{e}) + multiset{e};
  }

  lemma SoloStep(c: Config, s: State, step: Step)
    requires c.Valid() && Bounded(c, s) && s.rejected == multiset{} && RoomToRetry(c, s)
    requires Enabled(c, s, step) && Inside(s) <= 1
    ensures Apply(c, s, step).rejected == multiset{} && RoomToRetry(c, Apply(c, s, step))
  {
    var t := Apply(c, s, step);
    if step.SendOk? {
      Takes(s.trying, step.e);
      assert t.retrying == multiset{} && t.drained == multiset{};
    } else if step.RetryOk? {
      SoloRetry(s, step.e);
      assert t.retrying == multiset{} && t.drained == multiset{};
    } else if step.Drain? || step.FindEmpty? {
      assert |t.ch| < c.capacity;
    } else {
      SoloElse(c, s, step);
    }
  }

  lemma SoloElse(c: Config, s: State, step: Step)
    requires Bounded(c, s) && s.rejected == multiset{} && RoomToRetry(c, s) && Enabled(c, s, step)
    requires !step.SendOk? && !step.RetryOk? && !step.Drain? && !step.FindEmpty?
    ensures Apply(c, s, step).rejected == multiset{} && RoomToRetry(c, Apply(c, s, step))
  {
    hide Wrap32;
    var t := Apply(c, s, step);
    assert !step.RetryFull?;
    ChannelNoLonger(c, s, step);
    NoneStartsRetrying(c, s, step);
  }

  lemma NoneStartsRetrying(c: Config, s: State, step: Step)
    requires Enabled(c, s, step) && !step.Drain? && !step.FindEmpty?
    ensures var t := Apply(c, s, step);
            t.retrying != multiset{} || t.drained != multiset{} ==> s.retrying != multiset{} || s.drained != multiset{}
  {
    hide Wrap32;
  }

  lemma ChannelNoLonger(c: Config, s: State, step: Step)
    requires Enabled(c, s, step) && !step.SendOk? && !step.RetryOk?
    ensures |Apply(c, s, step).ch| <= |s.ch|
  {
    hide Wrap32;
  }

  lemma SoloRetry(s: State, e: Event)
    requires e in s.retrying && Inside(s) <= 1
    ensures s.retrying - multiset{e} == multiset{} && s.drained == multiset{}
  {
    Takes(s.retrying, e);
  }

  /** When publishers never overlap, drop-oldest never drops the newest: no event is refused. */
  lemma {:induction false} SoloNeverRejects(c: Config, s: State, steps: seq<Step>)
    requires c.Valid() && Bounded(c, s) && s.rejected == multiset{} && RoomToRetry(c, s)
    requires Solo(c, s, steps) && Run(c, s, steps).At?
    ensures Run(c, s, steps).state.rejected == multiset{}
    decreases |steps|
  {
    if steps != [] {
      StepBounded(c, s, steps[0]);
      SoloStep(c, s, steps[0]);
      SoloNeverRejects(c, Apply(c, s, steps[0]), steps[1..]);
    }
  }
}

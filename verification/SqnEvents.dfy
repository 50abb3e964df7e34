/**
 The SQN events of internal/diameter/s6a/air.go and internal/gsup/handlers.go over whole runs: when a peer is told of
 more than the AUC record holds.
 */
module SqnEvents {
  import opened Bytes
  import opened SqnRuns

  /** No step of the run lowers the column: no resynchronisation below it and no int64 overflow. */
  predicate NeverLowers(s: State, steps: seq<Step>)
    decreases |steps|
  {
    steps != [] && Enabled(s, steps[0]) ==>
      Apply(s, steps[0]).stored >= s.stored && NeverLowers(Apply(s, steps[0]), steps[1..])
  }

  /** The vectors a thread has reserved since the read it will publish from. */
  function Reserves(th: Thread): int {
    match th.phase
    case Reserving(left) => Count(th.req) - left
    case Publishing => Count(th.req)
    case _ => 0
  }

  predicate ThreadBehind(s: State, th: Thread) {
    && (th.phase.Reserving? || th.phase.Publishing? ==> th.seen + 32 * Reserves(th) <= s.stored)
    && (th.phase.Reserving? ==> 1 <= th.phase.left <= Count(th.req))
    && (th.phase.Reserving? && th.req.S6a? ==> th.phase.left == Count(th.req))
    && -TWO_TO_63 <= th.seen
  }

  predicate Behind(s: State) {
    && (forall v :: v in s.past ==> -TWO_TO_63 <= v <= s.stored)
    && (forall t :: t in s.threads ==> ThreadBehind(s, s.threads[t]))
    && (forall v :: v in s.events ==> v <= s.stored)
    && -TWO_TO_63 <= s.stored < TWO_TO_63
  }

  lemma ReserveRises(s: State, n: nat)
    requires -TWO_TO_63 <= s.stored < TWO_TO_63 && n <= 5 && Reserved(s, n).stored >= s.stored
    ensures Reserved(s, n).stored == s.stored + 32 * n
  {
  }

  lemma MovedBehind(s: State, t: nat, th: Thread)
    requires Behind(s) && ThreadBehind(s, th)
    ensures Behind(Moved(s, t, th))
  {
  }

  lemma RisenBehind(s: State, r: State)
    requires Behind(s) && s.stored <= r.stored < TWO_TO_63
    requires r.past == s.past + {r.stored} && r.threads == s.threads && r.events == s.events
    ensures Behind(r)
  {
  }

  lemma ReserveBehind(s: State, t: nat)
    requires Behind(s) && Enabled(s, Reserve(t)) && Apply(s, Reserve(t)).stored >= s.stored
    ensures Behind(Apply(s, Reserve(t)))
  {
    var th := s.threads[t];
    var r := Reserved(s, Grab(th));
    ReserveRises(s, Grab(th));
    RisenBehind(s, r);
    MovedBehind(r, t, AfterReserve(th));
  }

  lemma StepBehind(s: State, step: Step)
    requires Behind(s) && Requests(s) && Enabled(s, step) && Apply(s, step).stored >= s.stored
    ensures Behind(Apply(s, step))
  {
    match step
    case Reserve(t) => ReserveBehind(s, t);
    case Write(t) =>
      var th := s.threads[t];
      var r := Rewritten(s, ResyncValue(th.req), ResyncOrigin(th.req));
      RisenBehind(s, r);
      MovedBehind(r, t, th.(phase := Reloading));
    case MergeIn(v) => RisenBehind(s, Rewritten(s, v, ByGeored));
    case Publish(t) =>
      var th := s.threads[t];
      assert th.seen + 32 * Count(th.req) <= s.stored;
      var r := s.(events := s.events + {Wrap64(th.seen + 32 * Count(th.req))});
      MovedBehind(r, t, th.(phase := Finished));
    case Begin(t, req) => MovedBehind(s, t, Thread(req, Reading, 0));
    case Read(t, v) =>
      var th := s.threads[t];
      var next := if ResyncOf(th.req).Some? then Rewriting else Reserving(Count(th.req));
      MovedBehind(s, t, th.(seen := v, phase := next));
    case Reload(t, v) => MovedBehind(s, t, s.threads[t].(seen := v, phase := Reserving(Count(s.threads[t].req))));
    case Abandon(t) => MovedBehind(s, t, s.threads[t].(phase := Finished));
  }

  lemma {:induction false} RunBehind(s: State, steps: seq<Step>)
    requires Behind(s) && Inv(s) && NeverLowers(s, steps)
    ensures Run(s, steps).At? ==> Behind(Run(s, steps).state)
    decreases |steps|
  {
    if steps != [] && Enabled(s, steps[0]) {
      StepInv(s, steps[0]);
      StepBehind(s, steps[0]);
      RunBehind(Apply(s, steps[0]), steps[1..]);
    }
  }

  /** While no resynchronisation lowers the column, no event advertises more than the record holds. */
  lemma AdvertisedIsStored(sqn: int, steps: seq<Step>, s: State)
    requires -TWO_TO_63 <= sqn < TWO_TO_63 && Run(Initial(sqn), steps) == At(s) && NeverLowers(Initial(sqn), steps)
    ensures forall v :: v in s.events ==> v <= s.stored
    ensures forall t :: t in s.threads && s.threads[t].phase.Publishing? ==>
              s.threads[t].seen + 32 * Count(s.threads[t].req) <= s.stored
  {
    RunBehind(Initial(sqn), steps);
  }

  /** The vectors a request about to reserve or publish has yet to reserve, and the SQN it will advertise after them. */
  function Left(th: Thread): nat {
    if th.phase.Reserving? then th.phase.left else 0
  }

  function Advertised(th: Thread): int {
    Wrap64(th.seen + 32 * Count(th.req))
  }

  predicate Advertises(th: Thread) {
    (th.req.S6a? || th.req.Gsup?) && (th.phase.Reserving? || th.phase.Publishing?)
  }

  /** The request will advertise more than the column holds if it alone goes on. */
  predicate Overtakes(s: State, th: Thread) {
    Advertises(th) && Advertised(th) > s.stored + 32 * Left(th)
  }

  /** The column is below an earlier value a request can still read, below what a request will publish, or an event. */
  ghost predicate Stale(s: State) {
    || (exists v :: v in s.past && s.stored < v < TWO_TO_63 - 32)
    || (exists t :: t in s.threads && Overtakes(s, s.threads[t]))
    || AboveColumn(s)
  }

  ghost predicate AboveColumn(s: State) {
    exists v :: v in s.events && v > s.stored
  }

  ghost predicate OveradvertisedBy(s: State, steps: seq<Step>) {
    NeverLowers(s, steps) && Run(s, steps).At? && AboveColumn(Run(s, steps).state)
  }

  predicate ThreadShaped(s: State, th: Thread) {
    match th.phase
    case Reserving(left) =>
      th.seen in s.past && 1 <= left <= Count(th.req) && (th.req.S6a? ==> left == Count(th.req))
    case Publishing => th.seen in s.past && (th.req.S6a? || th.req.Gsup?)
    case _ => true
  }

  predicate Shaped(s: State) {
    && s.stored in s.past
    && (forall v :: v in s.past ==> -TWO_TO_63 <= v < TWO_TO_63)
    && (forall t :: t in s.threads ==> ThreadShaped(s, s.threads[t]))
  }

  lemma StepShaped(s: State, step: Step)
    requires Shaped(s) && Requests(s) && Enabled(s, step)
    ensures Shaped(Apply(s, step))
  {
    hide Wrap64;
    forall u | u in Apply(s, step).threads
      ensures ThreadShaped(Apply(s, step), Apply(s, step).threads[u])
    {
      if u in s.threads {
        assert ThreadShaped(s, s.threads[u]);
      }
    }
  }

  lemma {:induction false} RunShaped(s: State, steps: seq<Step>)
    requires Inv(s) && Shaped(s)
    ensures Run(s, steps).At? ==> Shaped(Run(s, steps).state)
    decreases |steps|
  {
    if steps != [] && Enabled(s, steps[0]) {
      StepInv(s, steps[0]);
      StepShaped(s, steps[0]);
      RunShaped(Apply(s, steps[0]), steps[1..]);
    }
  }

  lemma MovedNotStale(s: State, t: nat, th: Thread)
    requires !Stale(s) && !Overtakes(s, th)
    ensures !Stale(Moved(s, t, th))
  {
  }

  lemma RisenNotStale(s: State, r: State)
    requires !Stale(s) && s.stored <= r.stored
    requires r.past == s.past + {r.stored} && r.threads == s.threads && r.events == s.events
    ensures !Stale(r)
  {
  }

  /** A value that is not stale makes no request overtake the column. */
  lemma ReadNotAbove(s: State, th: Thread)
    requires Shaped(s) && !Stale(s) && th.seen in s.past && Left(th) == Count(th.req)
    ensures !Overtakes(s, th)
  {
    assert s.stored in s.past;
    assert th.seen <= s.stored || th.seen >= TWO_TO_63 - 32;
  }

  lemma ReserveNotStale(s: State, t: nat)
    requires Shaped(s) && !Stale(s) && Enabled(s, Reserve(t)) && Apply(s, Reserve(t)).stored >= s.stored
    ensures !Stale(Apply(s, Reserve(t)))
  {
    var th := s.threads[t];
    var r := Reserved(s, Grab(th));
    assert ThreadShaped(s, th);
    ReserveRises(s, Grab(th));
    RisenNotStale(s, r);
    assert !Overtakes(s, th);
    MovedNotStale(r, t, AfterReserve(th));
  }

  lemma StepNotStale(s: State, step: Step)
    requires Shaped(s) && !Stale(s) && Enabled(s, step) && Apply(s, step).stored >= s.stored
    ensures !Stale(Apply(s, step))
  {
    match step
    case Reserve(t) => ReserveNotStale(s, t);
    case Write(t) =>
      var th := s.threads[t];
      var r := Rewritten(s, ResyncValue(th.req), ResyncOrigin(th.req));
      RisenNotStale(s, r);
      MovedNotStale(r, t, th.(phase := Reloading));
    case MergeIn(v) => RisenNotStale(s, Rewritten(s, v, ByGeored));
    case Publish(t) =>
      var th := s.threads[t];
      assert ThreadShaped(s, th) && !Overtakes(s, th);
      var r := s.(events := s.events + {Advertised(th)});
      MovedNotStale(r, t, th.(phase := Finished));
    case Begin(t, req) => MovedNotStale(s, t, Thread(req, Reading, 0));
    case Read(t, v) =>
      var th := s.threads[t];
      var next := th.(seen := v, phase := if ResyncOf(th.req).Some? then Rewriting else Reserving(Count(th.req)));
      if next.phase.Reserving? {
        ReadNotAbove(s, next);
      }
      MovedNotStale(s, t, next);
    case Reload(t, v) =>
      var next := s.threads[t].(seen := v, phase := Reserving(Count(s.threads[t].req)));
      ReadNotAbove(s, next);
      MovedNotStale(s, t, next);
    case Abandon(t) => MovedNotStale(s, t, s.threads[t].(phase := Finished));
  }

  lemma {:induction false} RunNotStale(s: State, steps: seq<Step>)
    requires Inv(s) && Shaped(s) && !Stale(s) && NeverLowers(s, steps)
    ensures Run(s, steps).At? ==> !Stale(Run(s, steps).state)
    decreases |steps|
  {
    hide Stale, Apply, Enabled;
    if steps != [] && Enabled(s, steps[0]) {
      StepInv(s, steps[0]);
      StepShaped(s, steps[0]);
      StepNotStale(s, steps[0]);
      RunNotStale(Apply(s, steps[0]), steps[1..]);
    }
  }

  lemma OveradvertisedCons(s: State, step: Step, rest: seq<Step>)
    requires Enabled(s, step) && Apply(s, step).stored >= s.stored && OveradvertisedBy(Apply(s, step), rest)
    ensures OveradvertisedBy(s, [step] + rest)
  {
    hide Apply, Enabled, AboveColumn;
    assert ([step] + rest)[1..] == rest;
  }

  /** A request that overtakes the column does so by going on alone. */
  lemma {:induction false} GoingOn(s: State, t: nat) returns (steps: seq<Step>)
    requires t in s.threads && Overtakes(s, s.threads[t])
    requires ThreadShaped(s, s.threads[t]) && -TWO_TO_63 <= s.stored < TWO_TO_63
    ensures OveradvertisedBy(s, steps)
    decreases Left(s.threads[t])
  {
    var th := s.threads[t];
    if th.phase.Publishing? {
      assert Advertised(th) in Apply(s, Publish(t)).events;
      assert OveradvertisedBy(Apply(s, Publish(t)), []);
      OveradvertisedCons(s, Publish(t), []);
      steps := [Publish(t)] + [];
    } else {
      ReserveRisesBelow(s, Grab(th));
      var rest := GoingOn(Apply(s, Reserve(t)), t);
      OveradvertisedCons(s, Reserve(t), rest);
      steps := [Reserve(t)] + rest;
    }
  }

  lemma ReserveRisesBelow(s: State, n: nat)
    requires -TWO_TO_63 <= s.stored && s.stored + 32 * n < TWO_TO_63
    ensures Reserved(s, n).stored == s.stored + 32 * n
  {
  }

  /** A stale value misleads the next GSUP request that reads it. */
  lemma ReadingStale(s: State, v: int) returns (steps: seq<Step>)
    requires v in s.past && s.stored < v < TWO_TO_63 - 32 && -TWO_TO_63 <= s.stored
    ensures OveradvertisedBy(s, steps)
  {
    var t := FreshThread(s.threads);
    var s1 := Apply(s, Begin(t, Gsup(1)));
    var s2 := Apply(s1, Read(t, v));
    assert s2.threads[t] == Thread(Gsup(1), Reserving(1), v);
    var rest := GoingOn(s2, t);
    OveradvertisedCons(s1, Read(t, v), rest);
    OveradvertisedCons(s, Begin(t, Gsup(1)), [Read(t, v)] + rest);
    steps := [Begin(t, Gsup(1))] + ([Read(t, v)] + rest);
  }

  /**
   The code lets a peer be told of more than the column holds. From any reachable state a run that never lowers the
   column reaches that exactly when the state is stale: the column lies below an earlier value that a cached read can
   still return, below what a request under way is about to publish, or below an event.
   */
  lemma OveradvertisedIff(s: State)
    requires Reachable(s)
    ensures (exists steps :: OveradvertisedBy(s, steps)) <==> Stale(s)
  {
    ReachableShaped(s);
    if Stale(s) {
      if v :| v in s.past && s.stored < v < TWO_TO_63 - 32 {
        var steps := ReadingStale(s, v);
      } else if t :| t in s.threads && Overtakes(s, s.threads[t]) {
        var steps := GoingOn(s, t);
      } else {
        assert OveradvertisedBy(s, []);
      }
    } else {
      forall steps
        ensures !OveradvertisedBy(s, steps)
      {
        if NeverLowers(s, steps) {
          RunNotStale(s, steps);
        }
      }
    }
  }

  lemma ReachableShaped(s: State)
    requires Reachable(s)
    ensures Inv(s) && Shaped(s)
  {
    ReachableInv(s);
    var sqn: int, steps :| -TWO_TO_63 <= sqn < TWO_TO_63 && Run(Initial(sqn), steps) == At(s);
    assert Inv(Initial(sqn)) && Shaped(Initial(sqn));
    RunShaped(Initial(sqn), steps);
  }

  /**
   One way to be stale: once a write has lowered the column below an earlier value v, a GSUP request that still gets v
   from the cache advertises v + 32 while the record holds less.
   */
  lemma LoweringOveradvertises(s: State, v: int, t: nat)
    requires v in s.past && v > s.stored && t !in s.threads && -TWO_TO_63 <= s.stored && v + 32 < TWO_TO_63
    ensures var steps := [Begin(t, Gsup(1)), Read(t, v), Reserve(t), Publish(t)];
            Run(s, steps).At? && v + 32 in Run(s, steps).state.events && Run(s, steps).state.stored < v + 32
  {
    var s1 := Apply(s, Begin(t, Gsup(1)));
    var s2 := Apply(s1, Read(t, v));
    var s3 := Apply(s2, Reserve(t));
    var s4 := Apply(s3, Publish(t));
    assert s3.stored == s.stored + 32 && s4.stored == s3.stored && v + 32 in s4.events;
    var steps := [Begin(t, Gsup(1)), Read(t, v), Reserve(t), Publish(t)];
    assert steps[1..] == [Read(t, v), Reserve(t), Publish(t)];
    assert steps[1..][1..] == [Reserve(t), Publish(t)];
    assert steps[1..][1..][1..] == [Publish(t)];
    assert Run(s3, [Publish(t)]) == At(s4);
    assert Run(s2, steps[1..][1..]) == At(s4);
    assert Run(s1, steps[1..]) == At(s4);
  }

  /** Any resynchronisation to below an SQN the record has had reaches a stale state. */
  lemma LoweringReachable(sqn: int, ms: nat) returns (s: State)
    requires ms < sqn < TWO_TO_63 && ms < TWO_TO_48
    ensures Reachable(s) && sqn in s.past && sqn > s.stored == ms && 1 !in s.threads
    ensures sqn < TWO_TO_63 - 32 ==> Stale(s)
  {
    s := JustResynced(sqn, FiveG(Some(ms)));
  }

  /** Every read returns the column itself. */
  predicate FreshReads(s: State, steps: seq<Step>)
    decreases |steps|
  {
    steps != [] && Enabled(s, steps[0]) ==>
      && (steps[0].Read? || steps[0].Reload? ==> steps[0].v == s.stored)
      && FreshReads(Apply(s, steps[0]), steps[1..])
  }

  lemma FreshCons(s: State, step: Step, rest: seq<Step>, end: State)
    requires Enabled(s, step) && (step.Read? || step.Reload? ==> step.v == s.stored)
    requires FreshReads(Apply(s, step), rest) && Run(Apply(s, step), rest) == At(end)
    ensures FreshReads(s, [step] + rest) && Run(s, [step] + rest) == At(end)
  {
    hide Apply, Enabled;
    assert ([step] + rest)[1..] == rest;
  }

  /** A 5G resynchronisation writes between a GSUP request's read and its reservation. */
  lemma LoweredUnder(s: State, ms: nat) returns (steps: seq<Step>, end: State)
    requires 0 in s.threads && s.threads[0] == Thread(Gsup(1), Reserving(1), s.stored)
    requires 1 in s.threads && s.threads[1] == Thread(FiveG(Some(ms)), Rewriting, s.stored)
    requires ms < TWO_TO_48 && ms < s.stored < TWO_TO_63 - 32
    ensures FreshReads(s, steps) && Run(s, steps) == At(end)
    ensures end.stored == ms + 32 && s.stored + 32 in end.events
  {
    var s1 := Apply(s, Write(1));
    var s2 := Apply(s1, Reserve(0));
    end := Apply(s2, Publish(0));
    FreshCons(s2, Publish(0), [], end);
    FreshCons(s1, Reserve(0), [Publish(0)] + [], end);
    FreshCons(s, Write(1), [Reserve(0)] + ([Publish(0)] + []), end);
    steps := [Write(1)] + ([Reserve(0)] + ([Publish(0)] + []));
  }

  /**
   No stale cache is needed: a GSUP request reads the column, a 5G request resynchronises it to a lower SQN_MS, and the
   GSUP request then reserves its vector from the lowered column but advertises from what it read.
   */
  lemma FreshReadsOveradvertise(sqn: int, ms: nat) returns (steps: seq<Step>, s: State)
    requires ms < TWO_TO_48 && ms < sqn < TWO_TO_63 - 32
    ensures Run(Initial(sqn), steps) == At(s) && FreshReads(Initial(sqn), steps)
    ensures s.stored == ms + 32 < sqn + 32 && sqn + 32 in s.events
  {
    var slow, resync := Gsup(1), FiveG(Some(ms));
    var s0 := Initial(sqn);
    var s1 := Apply(s0, Begin(0, slow));
    var s2 := Apply(s1, Read(0, sqn));
    var s3 := Apply(s2, Begin(1, resync));
    var s4 := Apply(s3, Read(1, sqn));
    steps, s := LoweredUnder(s4, ms);
    hide Run, FreshReads;
    FreshCons(s3, Read(1, sqn), steps, s);
    steps := [Read(1, sqn)] + steps;
    FreshCons(s2, Begin(1, resync), steps, s);
    steps := [Begin(1, resync)] + steps;
    FreshCons(s1, Read(0, sqn), steps, s);
    steps := [Read(0, sqn)] + steps;
    FreshCons(s0, Begin(0, slow), steps, s);
    steps := [Begin(0, slow)] + steps;
  }
}

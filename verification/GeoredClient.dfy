/** The peer client of internal/geored/client.go when its goroutines take turns, and Publish of manager.go. */
module GeoredClient {
  import opened GeoredQueue

  lemma {:induction false} RunAppend(c: Config, s: State, steps: seq<Step>, step: Step)
    requires Run(c, s, steps).At?
    ensures Run(c, s, steps + [step])
            == if Enabled(c, Run(c, s, steps).state, step) then At(Apply(c, Run(c, s, steps).state, step)) else Stuck
    decreases |steps|
  {
    if steps == [] {
      assert [] + [step] == [step] && [step][1..] == [];
    } else {
      RunAppend(c, Apply(c, s, steps[0]), steps[1..], step);
      assert (steps + [step])[1..] == steps[1..] + [step];
    }
  }

  lemma ReachableStep(c: Config, s: State, step: Step)
    requires Reachable(c, s) && Enabled(c, s, step)
    ensures Reachable(c, Apply(c, s, step))
  {
    var steps :| Run(c, Initial(), steps) == At(s);
    RunAppend(c, Initial(), steps, step);
  }

  lemma ReachableInitial(c: Config)
    ensures Reachable(c, Initial())
  {
    assert Run(c, Initial(), []) == At(Initial());
  }

  /** A machine state in which nobody is inside enqueue and the worker waits. */
  ghost predicate Quiet(s: State) {
    && s.trying == multiset{} && s.full == multiset{} && s.drained == multiset{} && s.retrying == multiset{}
    && s.incPending == 0 && s.worker.Selecting?
  }

  /** The first publisher steps of an undisturbed enqueue, each as a change of the quiet state s. */
  ghost function Arrived(s: State, e: Event): State {
    s.(trying := multiset{e}, entered := s.entered + multiset{e})
  }

  ghost function SawFull(s: State, e: Event): State {
    s.(full := multiset{e}, entered := s.entered + multiset{e})
  }

  ghost function DroppedOldest(s: State, e: Event): State
    requires s.ch != []
  {
    s.(drained := multiset{e}, entered := s.entered + multiset{e}, ch := s.ch[1..],
       discarded := s.discarded + multiset{s.ch[0]})
  }

  ghost function AboutToRetry(s: State, e: Event): State
    requires s.ch != []
  {
    s.(retrying := multiset{e}, entered := s.entered + multiset{e}, ch := s.ch[1..],
       discarded := s.discarded + multiset{s.ch[0]}, depth := Wrap32(s.depth - 1))
  }

  /** The whole of enqueue on a quiet state whose channel is below capacity, respectively full. */
  ghost function Sent(s: State, e: Event): State {
    s.(ch := s.ch + [e], accepted := s.accepted + [e], entered := s.entered + multiset{e},
       depth := Wrap32(s.depth + 1))
  }

  ghost function SentOverOldest(s: State, e: Event): State
    requires s.ch != []
  {
    s.(ch := s.ch[1..] + [e], accepted := s.accepted + [e], entered := s.entered + multiset{e},
       discarded := s.discarded + multiset{s.ch[0]}, depth := Wrap32(Wrap32(s.depth - 1) + 1))
  }

  lemma OnlyOne(e: Event)
    ensures multiset{} + multiset{e} == multiset{e} && multiset{e} - multiset{e} == multiset{} && e in multiset{e}
  {
  }

  lemma Arrives(c: Config, s: State, e: Event)
    requires Reachable(c, s) && Quiet(s)
    ensures Reachable(c, Arrived(s, e))
  {
    hide Reachable, Wrap32;
    OnlyOne(e);
    ReachableStep(c, s, Enter(e));
    assert Apply(c, s, Enter(e)) == Arrived(s, e);
  }

  lemma Counted(c: Config, s: State, e: Event)
    requires s.incPending == 0 && Reachable(c, Send(s, e))
    ensures Reachable(c, s.(ch := s.ch + [e], accepted := s.accepted + [e], depth := Wrap32(s.depth + 1)))
  {
    hide Reachable, Wrap32;
    var t := Send(s, e);
    ReachableStep(c, t, CountSend);
    assert Apply(c, t, CountSend)
        == s.(ch := s.ch + [e], accepted := s.accepted + [e], depth := Wrap32(s.depth + 1));
  }

  lemma SendsWithRoom(c: Config, s: State, e: Event)
    requires Reachable(c, Arrived(s, e)) && Quiet(s) && |s.ch| < c.capacity
    ensures Reachable(c, Send(s.(entered := s.entered + multiset{e}), e))
  {
    hide Reachable, Wrap32;
    OnlyOne(e);
    var t := Arrived(s, e);
    ReachableStep(c, t, SendOk(e));
    assert t.(trying := t.trying - multiset{e}) == s.(entered := s.entered + multiset{e});
  }

  lemma EnqueueWithRoom(c: Config, s: State, e: Event)
    requires Reachable(c, s) && Quiet(s) && |s.ch| < c.capacity
    ensures Reachable(c, Sent(s, e))
  {
    hide Reachable, Wrap32;
    Arrives(c, s, e);
    SendsWithRoom(c, s, e);
    Counted(c, s.(entered := s.entered + multiset{e}), e);
  }

  lemma FindsFull(c: Config, s: State, e: Event)
    requires Reachable(c, Arrived(s, e)) && Quiet(s) && |s.ch| >= c.capacity
    ensures Reachable(c, SawFull(s, e))
  {
    hide Reachable, Wrap32;
    OnlyOne(e);
    var t := Arrived(s, e);
    ReachableStep(c, t, FindFull(e));
    assert Apply(c, t, FindFull(e)) == SawFull(s, e);
  }

  lemma DropsOldest(c: Config, s: State, e: Event)
    requires Reachable(c, SawFull(s, e)) && Quiet(s) && s.ch != []
    ensures Reachable(c, DroppedOldest(s, e))
  {
    hide Reachable, Wrap32;
    OnlyOne(e);
    var t := SawFull(s, e);
    ReachableStep(c, t, Drain(e));
    assert Apply(c, t, Drain(e)) == DroppedOldest(s, e);
  }

  lemma CountsDrop(c: Config, s: State, e: Event)
    requires s.ch != [] && Reachable(c, DroppedOldest(s, e)) && Quiet(s)
    ensures Reachable(c, AboutToRetry(s, e))
  {
    hide Reachable, Wrap32;
    OnlyOne(e);
    var t := DroppedOldest(s, e);
    ReachableStep(c, t, CountDrain(e));
    assert Apply(c, t, CountDrain(e)) == AboutToRetry(s, e);
  }

  lemma Retries(c: Config, s: State, e: Event)
    requires s.ch != [] && Reachable(c, AboutToRetry(s, e)) && Quiet(s) && |s.ch| <= c.capacity
    ensures Reachable(c, Send(AboutToRetry(s, e).(retrying := multiset{}), e))
  {
    hide Reachable, Wrap32;
    OnlyOne(e);
    var t := AboutToRetry(s, e);
    ReachableStep(c, t, RetryOk(e));
    assert t.(retrying := t.retrying - multiset{e}) == t.(retrying := multiset{});
  }

  lemma EnqueueWhenFull(c: Config, s: State, e: Event)
    requires c.Valid() && Reachable(c, s) && Quiet(s) && |s.ch| == c.capacity
    ensures Reachable(c, SentOverOldest(s, e))
  {
    hide Reachable, Wrap32;
    Arrives(c, s, e);
    FindsFull(c, s, e);
    DropsOldest(c, s, e);
    CountsDrop(c, s, e);
    Retries(c, s, e);
    RetrySent(c, s, AboutToRetry(s, e).(retrying := multiset{}), e);
  }

  lemma RetrySent(c: Config, s: State, t: State, e: Event)
    requires Quiet(s) && s.ch != [] && t == AboutToRetry(s, e).(retrying := multiset{}) && Reachable(c, Send(t, e))
    ensures Reachable(c, SentOverOldest(s, e))
  {
    hide Reachable, Wrap32;
    Counted(c, t, e);
    assert t.(ch := t.ch + [e], accepted := t.accepted + [e], depth := Wrap32(t.depth + 1)) == SentOverOldest(s, e);
  }

  /** A channel is cut by its oldest event exactly when it is full. */
  function MakeRoom(c: Config, q: seq<Event>): seq<Event> {
    if q == [] || |q| < c.capacity then q else q[1..]
  }

  lemma RoomMade(c: Config, q: seq<Event>)
    requires c.Valid() && |q| <= c.capacity
    ensures MakeRoom(c, q) == if |q| < c.capacity then q else q[1..]
  {
  }

  lemma CutAtHead(q: seq<Event>)
    requires q != []
    ensures multiset{q[0]} + multiset(q[1..]) == multiset(q)
  {
    HeadTail(q);
  }

  lemma WithinCapacity(c: Config, s: State)
    requires c.Valid() && Reachable(c, s)
    ensures |s.ch| <= c.capacity
  {
    ReachableInv(c, s);
  }

  /** What an undisturbed enqueue leaves, with room and without. */
  ghost predicate Accepted(c: Config, s: State, t: State, e: Event) {
    && Quiet(t) && t.batch == s.batch && t.healthy == s.healthy && t.attempts == s.attempts
    && t.accepted == s.accepted + [e] && t.rejected == s.rejected && t.ch == MakeRoom(c, s.ch) + [e]
    && t.discarded + multiset(MakeRoom(c, s.ch)) == s.discarded + multiset(s.ch)
  }

  lemma SentResult(c: Config, s: State, e: Event)
    requires Quiet(s) && |s.ch| < c.capacity
    ensures Accepted(c, s, Sent(s, e), e) && Sent(s, e).ch == s.ch + [e] && Sent(s, e).depth == Wrap32(s.depth + 1)
  {
    hide Wrap32;
  }

  lemma SentOverOldestResult(c: Config, s: State, e: Event)
    requires Quiet(s) && s.ch != [] && |s.ch| >= c.capacity
    ensures var t := SentOverOldest(s, e);
            && Accepted(c, s, t, e) && t.ch == s.ch[1..] + [e] && t.depth == Wrap32(Wrap32(s.depth - 1) + 1)
  {
    hide Wrap32;
    CutAtHead(s.ch);
  }

  class PeerClient {
    const config: Config
    var ch: seq<Event>
    var queueDepth: int
    var batch: seq<Event>
    var healthy: bool
    ghost var st: State

    /** The fields are those of a reachable quiet state of the machine. */
    ghost predicate Valid()
      reads this
    {
      && config.Valid() && Reachable(config, st) && Quiet(st)
      && st.ch == ch && st.depth == queueDepth && st.batch == batch && st.healthy == healthy
    }

    constructor (c: Config)
      requires c.Valid()
      ensures Valid() && config == c && ch == [] && st == Initial()
    {
      config := c;
      ch, queueDepth, batch, healthy, st := [], 0, [], true, Initial();
      ReachableInitial(c);
    }

    ghost method Take(step: Step)
      requires Reachable(config, st) && Enabled(config, st, step)
      modifies this`st
      ensures st == Apply(config, old(st), step) && Reachable(config, st)
    {
      ReachableStep(config, st, step);
      st := Apply(config, st, step);
    }

    /** Undisturbed, enqueue always gets its event in, at the price of the oldest one when the queue is full. */
    method Enqueue(e: Event)
      requires Valid()
      modifies this
      ensures Valid()
      ensures ch == (if |old(ch)| < config.capacity then old(ch) else old(ch)[1..]) + [e]
      ensures st.accepted == old(st).accepted + [e] && st.rejected == old(st).rejected
      ensures st.discarded + multiset(ch) == old(st).discarded + multiset(old(ch)) + multiset{e}
      ensures batch == old(batch) && healthy == old(healthy) && st.attempts == old(st).attempts
    {
      hide Reachable, Wrap32, Sent, SentOverOldest, MakeRoom;
      WithinCapacity(config, st);
      RoomMade(config, ch);
      if |ch| < config.capacity {
        EnqueueWithRoom(config, st, e);
        SentResult(config, st, e);
        st := Sent(st, e);
        ch := ch + [e];
        queueDepth := Wrap32(queueDepth + 1);
      } else {
        EnqueueWhenFull(config, st, e);
        SentOverOldestResult(config, st, e);
        st := SentOverOldest(st, e);
        if |ch| > 0 {
          ch := ch[1..];
          queueDepth := Wrap32(queueDepth - 1);
        }
        if |ch| < config.capacity {
          ch := ch + [e];
          queueDepth := Wrap32(queueDepth + 1);
        }
      }
    }

    /** The receive case of run; ok is the outcome of the push, if one follows. */
    method OnEvent(ok: bool) returns (sent: seq<Event>)
      requires Valid() && ch != []
      modifies this
      ensures Valid()
      ensures ch == old(ch)[1..]
      ensures if |old(batch)| + 1 >= config.batchMax
              then sent == old(batch) + [old(ch)[0]] && batch == [] && healthy == ok
                   && st.attempts == old(st).attempts + [Attempt(sent, ok)]
              else sent == [] && batch == old(batch) + [old(ch)[0]] && healthy == old(healthy)
                   && st.attempts == old(st).attempts
    {
      hide Reachable, Wrap32;
      var e := ch[0];
      Take(Receive);
      ch := ch[1..];
      Take(CountReceive);
      queueDepth := Wrap32(queueDepth - 1);
      batch := batch + [e];
      sent := [];
      if |batch| >= config.batchMax {
        sent := batch;
        batch := [];
        Take(PushDone(ok));
        healthy := ok;
      }
    }

    /** The tick case of run. */
    method OnTick(ok: bool) returns (sent: seq<Event>)
      requires Valid()
      modifies this
      ensures Valid() && ch == old(ch) && batch == [] && sent == old(batch)
      ensures healthy == if old(batch) == [] then old(healthy) else ok
      ensures st.attempts == if old(batch) == [] then old(st).attempts else old(st).attempts + [Attempt(sent, ok)]
    {
      hide Reachable, Wrap32;
      sent := batch;
      if |batch| == 0 {
        return;
      }
      Take(Tick);
      batch := [];
      Take(PushDone(ok));
      healthy := ok;
    }
  }

  /** What Enqueue leaves, relative to an earlier channel and acceptance order. */
  ghost predicate Got(p: PeerClient, ch: seq<Event>, accepted: seq<Event>, e: Event)
    reads p
  {
    && p.Valid() && p.st.accepted == accepted + [e]
    && p.ch == (if ch != [] && |ch| >= p.config.capacity then ch[1..] else ch) + [e]
  }

  ghost predicate Untouched(p: PeerClient, ch: seq<Event>, accepted: seq<Event>)
    reads p
  {
    p.Valid() && p.ch == ch && p.st.accepted == accepted
  }

  method Offer(p: PeerClient, e: Event)
    requires p.Valid()
    modifies p
    ensures Got(p, old(p.ch), old(p.st.accepted), e)
  {
    p.Enqueue(e);
  }

  /** Manager.Publish: the event goes to every peer's queue, and each peer's queue is affected by its own copy only. */
  method Publish(peers: seq<PeerClient>, e: Event)
    requires forall i, j :: 0 <= i < j < |peers| ==> peers[i] != peers[j]
    requires forall i :: 0 <= i < |peers| ==> peers[i].Valid()
    modifies peers
    ensures forall i :: 0 <= i < |peers| ==> Got(peers[i], old(peers[i].ch), old(peers[i].st.accepted), e)
  {
    for i := 0 to |peers|
      invariant forall j :: 0 <= j < i ==> Got(peers[j], old(peers[j].ch), old(peers[j].st.accepted), e)
      invariant forall j :: i <= j < |peers| ==> Untouched(peers[j], old(peers[j].ch), old(peers[j].st.accepted))
    {
      label before:
      Offer(peers[i], e);
      forall j | 0 <= j < |peers| && j != i
        ensures unchanged@before(peers[j])
      {
        assert peers[j] != peers[i];
      }
    }
  }
}

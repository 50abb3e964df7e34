/** Requests that nothing interrupts as runs of the SQN machine, and what each makes of column, SQNs and events. */
module SqnRequests {
  import opened Bytes
  import opened SqnRuns

  ghost predicate Leads(s: State, t: State) {
    exists steps :: Run(s, steps) == At(t)
  }

  lemma Then(s: State, mid: State, step: Step) returns (end: State)
    requires Reachable(mid) && Leads(s, mid) && Enabled(mid, step)
    ensures Reachable(end) && Leads(s, end) && end == Apply(mid, step)
  {
    hide Apply, Enabled;
    end := Next(mid, step);
    var steps :| Run(s, steps) == At(mid);
    RunSnoc(s, steps, step);
  }

  /** Begin and Read. */
  lemma Opened(s: State, t: nat, req: Request, v: int) returns (m: State)
    requires Reachable(s) && t !in s.threads && req.Valid() && v in s.past
    ensures Reachable(m) && Leads(s, m)
    ensures m == Moved(s, t, Thread(req, if ResyncOf(req).Some? then Rewriting else Reserving(Count(req)), v))
  {
    assert Run(s, []) == At(s);
    var b := Then(s, s, Begin(t, req));
    m := Then(s, b, Read(t, v));
  }

  /** Write and Reload. */
  lemma WrittenOver(s: State, m: State, t: nat) returns (w: State)
    requires Reachable(m) && Leads(s, m) && In(m, t, Rewriting) && ResyncOf(m.threads[t].req).Some?
    ensures Reachable(w) && Leads(s, w)
    ensures var req := m.threads[t].req; var v := ResyncValue(req);
            w == Moved(Rewritten(m, v, ResyncOrigin(req)), t, Thread(req, Reserving(Count(req)), v))
  {
    var a := Then(s, m, Write(t));
    w := Then(s, a, Reload(t, a.stored));
  }

  /** How far an S6a or 5G request got: refused before its writes, stopped after one of them, or answered. */
  datatype Progress = Refused | Rewrote | Drew | Answered

  /** The SQN such a request starts from, and the one it has in hand, given the one it read. */
  function FirstOf(s: State, req: Request, p: Progress): int {
    if ResyncOf(req).Some? && !p.Refused? then ResyncValue(req) else s.stored
  }

  function InHand(req: Request, v: int): int {
    if ResyncOf(req).Some? then ResyncValue(req) else v
  }

  /** What a request that runs alone up to p makes of s: column, SQNs since the last write, events. */
  predicate Effect(s: State, req: Request, v: int, p: Progress, end: State) {
    var first, drew := FirstOf(s, req, p), p.Drew? || p.Answered?;
    && end.stored == (if drew then Wrap64(first + 32 * Count(req)) else first)
    && end.issued == (if ResyncOf(req).Some? && !p.Refused? then [] else s.issued)
                     + (if drew then SqnBlock(first, Count(req)) else [])
    && end.events == s.events
                     + (if p.Answered? && req.S6a? then {Wrap64(InHand(req, v) + 32 * Count(req))} else {})
  }

  /** Drawing all the vectors of an S6a or 5G request, and answering or not. */
  lemma Closed(s: State, m: State, t: nat, answered: bool) returns (end: State)
    requires Reachable(m) && Leads(s, m) && t in m.threads
    requires m.threads[t].req.S6a? || m.threads[t].req.FiveG?
    requires m.threads[t].phase == Reserving(Count(m.threads[t].req))
    ensures Reachable(end) && Leads(s, end)
    ensures var th := m.threads[t];
            && end.stored == Wrap64(m.stored + 32 * Count(th.req))
            && end.issued == m.issued + SqnBlock(m.stored, Count(th.req))
            && end.events == m.events + (if answered && th.req.S6a? then {Wrap64(th.seen + 32 * Count(th.req))} else {})
  {
    end := Then(s, m, Reserve(t));
    if answered && m.threads[t].req.S6a? {
      end := Then(s, end, Publish(t));
    }
  }

  /** Every request of S6a or 5G that runs alone is a run of the machine, however far it gets. */
  lemma Alone(s: State, t: nat, req: Request, v: int, p: Progress) returns (end: State)
    requires Reachable(s) && t !in s.threads && v in s.past && req.Valid() && (req.S6a? || req.FiveG?)
    requires p.Rewrote? ==> ResyncOf(req).Some?
    ensures Reachable(end) && Leads(s, end) && Effect(s, req, v, p, end)
  {
    hide Apply, Enabled, Run, Reachable, Leads, Wrap64, SqnBlock;
    var m := Opened(s, t, req, v);
    end := m;
    if !p.Refused? && ResyncOf(req).Some? {
      end := WrittenOver(s, m, t);
    }
    if p.Drew? || p.Answered? {
      end := Closed(s, end, t, p.Answered?);
    }
  }

  lemma NoBlock(v: int)
    ensures SqnBlock(v, 0) == []
  {
  }

  lemma BlockSnoc(v: int, i: nat)
    ensures SqnBlock(v, i) + SqnBlock(Wrap64(v + 32 * i), 1) == SqnBlock(v, i + 1)
  {
    assert Wrap64(Wrap64(v + 32 * i) + 32 * 0) == Wrap64(v + 32 * i);
  }

  lemma DrawOne(s: State, m: State, t: nat, first: int, i: nat) returns (end: State)
    requires Reachable(m) && Leads(s, m) && m.stored == Wrap64(first + 32 * i) && t in m.threads
    requires m.issued == s.issued + SqnBlock(first, i)
    requires m.threads[t].req.Gsup? && m.threads[t].phase.Reserving? && m.threads[t].phase.left > 0
    ensures Reachable(end) && Leads(s, end) && end.events == m.events
    ensures end.threads == m.threads[t := AfterReserve(m.threads[t])]
    ensures end.stored == Wrap64(first + 32 * (i + 1)) && end.issued == s.issued + SqnBlock(first, i + 1)
  {
    hide Run, Reachable, Leads, SqnBlock, Wrap64;
    end := Then(s, m, Reserve(t));
    WrapStep(first + 32 * i, 32);
    BlockSnoc(first, i);
    assert end.issued == s.issued + (SqnBlock(first, i) + SqnBlock(m.stored, 1));
  }

  /** A GSUP request that has drawn k of its vectors. */
  lemma {:induction false} GsupDrawn(s: State, t: nat, n: nat, v: int, k: nat) returns (m: State)
    requires Reachable(s) && t !in s.threads && v in s.past && -TWO_TO_63 <= s.stored < TWO_TO_63 && k <= Clamp(n)
    ensures Reachable(m) && Leads(s, m) && t in m.threads && m.events == s.events
    ensures m.threads[t] == Thread(Gsup(n), if k < Clamp(n) then Reserving(Clamp(n) - k) else Publishing, v)
    ensures m.stored == Wrap64(s.stored + 32 * k) && m.issued == s.issued + SqnBlock(s.stored, k)
  {
    hide Run, Reachable, Leads, SqnBlock;
    if k == 0 {
      NoBlock(s.stored);
      m := Opened(s, t, Gsup(n), v);
    } else {
      m := GsupDrawn(s, t, n, v, k - 1);
      m := DrawOne(s, m, t, s.stored, k - 1);
    }
  }

  /** The same for a GSUP request that draws k of its vectors and then stops, or answers if they are all of them. */
  lemma GsupAlone(s: State, t: nat, n: nat, v: int, k: nat, answered: bool) returns (end: State)
    requires Reachable(s) && t !in s.threads && v in s.past && -TWO_TO_63 <= s.stored < TWO_TO_63
    requires k <= Clamp(n) && (answered ==> k == Clamp(n))
    ensures Reachable(end) && Leads(s, end)
    ensures end.stored == Wrap64(s.stored + 32 * k) && end.issued == s.issued + SqnBlock(s.stored, k)
    ensures end.events == s.events + if answered then {Wrap64(v + 32 * k)} else {}
  {
    hide Run, Reachable, Leads, SqnBlock, Wrap64;
    end := GsupDrawn(s, t, n, v, k);
    if answered {
      end := Then(s, end, Publish(t));
    }
  }
}

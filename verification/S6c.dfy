/**
 Message waiting data of S6c (internal/diameter/s6c): the stored records and the rules on them, then RSDS reports,
 alerts and answers as a state machine in which every store access, send and answer is one step and the network may
 lose, repeat, delay, reorder or invent answers.
 */
module S6c {
  import opened Bytes

  type Flags = bv32

  const MNRF: Flags := 0x02
  const MCEF: Flags := 0x04
  const MAX_ENTRIES := 10
  const SUCCESS := 2001

  datatype Trigger = Attach | UserAvailable | MemoryAvailable

  /** A record is stored under its IMSI and SC-Address. */
  datatype Key = Key(imsi: string, sc: string)

  datatype Record = Record(host: string, realm: string, mti: int, flags: Flags, correlation: Option<string>,
                           diagnostic: Option<nat>, trigger: Option<Trigger>, attempts: nat)

  type Table = map<Key, Record>

  predicate TriggerMatches(trigger: Trigger, flags: Flags) {
    match trigger
    case Attach => flags == 0 || flags & MNRF != 0
    case UserAvailable => flags == 0 || flags & MNRF != 0
    case MemoryAvailable => flags & MCEF != 0
  }

  /** The keys of one subscriber. */
  function Of(mwd: Table, imsi: string): set<Key> {
    set k | k in mwd && k.imsi == imsi
  }

  /** shouldRejectMWDInsert: a new SC for a subscriber whose list is full. */
  predicate ListFull(mwd: Table, key: Key) {
    key !in mwd && |Of(mwd, key.imsi)| >= MAX_ENTRIES
  }

  /** StoreMWD: an existing row takes the fields that are set in the new one, and keeps the others. */
  function Assigned(old_: Record, r: Record): Record {
    Record(if r.host == "" then old_.host else r.host, if r.realm == "" then old_.realm else r.realm,
           if r.mti == 0 then old_.mti else r.mti, if r.flags == 0 then old_.flags else r.flags,
           if r.correlation == None then old_.correlation else r.correlation,
           if r.diagnostic == None then old_.diagnostic else r.diagnostic,
           if r.trigger == None then old_.trigger else r.trigger,
           if r.attempts == 0 then old_.attempts else r.attempts)
  }

  function Stored(mwd: Table, key: Key, r: Record): Table {
    mwd[key := if key in mwd then Assigned(mwd[key], r) else r]
  }

  /** The copy an alert writes back after sending: one attempt more, in uint32 arithmetic. */
  function Alerted(r: Record, trigger: Trigger): Record {
    r.(trigger := Some(trigger), attempts := (r.attempts + 1) % 0x1_0000_0000)
  }

  // ---------------------------------------------------------------- the machine

  type Sid = string

  /** One ALR on the wire; its session id is a clock reading, so nothing keeps two from being equal. */
  datatype Alr = Alr(sid: Sid, key: Key)

  datatype Loaded = Loaded(key: Key, record: Record, trigger: Trigger)

  datatype Flight = Flight(record: Record, trigger: Trigger)

  /**
   loaded: records some alert has read and not dealt with yet; alrs: every ALR sent, in order, and an ALR is named by
   its place in it; flights: those whose metadata is still to be written, with the alert's copy; updated: those whose
   session is still to be registered; pending: registered sessions; consumed: the code of the answer that took the
   session out, None when it had none; deleting: those whose record is about to be deleted for a 2001, done: those
   whose delete was carried out; checked: reports past their capacity check with the record they will store.
   */
  datatype State = State(mwd: Table, loaded: multiset<Loaded>, alrs: seq<Alr>, flights: map<nat, Flight>,
                         updated: set<nat>, pending: map<Sid, nat>, consumed: map<nat, Option<nat>>,
                         deleting: set<nat>, done: set<nat>, checked: multiset<(Key, Record)>)

  datatype Step =
    | Load(key: Key, trigger: Trigger) | Skip(l: Loaded) | Send(l: Loaded, sid: Sid) | Update(n: nat, ok: bool)
    | Register(n: nat) | Answer(sid: Sid, code: Option<nat>) | Delete(n: nat, ok: bool)
    | ReportSuccess(key: Key) | Check(key: Key, record: Record) | Store(key: Key, record: Record, ok: bool)

  function Initial(mwd: Table): State {
    State(mwd, multiset{}, [], map[], {}, map[], map[], {}, {}, multiset{})
  }

  predicate Enabled(s: State, step: Step) {
    match step
    case Load(key, trigger) => key in s.mwd
    case Skip(l) => l in s.loaded
    case Send(l, sid) => l in s.loaded && TriggerMatches(l.trigger, l.record.flags)
    case Update(n, ok) => n in s.flights && n < |s.alrs|
    case Register(n) => n in s.updated && n < |s.alrs|
    case Answer(sid, code) => true
    case Delete(n, ok) => n in s.deleting && n < |s.alrs|
    case ReportSuccess(key) => true
    case Check(key, record) => !ListFull(s.mwd, key)
    case Store(key, record, ok) => (key, record) in s.checked
  }

  /** ALA up to the store: the session is taken out whatever the code, and only a 2001 goes on to delete. */
  function Answered(s: State, sid: Sid, code: Option<nat>): State {
    if sid !in s.pending then s
    else
      var n := s.pending[sid];
      s.(pending := s.pending - {sid}, consumed := s.consumed[n := code],
         deleting := if code == Some(SUCCESS) then s.deleting + {n} else s.deleting)
  }

  function Apply(s: State, step: Step): State
    requires Enabled(s, step)
  {
    match step
    case Load(key, trigger) => s.(loaded := s.loaded + multiset{Loaded(key, s.mwd[key], trigger)})
    case Skip(l) => s.(loaded := s.loaded - multiset{l})
    case Send(l, sid) =>
      s.(loaded := s.loaded - multiset{l}, alrs := s.alrs + [Alr(sid, l.key)],
         flights := s.flights[|s.alrs| := Flight(l.record, l.trigger)])
    case Update(n, ok) =>
      var f := s.flights[n];
      s.(mwd := if ok then Stored(s.mwd, s.alrs[n].key, Alerted(f.record, f.trigger)) else s.mwd,
         flights := s.flights - {n}, updated := s.updated + {n})
    case Register(n) => s.(updated := s.updated - {n}, pending := s.pending[s.alrs[n].sid := n])
    case Answer(sid, code) => Answered(s, sid, code)
    case Delete(n, ok) =>
      s.(deleting := s.deleting - {n}, done := s.done + {n}, mwd := if ok then s.mwd - {s.alrs[n].key} else s.mwd)
    case ReportSuccess(key) => s.(mwd := s.mwd - {key})
    case Check(key, record) => s.(checked := s.checked + multiset{(key, record)})
    case Store(key, record, ok) =>
      s.(checked := s.checked - multiset{(key, record)}, mwd := if ok then Stored(s.mwd, key, record) else s.mwd)
  }

  datatype Outcome = Stuck | At(state: State)

  function Run(s: State, steps: seq<Step>): Outcome
    decreases |steps|
  {
    if steps == [] then At(s)
    else if !Enabled(s, steps[0]) then Stuck
    else Run(Apply(s, steps[0]), steps[1..])
  }

  lemma RunCons(s: State, step: Step, rest: seq<Step>, end: State)
    requires Enabled(s, step) && Run(Apply(s, step), rest) == At(end)
    ensures Run(s, [step] + rest) == At(end)
  {
    assert ([step] + rest)[1..] == rest;
  }

  lemma RunOne(s: State, step: Step)
    requires Enabled(s, step)
    ensures Run(s, [step]) == At(Apply(s, step))
  {
    assert [step][1..] == [];
  }

  lemma RunTwo(s: State, a: Step, b: Step)
    requires Enabled(s, a) && Enabled(Apply(s, a), b)
    ensures Run(s, [a] + [b]) == At(Apply(Apply(s, a), b))
  {
    hide Run, Apply, Enabled;
    RunOne(Apply(s, a), b);
    RunCons(s, a, [b], Apply(Apply(s, a), b));
  }

  ghost predicate Reachable(s: State) {
    exists mwd, steps :: Run(Initial(mwd), steps) == At(s)
  }

  // ---------------------------------------------------------------- what every run keeps

  predicate Names(s: State, ns: set<nat>) {
    forall n :: n in ns ==> n < |s.alrs|
  }

  predicate Registered(s: State) {
    forall sid :: sid in s.pending ==> s.pending[sid] < |s.alrs| && s.alrs[s.pending[sid]].sid == sid
  }

  predicate Waiting(s: State, n: nat) {
    n < |s.alrs| && s.alrs[n].sid in s.pending && s.pending[s.alrs[n].sid] == n
  }

  /** An ALR is in at most one stage, and the record of one is deleted exactly when a 2001 took its session out. */
  ghost predicate Inv(s: State) {
    && Names(s, s.flights.Keys) && Names(s, s.updated) && Names(s, s.consumed.Keys) && Registered(s)
    && (forall n :: n in s.flights ==> n !in s.updated && n !in s.consumed && !Waiting(s, n))
    && (forall n :: n in s.updated ==> n !in s.consumed && !Waiting(s, n))
    && (forall n :: n in s.consumed ==> !Waiting(s, n))
    && s.deleting !! s.done
    && (forall n :: n in s.deleting || n in s.done <==> n in s.consumed && s.consumed[n] == Some(SUCCESS))
  }

  lemma RegisterInv(s: State, n: nat)
    requires Inv(s) && Enabled(s, Register(n))
    ensures Inv(Apply(s, Register(n)))
  {
    var t := Apply(s, Register(n));
    forall m | m in t.flights || m in t.updated || m in t.consumed
      ensures !Waiting(t, m)
    {
      assert m != n;
      assert Waiting(t, m) ==> Waiting(s, m);
    }
  }

  lemma AnswerInv(s: State, sid: Sid, code: Option<nat>)
    requires Inv(s)
    ensures Inv(Answered(s, sid, code))
  {
    if sid in s.pending {
      var t, n := Answered(s, sid, code), s.pending[sid];
      assert Waiting(s, n);
      forall m | m in t.flights || m in t.updated || m in t.consumed
        ensures !Waiting(t, m)
      {
        assert Waiting(t, m) ==> Waiting(s, m);
      }
    }
  }

  lemma SendInv(s: State, l: Loaded, sid: Sid)
    requires Inv(s) && Enabled(s, Send(l, sid))
    ensures Inv(Apply(s, Send(l, sid)))
  {
    var t := Apply(s, Send(l, sid));
    assert forall n: nat :: n < |s.alrs| ==> t.alrs[n] == s.alrs[n];
    assert !Waiting(t, |s.alrs|);
    forall m | m in s.flights || m in s.updated || m in s.consumed
      ensures !Waiting(t, m)
    {
      assert Waiting(t, m) ==> Waiting(s, m);
    }
  }

  lemma StageInv(s: State, step: Step)
    requires Inv(s) && Enabled(s, step) && (step.Update? || step.Delete?)
    ensures Inv(Apply(s, step))
  {
    assert forall m :: Waiting(Apply(s, step), m) == Waiting(s, m);
  }

  lemma StepInv(s: State, step: Step)
    requires Inv(s) && Enabled(s, step)
    ensures Inv(Apply(s, step))
  {
    match step
    case Send(l, sid) => SendInv(s, l, sid);
    case Register(n) => RegisterInv(s, n);
    case Answer(sid, code) => AnswerInv(s, sid, code);
    case Update(n, ok) => StageInv(s, step);
    case Delete(n, ok) => StageInv(s, step);
    case _ => assert forall m :: Waiting(Apply(s, step), m) == Waiting(s, m);
  }

  lemma {:induction false} RunInv(s: State, steps: seq<Step>)
    requires Inv(s)
    ensures Run(s, steps).At? ==> Inv(Run(s, steps).state)
    decreases |steps|
  {
    if steps != [] && Enabled(s, steps[0]) {
      StepInv(s, steps[0]);
      RunInv(Apply(s, steps[0]), steps[1..]);
    }
  }

  lemma ReachableInv(s: State)
    requires Reachable(s)
    ensures Inv(s)
  {
    var mwd, steps :| Run(Initial(mwd), steps) == At(s);
    assert Inv(Initial(mwd));
    RunInv(Initial(mwd), steps);
  }

  // ---------------------------------------------------------------- when a record goes

  /**
   In every run, a record leaves the store only when RSDS reports success for its IMSI and SC, or for an ALR sent for
   that very IMSI and SC whose session a 2001 took out, and each ALR accounts for at most one deletion.
   */
  lemma LeavesOnlyWhenCleared(s: State, step: Step, key: Key)
    requires Reachable(s) && Enabled(s, step) && key in s.mwd && key !in Apply(s, step).mwd
    ensures step == ReportSuccess(key)
            || (step.Delete? && s.alrs[step.n].key == key && step.n in s.consumed && s.consumed[step.n] == Some(SUCCESS)
                && step.n !in s.done && step.n in Apply(s, step).done)
  {
    ReachableInv(s);
  }

  /** A 2001 that takes out the pending session of an ALR sent for key. */
  predicate Acknowledges(s: State, step: Step, key: Key) {
    && step.Answer? && step.code == Some(SUCCESS) && step.sid in s.pending
    && s.pending[step.sid] < |s.alrs| && s.alrs[s.pending[step.sid]].key == key
  }

  /** No deletion for an ALR sent for key is under way. */
  predicate NoneDeleting(s: State, key: Key) {
    forall n :: n in s.deleting && n < |s.alrs| ==> s.alrs[n].key != key
  }

  /** Nothing from outside clears key: no successful report for it and no 2001 for a pending ALR sent for it. */
  predicate NeverCleared(s: State, steps: seq<Step>, key: Key)
    decreases |steps|
  {
    steps != [] && Enabled(s, steps[0]) ==>
      && steps[0] != ReportSuccess(key)
      && !Acknowledges(s, steps[0], key)
      && NeverCleared(Apply(s, steps[0]), steps[1..], key)
  }

  lemma UnclearedStep(s: State, step: Step, key: Key)
    requires Inv(s) && Enabled(s, step) && NoneDeleting(s, key)
    requires step != ReportSuccess(key) && !Acknowledges(s, step, key)
    ensures NoneDeleting(Apply(s, step), key) && (key in s.mwd ==> key in Apply(s, step).mwd)
  {
    hide Stored;
    var t := Apply(s, step);
    assert forall n: nat :: n < |s.alrs| ==> t.alrs[n] == s.alrs[n];
    StoredKeepsKeys();
  }

  lemma StoredKeepsKeys()
    ensures forall mwd, k, r, key :: key in Stored(mwd, k, r) <==> key in mwd || key == k
  {
  }

  /** However many alerts fail and answers go astray, an uncleared record stays. */
  lemma {:induction false} UnclearedStays(s: State, steps: seq<Step>, key: Key)
    requires Inv(s) && key in s.mwd && NoneDeleting(s, key) && NeverCleared(s, steps, key) && Run(s, steps).At?
    ensures key in Run(s, steps).state.mwd
    decreases |steps|
  {
    if steps != [] {
      StepInv(s, steps[0]);
      UnclearedStep(s, steps[0], key);
      UnclearedStays(Apply(s, steps[0]), steps[1..], key);
    }
  }

  /**
   An answer for a session that is not pending changes nothing, so a repeated answer is as if it had not come, whatever
   the two carry, and so is one that overtakes the registration of its session, which then still waits; a failed one
   only uses its session up.
   */
  lemma UselessAnswers(s: State, sid: Sid, code: Option<nat>, again: Option<nat>, n: nat)
    requires Reachable(s)
    ensures sid !in s.pending ==> Apply(s, Answer(sid, code)) == s
    ensures sid !in Apply(s, Answer(sid, code)).pending
    ensures Run(s, [Answer(sid, code)] + [Answer(sid, again)]) == Run(s, [Answer(sid, code)])
    ensures n in s.updated && n < |s.alrs| && s.alrs[n].sid == sid && sid !in s.pending ==>
              var t := Run(s, [Answer(sid, code)] + [Register(n)]);
              t == Run(s, [Register(n)]) && t.At? && Waiting(t.state, n)
    ensures code != Some(SUCCESS) ==>
              && Run(s, [Answer(sid, code)]).At?
              && Run(s, [Answer(sid, code)]).state == s.(pending := s.pending - {sid},
                   consumed := if sid in s.pending then s.consumed[s.pending[sid] := code] else s.consumed)
  {
    hide Run;
    var t := Apply(s, Answer(sid, code));
    RunOne(s, Answer(sid, code));
    RunTwo(s, Answer(sid, code), Answer(sid, again));
    if sid !in s.pending {
      assert s.pending - {sid} == s.pending;
      if n in s.updated && n < |s.alrs| && s.alrs[n].sid == sid {
        RunOne(s, Register(n));
        RunTwo(s, Answer(sid, code), Register(n));
      }
    }
  }

  predicate DistinctSessions(s: State) {
    forall i, j :: 0 <= i < j < |s.alrs| ==> s.alrs[i].sid != s.alrs[j].sid
  }

  /** With distinct session ids, a 2001 leads to the deletion of the one record its ALR was sent for, at most once. */
  lemma DistinctSessionsAreExact(s: State, n: nat)
    requires Reachable(s) && DistinctSessions(s) && n < |s.alrs|
    ensures var t := Apply(s, Answer(s.alrs[n].sid, Some(SUCCESS)));
            && t.deleting == s.deleting + (if Waiting(s, n) then {n} else {})
            && (n in s.consumed || n in s.done ==> t == s)
            && !Waiting(t, n)
  {
    ReachableInv(s);
    var sid := s.alrs[n].sid;
    if sid in s.pending {
      var m := s.pending[sid];
      assert m == n;
    }
  }

  /**
   With equal ids they are not: once a later ALR m has registered the session id of an earlier one sent for another
   record, the peer's 2001 for the earlier deletes the later one's record and leaves its own.
   */
  lemma CollidingSessionsMisdelete(s: State, n: nat, m: nat)
    requires Reachable(s) && n < |s.alrs| && Waiting(s, m)
    requires s.alrs[n].sid == s.alrs[m].sid && s.alrs[n].key != s.alrs[m].key
    ensures var steps := [Answer(s.alrs[n].sid, Some(SUCCESS))] + [Delete(m, true)];
            && Run(s, steps).At?
            && s.alrs[m].key !in Run(s, steps).state.mwd
            && (s.alrs[n].key in s.mwd <==> s.alrs[n].key in Run(s, steps).state.mwd)
            && n !in Run(s, steps).state.done - s.done
  {
    ReachableInv(s);
    var first, second := Answer(s.alrs[n].sid, Some(SUCCESS)), Delete(m, true);
    var t := Apply(s, first);
    assert t.alrs == s.alrs && m in t.deleting;
    RunTwo(s, first, second);
  }

  /** The peer's success for a session, and the deletion of the record of the ALR that waits under it, if one does. */
  function Success(s: State, sid: Sid): seq<Step> {
    [Answer(sid, Some(SUCCESS))] + if sid in s.pending then [Delete(s.pending[sid], true)] else []
  }

  /** The ALR waiting under n's session was sent for another record, which is still stored. */
  predicate Shadows(s: State, m: nat, n: nat)
    requires n < |s.alrs|
  {
    && Waiting(s, m) && s.alrs[m].sid == s.alrs[n].sid
    && s.alrs[m].key != s.alrs[n].key && s.alrs[m].key in s.mwd
  }

  /** Exactly then does the success for n's session delete a record other than n's own. */
  lemma MisdeletesIff(s: State, n: nat)
    requires Reachable(s) && n < |s.alrs|
    ensures var r := Run(s, Success(s, s.alrs[n].sid));
            && r.At?
            && ((exists key :: key in s.mwd && key != s.alrs[n].key && key !in r.state.mwd)
                <==> exists m: nat :: Shadows(s, m, n))
  {
    ReachableInv(s);
    var sid := s.alrs[n].sid;
    var answer := Answer(sid, Some(SUCCESS));
    var t := Apply(s, answer);
    if sid in s.pending {
      var m := s.pending[sid];
      var end := Apply(t, Delete(m, true));
      RunTwo(s, answer, Delete(m, true));
      assert Waiting(s, m) && end.mwd == s.mwd - {s.alrs[m].key};
      if Shadows(s, m, n) {
        assert s.alrs[m].key !in end.mwd;
      }
    } else {
      RunOne(s, answer);
      assert Success(s, sid) == [answer] && t.mwd == s.mwd;
    }
  }

  lemma {:induction false} RunSnoc(s: State, steps: seq<Step>, step: Step)
    requires Run(s, steps).At? && Enabled(Run(s, steps).state, step)
    ensures Run(s, steps + [step]) == At(Apply(Run(s, steps).state, step))
    decreases |steps|
  {
    hide Apply, Enabled;
    if steps == [] {
      assert [] + [step] == [step] && [step][1..] == [];
    } else {
      RunSnoc(Apply(s, steps[0]), steps[1..], step);
      assert (steps + [step])[1..] == steps[1..] + [step];
    }
  }

  lemma ReachableStep(s: State, step: Step, t: State)
    requires Reachable(s) && Enabled(s, step) && t == Apply(s, step)
    ensures Reachable(t)
  {
    var mwd, steps :| Run(Initial(mwd), steps) == At(s);
    RunSnoc(Initial(mwd), steps, step);
  }

  lemma TwoLoaded(a: Key, b: Key, r: Record) returns (s: State)
    requires a != b
    ensures Reachable(s) && s == Initial(map[a := r, b := r]).(
                                   loaded := multiset{Loaded(a, r, Attach), Loaded(b, r, Attach)})
  {
    var la, lb := Loaded(a, r, Attach), Loaded(b, r, Attach);
    var first := Initial(map[a := r, b := r]);
    assert Run(first, []) == At(first);
    var second := first.(loaded := multiset{la});
    ReachableStep(first, Load(a, Attach), second);
    s := second.(loaded := multiset{la, lb});
    ReachableStep(second, Load(b, Attach), s);
  }

  lemma SentNext(s: State, l: Loaded, sid: Sid) returns (t: State)
    requires Reachable(s) && l in s.loaded && TriggerMatches(l.trigger, l.record.flags)
    ensures Reachable(t) && t.loaded == s.loaded - multiset{l} && t.alrs == s.alrs + [Alr(sid, l.key)]
    ensures t.flights.Keys == s.flights.Keys + {|s.alrs|}
  {
    t := Apply(s, Send(l, sid));
    ReachableStep(s, Send(l, sid), t);
  }

  /** Two ALRs sent for different records under one session id, both still to be registered. */
  lemma TwoSent(a: Key, b: Key, r: Record, sid: Sid) returns (s: State)
    requires a != b && TriggerMatches(Attach, r.flags)
    ensures Reachable(s) && s.alrs == [Alr(sid, a), Alr(sid, b)] && s.flights.Keys == {0, 1}
  {
    s := TwoLoaded(a, b, r);
    s := SentNext(s, Loaded(a, r, Attach), sid);
    s := SentNext(s, Loaded(b, r, Attach), sid);
  }

  lemma UpdatedAndRegistered(s: State, n: nat) returns (t: State)
    requires Reachable(s) && n in s.flights && n < |s.alrs|
    ensures Reachable(t) && t.alrs == s.alrs && t.flights.Keys == s.flights.Keys - {n}
    ensures Waiting(t, n)
  {
    ReachableInv(s);
    var u := Apply(s, Update(n, true));
    ReachableStep(s, Update(n, true), u);
    t := Apply(u, Register(n));
    ReachableStep(u, Register(n), t);
  }

  /** Such a state is reached by two alerts in one clock tick. */
  lemma CollisionReachable(a: Key, b: Key, r: Record, sid: Sid) returns (s: State)
    requires a != b && TriggerMatches(Attach, r.flags)
    ensures Reachable(s) && s.alrs == [Alr(sid, a), Alr(sid, b)] && Waiting(s, 1)
  {
    s := TwoSent(a, b, r, sid);
    s := UpdatedAndRegistered(s, 0);
    s := UpdatedAndRegistered(s, 1);
  }

  // ---------------------------------------------------------------- when a record comes back

  /** Some alert has read the record of key and will send for it, has sent and will write it, or a report will. */
  predicate Loadable(s: State, key: Key) {
    exists l :: l in s.loaded && l.key == key && TriggerMatches(l.trigger, l.record.flags)
  }

  predicate Flying(s: State, key: Key) {
    exists n :: n in s.flights && n < |s.alrs| && s.alrs[n].key == key
  }

  predicate Reporting(s: State, key: Key) {
    exists r :: r in s.checked && r.0 == key
  }

  predicate Returnable(s: State, key: Key) {
    Loadable(s, key) || Flying(s, key) || Reporting(s, key)
  }

  /** The record of key is stored or can be without a new report. */
  predicate Near(s: State, key: Key) {
    key in s.mwd || Returnable(s, key)
  }

  /** A record appears only by a report being stored or by an alert writing its metadata back. */
  lemma AppearsOnlyWhenStored(s: State, step: Step, key: Key)
    requires Reachable(s) && Enabled(s, step) && key !in s.mwd && key in Apply(s, step).mwd
    ensures (step.Store? && step.key == key) || (step.Update? && s.alrs[step.n].key == key)
    ensures Returnable(s, key)
  {
    ReachableInv(s);
    if step.Store? {
      assert (key, step.record) in s.checked;
    }
  }

  predicate NoNewReport(steps: seq<Step>, key: Key) {
    forall i {:trigger steps[i]} :: 0 <= i < |steps| ==> !(steps[i].Check? && steps[i].key == key)
  }

  lemma SendKeepsFar(s: State, l: Loaded, sid: Sid, key: Key)
    requires Inv(s) && Enabled(s, Send(l, sid)) && !Near(s, key)
    ensures !Near(Apply(s, Send(l, sid)), key)
  {
    var t := Apply(s, Send(l, sid));
    assert l.key != key;
    assert forall n: nat :: n < |s.alrs| ==> t.alrs[n] == s.alrs[n];
  }

  lemma UpdateKeepsFar(s: State, n: nat, ok: bool, key: Key)
    requires Inv(s) && Enabled(s, Update(n, ok)) && !Near(s, key)
    ensures !Near(Apply(s, Update(n, ok)), key)
  {
    hide Stored;
    StoredKeepsKeys();
    assert s.alrs[n].key != key;
  }

  lemma StoreKeepsFar(s: State, k: Key, r: Record, ok: bool, key: Key)
    requires Inv(s) && Enabled(s, Store(k, r, ok)) && !Near(s, key)
    ensures !Near(Apply(s, Store(k, r, ok)), key)
  {
    hide Stored;
    StoredKeepsKeys();
    assert (k, r).0 != key;
  }

  lemma LoadKeepsFar(s: State, k: Key, trigger: Trigger, key: Key)
    requires Enabled(s, Load(k, trigger)) && !Near(s, key)
    ensures !Near(Apply(s, Load(k, trigger)), key)
  {
    assert k != key;
  }

  lemma CheckKeepsFar(s: State, k: Key, r: Record, key: Key)
    requires Enabled(s, Check(k, r)) && !Near(s, key) && k != key
    ensures !Near(Apply(s, Check(k, r)), key)
  {
  }

  /** t has no more records and no more copies under way than s. */
  predicate NoMore(s: State, t: State) {
    && t.mwd.Keys <= s.mwd.Keys && t.loaded <= s.loaded && t.checked == s.checked
    && t.alrs == s.alrs && t.flights == s.flights
  }

  lemma RestNoMore(s: State, step: Step)
    requires Enabled(s, step)
    requires step.Skip? || step.Register? || step.Answer? || step.Delete? || step.ReportSuccess?
    ensures NoMore(s, Apply(s, step))
  {
  }

  lemma NoMoreKeepsFar(s: State, t: State, key: Key)
    requires NoMore(s, t) && !Near(s, key)
    ensures !Near(t, key)
  {
  }

  /** Only a new report brings a record near. */
  lemma StaysFar(s: State, step: Step, key: Key)
    requires Inv(s) && Enabled(s, step) && !Near(s, key) && !(step.Check? && step.key == key)
    ensures !Near(Apply(s, step), key)
  {
    hide Inv, Near, Apply;
    match step
    case Send(l, sid) => SendKeepsFar(s, l, sid, key);
    case Update(n, ok) => UpdateKeepsFar(s, n, ok, key);
    case Store(k, r, ok) => StoreKeepsFar(s, k, r, ok, key);
    case Load(k, trigger) => LoadKeepsFar(s, k, trigger, key);
    case Check(k, r) => CheckKeepsFar(s, k, r, key);
    case _ =>
      RestNoMore(s, step);
      NoMoreKeepsFar(s, Apply(s, step), key);
  }

  /** A cleared record that is not returnable stays cleared until a new report for it. */
  lemma {:induction false} ClearedStays(s: State, steps: seq<Step>, key: Key)
    requires Inv(s) && !Near(s, key) && NoNewReport(steps, key) && Run(s, steps).At?
    ensures !Near(Run(s, steps).state, key)
    decreases |steps|
  {
    if steps != [] {
      assert !(steps[0].Check? && steps[0].key == key);
      StepInv(s, steps[0]);
      StaysFar(s, steps[0], key);
      ClearedStays(Apply(s, steps[0]), steps[1..], key);
    }
  }

  /** No step of the run starts a report. */
  predicate NoReports(steps: seq<Step>) {
    forall i {:trigger steps[i]} :: 0 <= i < |steps| ==> !steps[i].Check?
  }

  /** t follows from s by steps without new reports, loses no record and nothing that was near. */
  ghost predicate Richer(s: State, steps: seq<Step>, t: State) {
    && Run(s, steps) == At(t) && NoReports(steps) && Inv(t)
    && (forall k :: k in s.mwd ==> k in t.mwd)
    && forall k :: Near(s, k) ==> Near(t, k)
  }

  lemma StoreReturns(s: State, key: Key) returns (steps: seq<Step>, t: State)
    requires Inv(s) && Reporting(s, key)
    ensures Richer(s, steps, t) && key in t.mwd
  {
    hide Stored;
    StoredKeepsKeys();
    var r :| r in s.checked && r.0 == key;
    assert r == (key, r.1);
    var step := Store(key, r.1, true);
    steps, t := [step], Apply(s, step);
    RunCons(s, step, [], t);
    assert [step] + [] == steps;
    StepInv(s, step);
    forall k | Near(s, k)
      ensures Near(t, k)
    {
      if k != key && Reporting(s, k) {
        var q :| q in s.checked && q.0 == k;
        assert q in t.checked;
      }
    }
  }

  lemma UpdateReturns(s: State, key: Key) returns (steps: seq<Step>, t: State)
    requires Inv(s) && Flying(s, key)
    ensures Richer(s, steps, t) && key in t.mwd
  {
    hide Stored;
    StoredKeepsKeys();
    var n :| n in s.flights && n < |s.alrs| && s.alrs[n].key == key;
    var step := Update(n, true);
    steps, t := [step], Apply(s, step);
    RunCons(s, step, [], t);
    assert [step] + [] == steps;
    StepInv(s, step);
    forall k | Near(s, k)
      ensures Near(t, k)
    {
      if k != key && Flying(s, k) {
        var m :| m in s.flights && m < |s.alrs| && s.alrs[m].key == k;
        assert m in t.flights;
      }
    }
  }

  lemma SendReturns(s: State, key: Key) returns (step: Step, t: State)
    requires Inv(s) && Loadable(s, key)
    ensures Enabled(s, step) && !step.Check? && t == Apply(s, step) && Inv(t) && Flying(t, key)
    ensures t.mwd == s.mwd && forall k :: Near(s, k) ==> Near(t, k)
  {
    var l :| l in s.loaded && l.key == key && TriggerMatches(l.trigger, l.record.flags);
    step := Send(l, "");
    t := Apply(s, step);
    StepInv(s, step);
    assert |s.alrs| in t.flights && t.alrs[|s.alrs|].key == key;
    hide Inv, Apply;
    forall k | Near(s, k)
      ensures Near(t, k)
    {
      SendKeepsNear(s, l, "", k);
    }
  }

  lemma SendKeepsNear(s: State, l: Loaded, sid: Sid, k: Key)
    requires Enabled(s, Send(l, sid)) && Near(s, k)
    ensures Near(Apply(s, Send(l, sid)), k)
  {
    var t := Apply(s, Send(l, sid));
    if k == l.key {
      assert |s.alrs| in t.flights && t.alrs[|s.alrs|].key == k;
    } else if Loadable(s, k) {
      var q :| q in s.loaded && q.key == k && TriggerMatches(q.trigger, q.record.flags);
      assert q in t.loaded;
    } else if Flying(s, k) {
      var m :| m in s.flights && m < |s.alrs| && s.alrs[m].key == k;
      assert m in t.flights && t.alrs[m].key == k;
    }
  }

  /** A returnable record can come back whichever of the three holds it, at the cost of no other. */
  lemma NearReturns(s: State, key: Key) returns (steps: seq<Step>, t: State)
    requires Inv(s) && Near(s, key)
    ensures Richer(s, steps, t) && key in t.mwd
  {
    hide Inv, Loadable, Flying, Reporting;
    if key in s.mwd {
      steps, t := [], s;
    } else if Reporting(s, key) {
      steps, t := StoreReturns(s, key);
    } else if Flying(s, key) {
      steps, t := UpdateReturns(s, key);
    } else {
      var step, u := SendReturns(s, key);
      var rest, v := UpdateReturns(u, key);
      RunCons(s, step, rest, v);
      steps, t := [step] + rest, v;
    }
  }

  /**
   When a cleared record comes back: without a new report for it, some continuation stores it again exactly when an
   alert holds a copy it will send for or write, or a report is past its check.
   */
  lemma ReturnsIff(s: State, key: Key)
    requires Reachable(s) && key !in s.mwd
    ensures (exists steps :: NoNewReport(steps, key) && Run(s, steps).At? && key in Run(s, steps).state.mwd)
            <==> Returnable(s, key)
  {
    ReachableInv(s);
    if Returnable(s, key) {
      var steps, t := NearReturns(s, key);
      assert NoNewReport(steps, key) && Run(s, steps).At?;
    }
    if steps :| NoNewReport(steps, key) && Run(s, steps).At? && key in Run(s, steps).state.mwd {
      if !Returnable(s, key) {
        ClearedStays(s, steps, key);
        assert false;
      }
    }
  }

  /** For one, an alert that read the record before it was cleared puts it back. */
  lemma HeldRecordReturns(s: State, l: Loaded, sid: Sid)
    requires Reachable(s) && l in s.loaded && TriggerMatches(l.trigger, l.record.flags)
    ensures var steps := [ReportSuccess(l.key), Send(l, sid), Update(|s.alrs|, true)];
            && NoNewReport(steps, l.key)
            && Run(s, steps).At? && l.key in Run(s, steps).state.mwd
  {
    var a, b, c := ReportSuccess(l.key), Send(l, sid), Update(|s.alrs|, true);
    var s1 := Apply(s, a);
    var s2 := Apply(s1, b);
    var s3 := Apply(s2, c);
    assert s2.alrs[|s.alrs|].key == l.key && l.key in s3.mwd;
    RunCons(s2, c, [], s3);
    RunCons(s1, b, [c], s3);
    RunCons(s, a, [b] + [c], s3);
    assert [a] + ([b] + [c]) == [a, b, c];
  }

  // ---------------------------------------------------------------- the list limit

  lemma TwoMore(mwd: Table, a: Key, b: Key, r: Record)
    requires a.imsi == b.imsi && a != b && a !in mwd && b !in mwd
    ensures |Of(Stored(Stored(mwd, a, r), b, r), a.imsi)| == |Of(mwd, a.imsi)| + 2
  {
    assert Of(Stored(Stored(mwd, a, r), b, r), a.imsi) == Of(mwd, a.imsi) + {a, b};
    assert a !in Of(mwd, a.imsi) && b !in Of(mwd, a.imsi);
    assert |{a, b}| == 2;
  }

  lemma BothStored(s: State, a: Key, b: Key, r: Record)
    requires a != b && (a, r) in s.checked && (b, r) in s.checked
    ensures var steps := [Store(a, r, true)] + [Store(b, r, true)];
            Run(s, steps).At? && Run(s, steps).state.mwd == Stored(Stored(s.mwd, a, r), b, r)
  {
    var t := Apply(s, Store(a, r, true));
    var u := Apply(t, Store(b, r, true));
    RunCons(t, Store(b, r, true), [], u);
    RunCons(s, Store(a, r, true), [Store(b, r, true)], u);
  }

  lemma BothChecked(s: State, a: Key, b: Key, r: Record, rest: seq<Step>)
    requires !ListFull(s.mwd, a) && !ListFull(s.mwd, b)
    ensures Run(s, [Check(a, r)] + ([Check(b, r)] + rest))
            == Run(s.(checked := s.checked + multiset{(a, r)} + multiset{(b, r)}), rest)
  {
    var t := Apply(s, Check(a, r));
    assert ([Check(a, r)] + ([Check(b, r)] + rest))[1..] == [Check(b, r)] + rest;
    assert ([Check(b, r)] + rest)[1..] == rest;
    assert Run(t, [Check(b, r)] + rest) == Run(Apply(t, Check(b, r)), rest);
  }

  /** Two overlapping reports can both pass the check at nine records and leave eleven. */
  lemma OverlappingReportsExceedLimit(s: State, a: Key, b: Key, r: Record)
    requires a.imsi == b.imsi && a != b && a !in s.mwd && b !in s.mwd && |Of(s.mwd, a.imsi)| == MAX_ENTRIES - 1
    ensures var steps := [Check(a, r)] + ([Check(b, r)] + ([Store(a, r, true)] + [Store(b, r, true)]));
            Run(s, steps).At? && |Of(Run(s, steps).state.mwd, a.imsi)| == MAX_ENTRIES + 1
  {
    BothChecked(s, a, b, r, [Store(a, r, true)] + [Store(b, r, true)]);
    BothStored(s.(checked := s.checked + multiset{(a, r)} + multiset{(b, r)}), a, b, r);
    TwoMore(s.mwd, a, b, r);
  }

  /** Keys of which some alert or report holds a copy. */
  function Copies(s: State): set<Key> {
    (set l | l in s.loaded :: l.key) + (set n | n in s.flights && n < |s.alrs| :: s.alrs[n].key)
    + (set r | r in s.checked :: r.0)
  }

  /** The subscriber's records that are stored or can be without a new report. */
  function NearOf(s: State, imsi: string): set<Key> {
    set k | k in s.mwd.Keys + Copies(s) && k.imsi == imsi && Near(s, k)
  }

  lemma NearOfIs(s: State, imsi: string)
    ensures forall k :: k in NearOf(s, imsi) <==> Near(s, k) && k.imsi == imsi
    ensures Of(s.mwd, imsi) <= NearOf(s, imsi)
  {
    forall k | Near(s, k)
      ensures k in s.mwd.Keys + Copies(s)
    {
      if Flying(s, k) {
        var n :| n in s.flights && n < |s.alrs| && s.alrs[n].key == k;
        assert n in s.flights;
      }
    }
  }

  lemma SubsetSize(a: set<Key>, b: set<Key>)
    requires a <= b
    ensures |a| <= |b|
  {
    assert b == a + (b - a);
  }

  predicate NoReportsFor(steps: seq<Step>, imsi: string) {
    forall i {:trigger steps[i]} :: 0 <= i < |steps| ==> !(steps[i].Check? && steps[i].key.imsi == imsi)
  }

  lemma NearShrinks(s: State, steps: seq<Step>, imsi: string)
    requires Inv(s) && NoReportsFor(steps, imsi) && Run(s, steps).At?
    ensures NearOf(Run(s, steps).state, imsi) <= NearOf(s, imsi)
  {
    hide Inv, Near;
    var t := Run(s, steps).state;
    NearOfIs(s, imsi);
    NearOfIs(t, imsi);
    forall k | k in NearOf(t, imsi)
      ensures k in NearOf(s, imsi)
    {
      if !Near(s, k) {
        assert NoNewReport(steps, k);
        ClearedStays(s, steps, k);
      }
    }
  }

  lemma {:induction false} RunConcat(s: State, a: seq<Step>, u: State, b: seq<Step>, t: State)
    requires Run(s, a) == At(u) && Run(u, b) == At(t)
    ensures Run(s, a + b) == At(t)
    decreases |a|
  {
    hide Apply;
    if a == [] {
      assert a + b == b;
    } else {
      RunConcat(Apply(s, a[0]), a[1..], u, b, t);
      assert (a + b)[1..] == a[1..] + b && (a + b)[0] == a[0];
    }
  }

  /** All near records of a set can be stored together. */
  lemma {:induction false} AllReturn(s: State, keys: set<Key>) returns (steps: seq<Step>, t: State)
    requires Inv(s) && forall k :: k in keys ==> Near(s, k)
    ensures Richer(s, steps, t) && forall k :: k in keys ==> k in t.mwd
    decreases |keys|
  {
    hide Inv, Near;
    if keys == {} {
      steps, t := [], s;
    } else {
      var key :| key in keys;
      var first, u := NearReturns(s, key);
      var rest, v := AllReturn(u, keys - {key});
      RunConcat(s, first, u, rest, v);
      steps, t := first + rest, v;
    }
  }

  /**
   Without new reports for the subscriber, the most records any continuation of a state can store for it are exactly
   the near ones.
   */
  lemma MostRecords(s: State, imsi: string, n: nat)
    requires Reachable(s)
    ensures (exists steps :: NoReportsFor(steps, imsi) && Run(s, steps).At? && |Of(Run(s, steps).state.mwd, imsi)| > n)
            <==> |NearOf(s, imsi)| > n
  {
    hide Inv, Near, Of, NearOf;
    ReachableInv(s);
    NearOfIs(s, imsi);
    if |NearOf(s, imsi)| > n {
      var steps, t := AllReturn(s, NearOf(s, imsi));
      AllStored(t, NearOf(s, imsi), imsi);
      assert NoReportsFor(steps, imsi) && Run(s, steps).At?;
    }
    if steps :| NoReportsFor(steps, imsi) && Run(s, steps).At? && |Of(Run(s, steps).state.mwd, imsi)| > n {
      var t := Run(s, steps).state;
      NearShrinks(s, steps, imsi);
      NearOfIs(t, imsi);
      SubsetSize(Of(t.mwd, imsi), NearOf(s, imsi));
    }
  }

  lemma AllStored(t: State, keys: set<Key>, imsi: string)
    requires forall k :: k in keys ==> k in t.mwd && k.imsi == imsi
    ensures |keys| <= |Of(t.mwd, imsi)|
  {
    SubsetSize(keys, Of(t.mwd, imsi));
  }

  /** At no point of the run can any continuation without new reports exceed the subscriber's limit. */
  predicate LimitSafe(s: State, steps: seq<Step>, imsi: string)
    decreases |steps|
  {
    && |NearOf(s, imsi)| <= MAX_ENTRIES
    && (steps != [] && Enabled(s, steps[0]) ==> LimitSafe(Apply(s, steps[0]), steps[1..], imsi))
  }

  /** Every check for the subscriber is for a near record, or made while fewer than ten are near. */
  predicate ChecksWithRoom(s: State, steps: seq<Step>, imsi: string)
    decreases |steps|
  {
    steps != [] && Enabled(s, steps[0]) ==>
      && (steps[0].Check? && steps[0].key.imsi == imsi ==>
            Near(s, steps[0].key) || |NearOf(s, imsi)| < MAX_ENTRIES)
      && ChecksWithRoom(Apply(s, steps[0]), steps[1..], imsi)
  }

  lemma CheckAddsNear(s: State, key: Key, r: Record)
    requires Enabled(s, Check(key, r))
    ensures NearOf(Apply(s, Check(key, r)), key.imsi) == NearOf(s, key.imsi) + {key}
  {
    var t := Apply(s, Check(key, r));
    NearOfIs(s, key.imsi);
    NearOfIs(t, key.imsi);
    assert (key, r) in t.checked;
    forall k
      ensures Near(t, k) <==> Near(s, k) || k == key
    {
      CheckNear(s, key, r, k);
    }
  }

  lemma CheckNear(s: State, key: Key, r: Record, k: Key)
    requires Enabled(s, Check(key, r))
    ensures Near(Apply(s, Check(key, r)), k) <==> Near(s, k) || k == key
  {
    var t := Apply(s, Check(key, r));
    assert (key, r) in t.checked;
    if k != key && !Near(s, k) {
      CheckKeepsFar(s, key, r, k);
    }
    if Reporting(s, k) {
      var q :| q in s.checked && q.0 == k;
      assert q in t.checked;
    }
  }

  lemma OtherStepsShrink(s: State, step: Step, imsi: string)
    requires Inv(s) && Enabled(s, step) && !(step.Check? && step.key.imsi == imsi)
    ensures |NearOf(Apply(s, step), imsi)| <= |NearOf(s, imsi)|
  {
    hide Apply, Near, Inv;
    var t := Apply(s, step);
    NearOfIs(s, imsi);
    NearOfIs(t, imsi);
    forall k | k in NearOf(t, imsi)
      ensures k in NearOf(s, imsi)
    {
      if !Near(s, k) {
        StaysFar(s, step, k);
      }
    }
    SubsetSize(NearOf(t, imsi), NearOf(s, imsi));
  }

  lemma LimitSafeStep(s: State, step: Step, imsi: string)
    requires Inv(s) && Enabled(s, step) && |NearOf(s, imsi)| <= MAX_ENTRIES
    ensures |NearOf(Apply(s, step), imsi)| <= MAX_ENTRIES <==>
            (step.Check? && step.key.imsi == imsi ==> Near(s, step.key) || |NearOf(s, imsi)| < MAX_ENTRIES)
  {
    hide Apply, Near, Inv, NearOf;
    if step.Check? && step.key.imsi == imsi {
      var near := NearOf(s, imsi);
      CheckAddsNear(s, step.key, step.record);
      NearOfIs(s, imsi);
      if Near(s, step.key) {
        assert near + {step.key} == near;
      } else {
        assert |near + {step.key}| == |near| + 1;
      }
    } else {
      OtherStepsShrink(s, step, imsi);
    }
  }

  /**
   Which interleavings keep the limit of ten: from a state within it, it is out of danger at every point of a run
   exactly when each check is for a near record or finds fewer than ten near.
   */
  lemma {:induction false} LimitSafeIff(s: State, steps: seq<Step>, imsi: string)
    requires Inv(s) && |NearOf(s, imsi)| <= MAX_ENTRIES
    ensures LimitSafe(s, steps, imsi) <==> ChecksWithRoom(s, steps, imsi)
    decreases |steps|
  {
    hide Apply, Near, Inv, NearOf;
    if steps != [] && Enabled(s, steps[0]) {
      StepInv(s, steps[0]);
      LimitSafeStep(s, steps[0], imsi);
      if |NearOf(Apply(s, steps[0]), imsi)| <= MAX_ENTRIES {
        LimitSafeIff(Apply(s, steps[0]), steps[1..], imsi);
      }
    }
  }

  /** So a run whose checks find room ends within the limit, and within it whatever is still to be written back. */
  lemma {:induction false} RoomKeepsLimit(s: State, steps: seq<Step>, imsi: string)
    requires Inv(s) && |NearOf(s, imsi)| <= MAX_ENTRIES && ChecksWithRoom(s, steps, imsi) && Run(s, steps).At?
    ensures var t := Run(s, steps).state;
            |Of(t.mwd, imsi)| <= |NearOf(t, imsi)| <= MAX_ENTRIES
    decreases |steps|
  {
    hide Apply, Near, Inv, NearOf, Of;
    if steps == [] {
      NearOfIs(s, imsi);
      SubsetSize(Of(s.mwd, imsi), NearOf(s, imsi));
    } else {
      StepInv(s, steps[0]);
      LimitSafeStep(s, steps[0], imsi);
      RoomKeepsLimit(Apply(s, steps[0]), steps[1..], imsi);
    }
  }

  /** With no copy under way the code's own check is that one, so handlers run one at a time keep the limit. */
  lemma IdleChecksHaveRoom(s: State, key: Key)
    requires Copies(s) == {} && !ListFull(s.mwd, key)
    ensures Near(s, key) || |NearOf(s, key.imsi)| < MAX_ENTRIES
  {
    NearOfIs(s, key.imsi);
    assert NearOf(s, key.imsi) == Of(s.mwd, key.imsi);
  }

  /**
   It takes no overlapping reports: with ten records, one of which an alert has read, a successful report for that one
   and a new one for another SC leave eleven once the alert has written its copy back.
   */
  lemma AlertRouteExceedsLimit(s: State, l: Loaded, b: Key, r: Record, sid: Sid)
    requires l in s.loaded && TriggerMatches(l.trigger, l.record.flags) && l.key in s.mwd
    requires b.imsi == l.key.imsi && b !in s.mwd && |Of(s.mwd, b.imsi)| == MAX_ENTRIES
    ensures var steps := [ReportSuccess(l.key)] + (([Check(b, r)] + [Store(b, r, true)])
                         + ([Send(l, sid)] + [Update(|s.alrs|, true)]));
            Run(s, steps).At? && |Of(Run(s, steps).state.mwd, b.imsi)| == MAX_ENTRIES + 1
  {
    hide Of;
    var cleared := Apply(s, ReportSuccess(l.key));
    OneLess(s.mwd, l.key);
    var reported := Reported(cleared, b, r);
    var t := WrittenBack(reported, l, sid);
    var first, second := [Check(b, r)] + [Store(b, r, true)], [Send(l, sid)] + [Update(|s.alrs|, true)];
    RunConcat(cleared, first, reported, second, t);
    RunCons(s, ReportSuccess(l.key), first + second, t);
    TwoMoreOf(cleared.mwd, l.key, b, t.mwd);
  }

  lemma OneLess(mwd: Table, key: Key)
    requires key in mwd
    ensures |Of(mwd - {key}, key.imsi)| == |Of(mwd, key.imsi)| - 1
  {
    assert Of(mwd - {key}, key.imsi) == Of(mwd, key.imsi) - {key};
  }

  lemma TwoMoreOf(mwd: Table, a: Key, b: Key, t: Table)
    requires a.imsi == b.imsi && a != b && a !in mwd && b !in mwd && t.Keys == mwd.Keys + {a, b}
    ensures |Of(t, b.imsi)| == |Of(mwd, b.imsi)| + 2
  {
    assert Of(t, b.imsi) == Of(mwd, b.imsi) + {a, b};
    assert a !in Of(mwd, b.imsi) && b !in Of(mwd, b.imsi) && |{a, b}| == 2;
  }

  lemma Reported(s: State, b: Key, r: Record) returns (t: State)
    requires !ListFull(s.mwd, b)
    ensures Run(s, [Check(b, r)] + [Store(b, r, true)]) == At(t)
    ensures t.mwd.Keys == s.mwd.Keys + {b} && t.loaded == s.loaded && t.alrs == s.alrs
  {
    hide Stored, ListFull;
    StoredKeepsKeys();
    var u := Apply(s, Check(b, r));
    t := Apply(u, Store(b, r, true));
    RunCons(u, Store(b, r, true), [], t);
    RunCons(s, Check(b, r), [Store(b, r, true)], t);
  }

  lemma WrittenBack(s: State, l: Loaded, sid: Sid) returns (t: State)
    requires l in s.loaded && TriggerMatches(l.trigger, l.record.flags)
    ensures Run(s, [Send(l, sid)] + [Update(|s.alrs|, true)]) == At(t) && t.mwd.Keys == s.mwd.Keys + {l.key}
  {
    hide Stored;
    StoredKeepsKeys();
    var u := Apply(s, Send(l, sid));
    t := Apply(u, Update(|s.alrs|, true));
    assert u.alrs[|s.alrs|].key == l.key;
    RunCons(u, Update(|s.alrs|, true), [], t);
    RunCons(s, Send(l, sid), [Update(|s.alrs|, true)], t);
  }
}

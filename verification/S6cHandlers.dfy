/** The S6c handlers run one at a time: RDSMR of rsds.go and sendALRForIMSI and ALA of alsc.go. */
module S6cHandlers {
  import opened Bytes
  import opened S6c

  // ---------------------------------------------------------------- reading the AVPs

  datatype AvpData = Grouped(avps: seq<Avp>) | Enumerated(n: int) | Unsigned32(u: nat) | Other

  datatype Avp = Avp(code: nat, data: AvpData)

  const SM_DELIVERY_CAUSE := 3321
  const ABSENT_USER_DIAGNOSTIC := 3322
  const NODE_OUTCOMES := [3317, 3318, 3319, 3320]
  const EXPERIMENTAL_RESULT_CODE := 298

  const MEMORY_CAPACITY_EXCEEDED := 0
  const SUCCESSFUL_TRANSFER := 2
  const NO_CAUSE := -1

  datatype Delivery = Delivery(cause: int, diagnostic: nat)

  predicate IsCause(a: Avp) {
    a.code == 3321 && a.data.Enumerated?
  }

  predicate IsDiagnostic(a: Avp) {
    a.code == 3322 && a.data.Unsigned32?
  }

  /** v is what the last AVP satisfying p carries, or none when no AVP does. */
  ghost predicate LastOf(avps: seq<Avp>, p: Avp -> bool, read: Avp -> int, none: int, v: int) {
    if forall i :: 0 <= i < |avps| ==> !p(avps[i]) then v == none
    else exists i :: 0 <= i < |avps| && p(avps[i]) && v == read(avps[i])
                     && forall j :: i < j < |avps| ==> !p(avps[j])
  }

  function EnumOf(a: Avp): int {
    if a.data.Enumerated? then a.data.n else 0
  }

  function UnsignedOf(a: Avp): int {
    if a.data.Unsigned32? then a.data.u else 0
  }

  /** The inner loop of parseDeliveryOutcome over one node's outcome. */
  method ReadNode(avps: seq<Avp>) returns (d: Delivery)
    ensures LastOf(avps, IsCause, EnumOf, NO_CAUSE, d.cause)
    ensures LastOf(avps, IsDiagnostic, UnsignedOf, 0, d.diagnostic)
  {
    hide LastOf;
    d := Delivery(NO_CAUSE, 0);
    assert avps[..0] == [];
    LastOfNothing(IsCause, EnumOf, NO_CAUSE);
    LastOfNothing(IsDiagnostic, UnsignedOf, 0);
    for i := 0 to |avps|
      invariant LastOf(avps[..i], IsCause, EnumOf, NO_CAUSE, d.cause)
      invariant LastOf(avps[..i], IsDiagnostic, UnsignedOf, 0, d.diagnostic)
    {
      var a := avps[i];
      LastSnoc(avps[..i], a, IsCause, EnumOf, NO_CAUSE, d.cause);
      LastSnoc(avps[..i], a, IsDiagnostic, UnsignedOf, 0, d.diagnostic);
      if a.code == SM_DELIVERY_CAUSE && a.data.Enumerated? {
        d := d.(cause := a.data.n);
      } else if a.code == ABSENT_USER_DIAGNOSTIC && a.data.Unsigned32? {
        d := d.(diagnostic := a.data.u);
      }
      assert avps[..i] + [a] == avps[..i + 1];
    }
    assert avps[..|avps|] == avps;
  }

  lemma LastOfNothing(p: Avp -> bool, read: Avp -> int, none: int)
    ensures LastOf([], p, read, none, none)
  {
  }

  lemma LastSnoc(avps: seq<Avp>, a: Avp, p: Avp -> bool, read: Avp -> int, none: int, v: int)
    requires LastOf(avps, p, read, none, v)
    ensures LastOf(avps + [a], p, read, none, if p(a) then read(a) else v)
  {
    var all := avps + [a];
    if p(a) {
      assert all[|avps|] == a;
    } else if exists i :: 0 <= i < |avps| && p(avps[i]) {
      var i :| 0 <= i < |avps| && p(avps[i]) && v == read(avps[i]) && forall j :: i < j < |avps| ==> !p(avps[j]);
      assert all[i] == avps[i];
    }
  }

  /** A delivery read off one node's outcome. */
  ghost predicate NodeSays(a: Avp, d: Delivery) {
    && 3317 <= a.code <= 3320 && a.data.Grouped?
    && LastOf(a.data.avps, IsCause, EnumOf, NO_CAUSE, d.cause)
    && LastOf(a.data.avps, IsDiagnostic, UnsignedOf, 0, d.diagnostic)
  }

  /** A node outcome that names no cause. */
  ghost predicate Silent(a: Avp) {
    !(3317 <= a.code <= 3320 && a.data.Grouped?) || LastOf(a.data.avps, IsCause, EnumOf, NO_CAUSE, NO_CAUSE)
  }

  /** parseDeliveryOutcome: the first node outcome that names a cause, or no cause at all. */
  method ParseDeliveryOutcome(outer: Option<AvpData>) returns (d: Delivery)
    ensures (outer.None? || !outer.value.Grouped?) ==> d == Delivery(NO_CAUSE, 0)
    ensures outer.Some? && outer.value.Grouped? ==>
              var subs := outer.value.avps;
              if d.cause == NO_CAUSE then d.diagnostic == 0 && forall i :: 0 <= i < |subs| ==> Silent(subs[i])
              else exists i :: 0 <= i < |subs| && NodeSays(subs[i], d) && forall j :: 0 <= j < i ==> Silent(subs[j])
  {
    d := Delivery(NO_CAUSE, 0);
    if outer.None? || !outer.value.Grouped? {
      return;
    }
    var subs := outer.value.avps;
    for i := 0 to |subs|
      invariant forall j :: 0 <= j < i ==> Silent(subs[j])
    {
      var sub := subs[i];
      if sub.code in NODE_OUTCOMES && sub.data.Grouped? {
        var node := ReadNode(sub.data.avps);
        if node.cause != NO_CAUSE {
          assert NodeSays(subs[i], node);
          return node;
        }
      }
    }
  }

  /** alaAnswerResultCode: Result-Code, else the first well-typed code inside Experimental-Result. */
  method AlaResultCode(resultCode: Option<AvpData>, experimental: Option<AvpData>) returns (code: Option<nat>)
    ensures resultCode.Some? && resultCode.value.Unsigned32? ==> code == Some(resultCode.value.u)
    ensures !(resultCode.Some? && resultCode.value.Unsigned32?) ==>
              if experimental.Some? && experimental.value.Grouped?
              then FirstCode(experimental.value.avps, code)
              else code == None
  {
    if resultCode.Some? && resultCode.value.Unsigned32? {
      return Some(resultCode.value.u);
    }
    code := None;
    if experimental.Some? && experimental.value.Grouped? {
      var group := experimental.value.avps;
      for i := 0 to |group|
        invariant forall j :: 0 <= j < i ==> !CodeChild(group[j])
      {
        if group[i].code == EXPERIMENTAL_RESULT_CODE && group[i].data.Unsigned32? {
          return Some(group[i].data.u);
        }
      }
    }
  }

  predicate CodeChild(a: Avp) {
    a.code == 298 && a.data.Unsigned32?
  }

  ghost predicate FirstCode(group: seq<Avp>, code: Option<nat>) {
    match code
    case None => forall i :: 0 <= i < |group| ==> !CodeChild(group[i])
    case Some(c) =>
      exists i :: 0 <= i < |group| && CodeChild(group[i]) && group[i].data.u == c
                  && forall j :: 0 <= j < i ==> !CodeChild(group[j])
  }

  // ---------------------------------------------------------------- triggers

  /** Exactly one of the two reasons to wait. */
  predicate OneReason(flags: Flags) {
    flags == MNRF || flags == MCEF
  }

  /** A stored record is always woken by some trigger, by attach and reachability or by freed memory but never both. */
  lemma SomeTriggerMatches(flags: Flags)
    requires OneReason(flags)
    ensures TriggerMatches(Attach, flags) == TriggerMatches(UserAvailable, flags) == (flags == MNRF)
    ensures TriggerMatches(MemoryAvailable, flags) == (flags == MCEF)
    ensures exists t :: TriggerMatches(t, flags)
    ensures TriggerMatches(Attach, 0) && TriggerMatches(UserAvailable, 0) && !TriggerMatches(MemoryAvailable, 0)
  {
    assert MNRF & MNRF != 0 && MCEF & MCEF != 0 && MNRF & MCEF == 0 && MCEF & MNRF == 0;
    assert TriggerMatches(Attach, flags) || TriggerMatches(MemoryAvailable, flags);
  }

  /** What the alert attempts of a record do not touch. */
  lemma AlertKeepsReason(r: Record, t: Trigger)
    ensures Assigned(r, Alerted(r, t)).flags == r.flags
    ensures Assigned(r, Alerted(r, t)).trigger == Some(t)
    ensures r.attempts < 0xffff_ffff ==> Assigned(r, Alerted(r, t)).attempts == r.attempts + 1
    ensures Assigned(r, Alerted(r, t)) == r.(trigger := Some(t), attempts := Assigned(r, Alerted(r, t)).attempts)
    ensures r.attempts == 0xffff_ffff ==> Assigned(r, Alerted(r, t)).attempts == r.attempts
  {
  }

  lemma AlertsKeepReasons(trigger: Trigger)
    ensures forall r: Record :: Attempted(r, Assigned(r, Alerted(r, trigger)), trigger)
  {
    forall r: Record
      ensures Attempted(r, Assigned(r, Alerted(r, trigger)), trigger)
    {
      AlertKeepsReason(r, trigger);
    }
  }

  /** now is r after one more alert attempt; the 32-bit count stays at its top, as a zero is not written. */
  predicate Attempted(r: Record, now: Record, trigger: Trigger) {
    && now == r.(trigger := Some(trigger), attempts := now.attempts)
    && (r.attempts < 0xffff_ffff ==> now.attempts == r.attempts + 1)
    && (r.attempts == 0xffff_ffff ==> now.attempts == r.attempts)
  }

  // ---------------------------------------------------------------- the handlers

  datatype RdsAnswer = UserUnknown | UnableToComply | Done(status: Option<Flags>) | ListIsFull

  /** How the subscriber lookup ended, and which MWD accesses the store carries out. */
  datatype Lookup = Found(imsi: string) | Unknown | LookupFailed

  datatype Database = Database(deletes: bool, lists: bool, stores: bool)

  datatype Report = Report(sc: string, host: string, realm: string, mti: int, rdrFlags: Flags,
                           correlation: Option<string>, delivery: Delivery)

  function ReasonOf(cause: int): Flags {
    if cause == MEMORY_CAPACITY_EXCEEDED then MCEF else MNRF
  }

  function RecordOf(r: Report): Record {
    Record(r.host, r.realm, r.mti, ReasonOf(r.delivery.cause), r.correlation,
           if r.delivery.diagnostic == 0 then None else Some(r.delivery.diagnostic), None, 0)
  }

  /** v is the reported value where there is one, and otherwise what the record held before, if there was one. */
  predicate Took<T(==)>(v: T, reported: T, empty: T, before: Option<T>) {
    if reported != empty then v == reported
    else if before.Some? then v == before.value
    else v == empty
  }

  /** StoreMWD field by field: each one that is set is taken, and the others keep what the row held. */
  lemma StoreTakesSetFields(row: Record, r: Record)
    ensures var now := Assigned(row, r);
            && Took(now.host, r.host, "", Some(row.host)) && Took(now.realm, r.realm, "", Some(row.realm))
            && Took(now.mti, r.mti, 0, Some(row.mti)) && Took(now.flags, r.flags, 0, Some(row.flags))
            && Took(now.correlation, r.correlation, None, Some(row.correlation))
            && Took(now.diagnostic, r.diagnostic, None, Some(row.diagnostic))
            && Took(now.trigger, r.trigger, None, Some(row.trigger))
            && Took(now.attempts, r.attempts, 0, Some(row.attempts))
  {
  }

  /**
   What a stored report leaves under key, whether its SC is new or known with another reason: memory full (cause 0)
   wakes on freed memory, any other cause on attach and reachability, and the status is that reason. The SC's host,
   realm and the other fields are those reported, where they say something. Nothing else changes.
   */
  ghost predicate ReportTaken(before: Table, after: Table, key: Key, r: Report, status: Flags) {
    && key in after && after.Keys == before.Keys + {key}
    && (forall k :: k in before && k != key ==> after[k] == before[k])
    && var now, known := after[key], key in before;
    && now.flags == status && status == (if r.delivery.cause == 0 then 0x04 else 0x02)
    && (TriggerMatches(MemoryAvailable, now.flags) <==> r.delivery.cause == 0)
    && (TriggerMatches(Attach, now.flags) <==> r.delivery.cause != 0)
    && (TriggerMatches(UserAvailable, now.flags) <==> r.delivery.cause != 0)
    && Took(now.host, r.host, "", if known then Some(before[key].host) else None)
    && Took(now.realm, r.realm, "", if known then Some(before[key].realm) else None)
    && Took(now.mti, r.mti, 0, if known then Some(before[key].mti) else None)
    && Took(now.correlation, r.correlation, None, if known then Some(before[key].correlation) else None)
    && (r.delivery.diagnostic != 0 ==> now.diagnostic == Some(r.delivery.diagnostic))
    && (r.delivery.diagnostic == 0 ==> now.diagnostic == if known then before[key].diagnostic else None)
    && now.trigger == (if known then before[key].trigger else None)
    && now.attempts == (if known then before[key].attempts else 0)
  }

  lemma StoredReportTaken(mwd: Table, key: Key, r: Report)
    ensures ReportTaken(mwd, Stored(mwd, key, RecordOf(r)), key, r, ReasonOf(r.delivery.cause))
  {
    assert MNRF & MNRF != 0 && MCEF & MCEF != 0 && MNRF & MCEF == 0 && MCEF & MNRF == 0;
  }

  /** One alert round over imsi's records sends for key. */
  predicate Sends(mwd: Table, imsi: string, trigger: Trigger, connected: set<string>, written: Key -> bool, key: Key)
    requires key in mwd
  {
    key.imsi == imsi && TriggerMatches(trigger, mwd[key].flags) && mwd[key].host in connected && written(key)
  }

  /** The sessions of alrs registered in order. */
  function RegisterAll(pending: map<Sid, Key>, alrs: seq<Alr>): map<Sid, Key> {
    if alrs == [] then pending
    else
      var last := alrs[|alrs| - 1];
      RegisterAll(pending, alrs[..|alrs| - 1])[last.sid := last.key]
  }

  predicate Sent(alrs: seq<Alr>, key: Key) {
    exists i :: 0 <= i < |alrs| && alrs[i].key == key
  }

  lemma SentSnoc(alrs: seq<Alr>, a: Alr)
    ensures forall key :: Sent(alrs + [a], key) <==> Sent(alrs, key) || key == a.key
    ensures (alrs + [a])[..|alrs|] == alrs
  {
    forall key
      ensures Sent(alrs + [a], key) <==> Sent(alrs, key) || key == a.key
    {
      assert (alrs + [a])[|alrs|] == a;
      if Sent(alrs, key) {
        var i :| 0 <= i < |alrs| && alrs[i].key == key;
        assert (alrs + [a])[i].key == key;
      }
    }
  }

  /** A record after an alert round; saved tells for which keys the metadata update succeeds. */
  function Afterwards(mwd: Table, alrs: seq<Alr>, trigger: Trigger, saved: Key -> bool, key: Key): Record
    requires key in mwd
  {
    if Sent(alrs, key) && saved(key) then Assigned(mwd[key], Alerted(mwd[key], trigger)) else mwd[key]
  }

  /** The table after one ALR, its metadata update having succeeded or not. */
  function Noted(mwd: Table, key: Key, trigger: Trigger, ok: bool): Table
    requires key in mwd
  {
    if ok then Stored(mwd, key, Alerted(mwd[key], trigger)) else mwd
  }

  /** The state of an alert round when the records in handled are through. */
  ghost predicate Round(before: Table, mwd: Table, alrs: seq<Alr>, handled: seq<Key>, imsi: string, trigger: Trigger,
                        connected: set<string>, written: Key -> bool, saved: Key -> bool) {
    && mwd.Keys == before.Keys
    && (forall i, j :: 0 <= i < j < |alrs| ==> alrs[i].key != alrs[j].key)
    && (forall key :: Sent(alrs, key) <==>
          key in handled && key in before && Sends(before, imsi, trigger, connected, written, key))
    && forall key :: key in mwd ==> mwd[key] == Afterwards(before, alrs, trigger, saved, key)
  }

  lemma RoundStarts(before: Table, imsi: string, trigger: Trigger, connected: set<string>, written: Key -> bool,
                    saved: Key -> bool)
    ensures Round(before, before, [], [], imsi, trigger, connected, written, saved)
  {
  }

  lemma RoundDone(before: Table, mwd: Table, alrs: seq<Alr>, records: seq<Key>, imsi: string, trigger: Trigger,
                  connected: set<string>, written: Key -> bool, saved: Key -> bool)
    requires Round(before, mwd, alrs, records, imsi, trigger, connected, written, saved)
    requires forall key :: key in records <==> key in before && key.imsi == imsi
    ensures mwd.Keys == before.Keys
    ensures forall i, j :: 0 <= i < j < |alrs| ==> alrs[i].key != alrs[j].key
    ensures forall key :: Sent(alrs, key) <==> key in before && Sends(before, imsi, trigger, connected, written, key)
    ensures forall key :: key in mwd ==> mwd[key] == Afterwards(before, alrs, trigger, saved, key)
    ensures forall key :: key in mwd ==> mwd[key].flags == before[key].flags
  {
  }

  lemma RoundUntouched(before: Table, mwd: Table, alrs: seq<Alr>, handled: seq<Key>, imsi: string, trigger: Trigger,
                       connected: set<string>, written: Key -> bool, saved: Key -> bool, key: Key)
    requires Round(before, mwd, alrs, handled, imsi, trigger, connected, written, saved)
    requires key !in handled && key in before
    ensures key in mwd && mwd[key] == before[key]
  {
  }

  lemma RoundSkips(before: Table, mwd: Table, alrs: seq<Alr>, handled: seq<Key>, imsi: string, trigger: Trigger,
                   connected: set<string>, written: Key -> bool, saved: Key -> bool, key: Key)
    requires Round(before, mwd, alrs, handled, imsi, trigger, connected, written, saved)
    requires key in before && !Sends(before, imsi, trigger, connected, written, key)
    ensures Round(before, mwd, alrs, handled + [key], imsi, trigger, connected, written, saved)
  {
  }

  lemma RoundSends(before: Table, mwd: Table, alrs: seq<Alr>, handled: seq<Key>, imsi: string, trigger: Trigger,
                   connected: set<string>, written: Key -> bool, saved: Key -> bool, key: Key, sid: Sid)
    requires Round(before, mwd, alrs, handled, imsi, trigger, connected, written, saved) && key !in handled
    requires key in before && Sends(before, imsi, trigger, connected, written, key)
    ensures key in mwd
    ensures Round(before, Noted(mwd, key, trigger, saved(key)), alrs + [Alr(sid, key)], handled + [key],
                  imsi, trigger, connected, written, saved)
  {
    SentSnoc(alrs, Alr(sid, key));
    assert !Sent(alrs, key) && mwd[key] == before[key];
  }

  predicate Uses(alrs: seq<Alr>, sid: Sid) {
    exists i :: 0 <= i < |alrs| && alrs[i].sid == sid
  }

  /** No later ALR has the session id of the i-th. */
  predicate IsLast(alrs: seq<Alr>, i: nat) {
    i < |alrs| && forall j :: i < j < |alrs| ==> alrs[j].sid != alrs[i].sid
  }

  /** Every session of alrs is registered, a repeated one for its last ALR, and the others stay. */
  lemma {:induction false} RegisteredAt(pending: map<Sid, Key>, alrs: seq<Alr>, sid: Sid)
    ensures sid in RegisterAll(pending, alrs) <==> sid in pending || Uses(alrs, sid)
    ensures sid in pending && !Uses(alrs, sid) ==> RegisterAll(pending, alrs)[sid] == pending[sid]
    ensures forall i: nat :: IsLast(alrs, i) && alrs[i].sid == sid ==>
              sid in RegisterAll(pending, alrs) && RegisterAll(pending, alrs)[sid] == alrs[i].key
    decreases |alrs|
  {
    if alrs != [] {
      var n := |alrs| - 1;
      RegisteredAt(pending, alrs[..n], sid);
      assert Uses(alrs, sid) <==> Uses(alrs[..n], sid) || alrs[n].sid == sid;
      forall i: nat | IsLast(alrs, i) && alrs[i].sid == sid
        ensures RegisterAll(pending, alrs)[sid] == alrs[i].key
      {
        if i < n {
          assert alrs[n].sid != sid && IsLast(alrs[..n], i) && alrs[..n][i] == alrs[i];
        }
      }
    }
  }

  lemma RegistersNone(pending: map<Sid, Key>)
    ensures RegisterAll(pending, []) == pending
  {
  }

  lemma Registers(before: map<Sid, Key>, pending: map<Sid, Key>, alrs: seq<Alr>, a: Alr)
    requires pending == RegisterAll(before, alrs)
    ensures pending[a.sid := a.key] == RegisterAll(before, alrs + [a])
  {
    assert (alrs + [a])[..|alrs|] == alrs;
  }

  ghost predicate Sound(mwd: Table) {
    && (forall key :: key in mwd ==> OneReason(mwd[key].flags))
    && forall imsi: string :: |Of(mwd, imsi)| <= MAX_ENTRIES
  }

  lemma RemovedSound(mwd: Table, key: Key)
    requires Sound(mwd)
    ensures Sound(mwd - {key})
  {
    forall imsi: string
      ensures |Of(mwd - {key}, imsi)| <= MAX_ENTRIES
    {
      assert Of(mwd - {key}, imsi) <= Of(mwd, imsi);
      SubsetSize(Of(mwd - {key}, imsi), Of(mwd, imsi));
    }
  }

  lemma OfStored(mwd: Table, key: Key, r: Record, imsi: string)
    ensures Of(Stored(mwd, key, r), imsi) == Of(mwd, imsi) + if imsi == key.imsi then {key} else {}
  {
    hide Assigned;
  }

  lemma StoredReasons(mwd: Table, key: Key, r: Record)
    requires Sound(mwd) && OneReason(r.flags)
    ensures forall k :: k in Stored(mwd, key, r) ==> OneReason(Stored(mwd, key, r)[k].flags)
  {
  }

  lemma StoredSound(mwd: Table, key: Key, r: Record)
    requires Sound(mwd) && OneReason(r.flags) && !ListFull(mwd, key)
    ensures Sound(Stored(mwd, key, r))
  {
    hide Stored, OneReason;
    StoredReasons(mwd, key, r);
    forall imsi: string
      ensures |Of(Stored(mwd, key, r), imsi)| <= MAX_ENTRIES
    {
      OfStored(mwd, key, r, imsi);
      if key in mwd {
        assert Of(mwd, imsi) + {key} == Of(mwd, imsi) || imsi != key.imsi;
      } else {
        assert key !in Of(mwd, imsi);
      }
    }
  }

  lemma SameKeysSound(mwd: Table, t: Table)
    requires Sound(mwd) && t.Keys == mwd.Keys && forall key :: key in mwd ==> t[key].flags == mwd[key].flags
    ensures Sound(t)
  {
    forall imsi: string
      ensures |Of(t, imsi)| <= MAX_ENTRIES
    {
      assert Of(t, imsi) == Of(mwd, imsi);
    }
  }

  // ---------------------------------------------------------------- the handlers as runs of the machine

  /** The handlers' fields and a state of the machine that agree. */
  ghost predicate Matches(mwd: Table, pending: map<Sid, Key>, s: State) {
    && s.mwd == mwd && s.pending.Keys == pending.Keys
    && forall sid :: sid in pending ==> s.pending[sid] < |s.alrs| && s.alrs[s.pending[sid]].key == pending[sid]
  }

  /** No handler is in the middle of anything. */
  predicate Idle(s: State) {
    s.loaded == multiset{} && s.flights == map[] && s.updated == {} && s.deleting == {} && s.checked == multiset{}
  }

  /** The fields are those of a state the machine reaches with no handler at work. */
  ghost predicate Reached(mwd: Table, pending: map<Sid, Key>, s: State) {
    Reachable(s) && Idle(s) && Matches(mwd, pending, s)
  }

  lemma ReachableRun(s: State, steps: seq<Step>, t: State)
    requires Reachable(s) && Run(s, steps) == At(t)
    ensures Reachable(t)
  {
    var mwd, before :| Run(Initial(mwd), before) == At(s);
    RunConcat(Initial(mwd), before, s, steps, t);
  }

  /** What ALA does is the answer step, followed on a 2001 by the deletion step, which succeeds or not. */
  lemma AlaIsRun(mwd: Table, pending: map<Sid, Key>, s: State, sid: Sid, code: Option<nat>, ok: bool) returns (t: State)
    requires Reached(mwd, pending, s)
    ensures Reached(if sid in pending && code == Some(SUCCESS) && ok then mwd - {pending[sid]} else mwd,
                    pending - {sid}, t)
    ensures var deletes := sid in pending && code == Some(SUCCESS);
            Run(s, [Answer(sid, code)] + if deletes then [Delete(s.pending[sid], ok)] else []) == At(t)
  {
    hide Reachable;
    ReachableInv(s);
    t := Apply(s, Answer(sid, code));
    if sid in pending && code == Some(SUCCESS) {
      var n := s.pending[sid];
      var u := Apply(t, Delete(n, ok));
      RunCons(t, Delete(n, ok), [], u);
      RunCons(s, Answer(sid, code), [Delete(n, ok)], u);
      ReachableRun(s, [Answer(sid, code)] + [Delete(n, ok)], u);
      t := u;
    } else {
      RunCons(s, Answer(sid, code), [], t);
      ReachableRun(s, [Answer(sid, code)] + [], t);
    }
  }

  /** A successful report is the clearing step. */
  lemma ClearIsRun(mwd: Table, pending: map<Sid, Key>, s: State, key: Key) returns (t: State)
    requires Reached(mwd, pending, s)
    ensures Reached(mwd - {key}, pending, t) && Run(s, [ReportSuccess(key)] + []) == At(t)
  {
    hide Reachable;
    t := Apply(s, ReportSuccess(key));
    RunCons(s, ReportSuccess(key), [], t);
    ReachableRun(s, [ReportSuccess(key)] + [], t);
  }

  /** A report past the list check is the check and the store, which succeeds or not, with nothing between. */
  lemma ReportIsRun(mwd: Table, pending: map<Sid, Key>, s: State, key: Key, r: Record, ok: bool) returns (t: State)
    requires Reached(mwd, pending, s) && !ListFull(mwd, key)
    ensures Reached(if ok then Stored(mwd, key, r) else mwd, pending, t)
    ensures Run(s, [Check(key, r)] + [Store(key, r, ok)]) == At(t)
  {
    hide Reachable, Stored, ListFull;
    var u := Apply(s, Check(key, r));
    t := Apply(u, Store(key, r, ok));
    RunCons(u, Store(key, r, ok), [], t);
    RunCons(s, Check(key, r), [Store(key, r, ok)], t);
    ReachableRun(s, [Check(key, r)] + [Store(key, r, ok)], t);
  }

  lemma RegisteredMatches(mwd: Table, pending: map<Sid, Key>, s: State, n: nat)
    requires Matches(mwd, pending, s) && Enabled(s, Register(n))
    ensures Matches(mwd, pending[s.alrs[n].sid := s.alrs[n].key], Apply(s, Register(n)))
  {
  }

  lemma SentMatches(mwd: Table, pending: map<Sid, Key>, s: State, l: Loaded, sid: Sid)
    requires Matches(mwd, pending, s) && Enabled(s, Send(l, sid))
    ensures Matches(mwd, pending, Apply(s, Send(l, sid)))
  {
    assert forall n: nat :: n < |s.alrs| ==> Apply(s, Send(l, sid)).alrs[n] == s.alrs[n];
  }

  /** Sending for a record read just now leaves one flight and nothing else under way. */
  lemma LoadedAndSent(mwd: Table, pending: map<Sid, Key>, s: State, l: Loaded, sid: Sid) returns (t: State)
    requires Idle(s) && Matches(mwd, pending, s) && l.key in mwd && l.record == mwd[l.key]
    requires TriggerMatches(l.trigger, l.record.flags)
    ensures Matches(mwd, pending, t) && t.alrs == s.alrs + [Alr(sid, l.key)]
    ensures t.loaded == multiset{} && t.flights == map[|s.alrs| := Flight(l.record, l.trigger)]
    ensures t.updated == {} && t.deleting == {} && t.checked == multiset{}
    ensures Run(s, [Load(l.key, l.trigger)] + [Send(l, sid)]) == At(t)
  {
    var u := Apply(s, Load(l.key, l.trigger));
    t := Apply(u, Send(l, sid));
    SentMatches(mwd, pending, u, l, sid);
    RunCons(u, Send(l, sid), [], t);
    RunCons(s, Load(l.key, l.trigger), [Send(l, sid)], t);
  }

  lemma NotedAndRegistered(mwd: Table, pending: map<Sid, Key>, s: State, n: nat, ok: bool) returns (t: State)
    requires Matches(mwd, pending, s) && n < |s.alrs| && n in s.flights && s.flights.Keys == {n}
    requires s.loaded == multiset{} && s.updated == {} && s.deleting == {} && s.checked == multiset{}
    ensures var key, f := s.alrs[n].key, s.flights[n];
            Matches(if ok then Stored(mwd, key, Alerted(f.record, f.trigger)) else mwd,
                    pending[s.alrs[n].sid := key], t)
    ensures Idle(t) && Run(s, [Update(n, ok)] + [Register(n)]) == At(t)
  {
    hide Stored, Alerted;
    var u := Apply(s, Update(n, ok));
    t := Apply(u, Register(n));
    RegisteredMatches(u.mwd, pending, u, n);
    RunCons(u, Register(n), [], t);
    RunCons(s, Update(n, ok), [Register(n)], t);
  }

  /** One round of an alert is load, send, update, which succeeds or not, and register for that record. */
  lemma AlertIsRun(mwd: Table, pending: map<Sid, Key>, s: State, key: Key, trigger: Trigger, sid: Sid, ok: bool)
    returns (t: State)
    requires Reached(mwd, pending, s) && key in mwd && TriggerMatches(trigger, mwd[key].flags)
    ensures Reached(Noted(mwd, key, trigger, ok), pending[sid := key], t)
    ensures Run(s, ([Load(key, trigger)] + [Send(Loaded(key, mwd[key], trigger), sid)])
                   + ([Update(|s.alrs|, ok)] + [Register(|s.alrs|)])) == At(t)
  {
    hide Reachable, Stored, Alerted;
    var n, l := |s.alrs|, Loaded(key, mwd[key], trigger);
    var u := LoadedAndSent(mwd, pending, s, l, sid);
    t := NotedAndRegistered(mwd, pending, u, n, ok);
    var first, second := [Load(key, trigger)] + [Send(l, sid)], [Update(n, ok)] + [Register(n)];
    RunConcat(s, first, u, second, t);
    ReachableRun(s, first + second, t);
  }

  /** A record that an alert reads and passes over is as if it had not been read. */
  lemma PassingOverIsRun(s: State, key: Key, trigger: Trigger)
    requires Reachable(s) && key in s.mwd
    ensures Run(s, [Load(key, trigger)] + [Skip(Loaded(key, s.mwd[key], trigger))]) == At(s)
  {
    var l := Loaded(key, s.mwd[key], trigger);
    RunTwo(s, Load(key, trigger), Skip(l));
    assert s.loaded + multiset{l} - multiset{l} == s.loaded;
  }

  // ---------------------------------------------------------------- the class

  class Handlers {
    var mwd: Table
    var pending: map<Sid, Key>
    ghost var st: State

    /** The table is sound, and the fields are those of a state the machine reaches by whole handler runs. */
    ghost predicate Valid()
      reads this
    {
      Sound(mwd) && Reached(mwd, pending, st)
    }

    constructor ()
      ensures Valid() && mwd == map[] && pending == map[]
    {
      mwd, pending, st := map[], map[], Initial(map[]);
      new;
      assert Run(st, []) == At(st);
      assert forall imsi: string :: Of(mwd, imsi) == {};
    }

    /** shouldRejectMWDInsert over the subscriber's records. */
    method ShouldReject(records: seq<Key>, sc: string) returns (reject: bool)
      ensures reject <==> |records| >= 10 && forall i :: 0 <= i < |records| ==> records[i].sc != sc
    {
      for i := 0 to |records|
        invariant forall j :: 0 <= j < i ==> records[j].sc != sc
      {
        if records[i].sc == sc {
          return false;
        }
      }
      return |records| >= MAX_ENTRIES;
    }

    /** GetMWDForIMSI, in any order. */
    method RecordsOf(imsi: string) returns (records: seq<Key>)
      ensures forall key :: key in records <==> key in mwd && key.imsi == imsi
      ensures |records| == |Of(mwd, imsi)|
      ensures forall i, j :: 0 <= i < j < |records| ==> records[i] != records[j]
    {
      records := [];
      var rest := Of(mwd, imsi);
      while rest != {}
        invariant rest <= Of(mwd, imsi) && |records| == |Of(mwd, imsi)| - |rest|
        invariant forall key :: key in records <==> key in Of(mwd, imsi) - rest
        invariant forall i, j :: 0 <= i < j < |records| ==> records[i] != records[j]
        decreases |rest|
      {
        var key :| key in rest;
        assert key !in records;
        records := records + [key];
        rest := rest - {key};
      }
    }

    /**
     RSDS. A known SC can always update its record; a new one is refused exactly when the list is full; success clears;
     a single-attempt report stores nothing. A failing deletion is only logged, the other store errors are answered.
     */
    method RDSMR(subscriber: Lookup, r: Report, db: Database) returns (answer: RdsAnswer)
      requires Valid()
      modifies this`mwd, this`st
      ensures Valid()
      ensures subscriber == Unknown ==> answer == UserUnknown && mwd == old(mwd)
      ensures subscriber == LookupFailed ==> answer == UnableToComply && mwd == old(mwd)
      ensures subscriber.Found? ==>
                var key := Key(subscriber.imsi, r.sc);
                if r.delivery.cause == 2
                then answer == Done(None) && mwd == if db.deletes then old(mwd) - {key} else old(mwd)
                else if r.rdrFlags & 0x01 != 0 then answer == Done(None) && mwd == old(mwd)
                else if !db.lists then answer == UnableToComply && mwd == old(mwd)
                else if key !in old(mwd) && |Of(old(mwd), subscriber.imsi)| >= 10
                then answer == ListIsFull && mwd == old(mwd)
                else if !db.stores then answer == UnableToComply && mwd == old(mwd)
                else
                  && answer.Done? && answer.status.Some?
                  && ReportTaken(old(mwd), mwd, key, r, answer.status.value)
    {
      hide Reached, Sound, Stored, ReportTaken;
      if subscriber == Unknown {
        return UserUnknown;
      }
      if subscriber == LookupFailed {
        return UnableToComply;
      }
      var key := Key(subscriber.imsi, r.sc);
      if r.delivery.cause == SUCCESSFUL_TRANSFER {
        if db.deletes {
          RemovedSound(mwd, key);
          st := ClearIsRun(mwd, pending, st, key);
          mwd := mwd - {key};
        }
        return Done(None);
      }
      if r.rdrFlags & 0x01 != 0 {
        return Done(None);
      }
      if !db.lists {
        return UnableToComply;
      }
      var records := RecordsOf(subscriber.imsi);
      var reject := ShouldReject(records, r.sc);
      assert reject == ListFull(mwd, key) by {
        if key in mwd {
          assert key in records;
        }
      }
      if reject {
        return ListIsFull;
      }
      st := ReportIsRun(mwd, pending, st, key, RecordOf(r), db.stores);
      if !db.stores {
        return UnableToComply;
      }
      StoredSound(mwd, key, RecordOf(r));
      StoredReportTaken(mwd, key, r);
      mwd := Stored(mwd, key, RecordOf(r));
      return Done(Some(ReasonOf(r.delivery.cause)));
    }

    /**
     sendALRForIMSI; read tells whether the subscriber and its records could be read. Exactly the records that match the
     trigger and whose SC can be written to get one ALR and a registered session, and one attempt more where the
     metadata update succeeds; no record is lost and no reason changes. The sessions are clock readings.
     */
    method SendALR(imsi: string, read: bool, trigger: Trigger, connected: set<string>, written: Key -> bool,
                   saved: Key -> bool, clock: nat -> Sid)
      returns (alrs: seq<Alr>)
      requires Valid()
      modifies this
      ensures Valid()
      ensures pending == RegisterAll(old(pending), alrs)
      ensures forall i {:trigger alrs[i]} :: 0 <= i < |alrs| ==> alrs[i].sid == clock(i)
      ensures forall i, j :: 0 <= i < j < |alrs| ==> alrs[i].key != alrs[j].key
      ensures forall sid :: sid in pending <==> sid in old(pending) || Uses(alrs, sid)
      ensures forall sid :: sid in old(pending) && !Uses(alrs, sid) ==> pending[sid] == old(pending)[sid]
      ensures forall i: nat :: IsLast(alrs, i) ==>
                alrs[i].sid in pending && pending[alrs[i].sid] == alrs[i].key
      ensures mwd.Keys == old(mwd).Keys
      ensures forall key :: Sent(alrs, key) <==>
                && read && key in old(mwd) && key.imsi == imsi && TriggerMatches(trigger, old(mwd)[key].flags)
                && old(mwd)[key].host in connected && written(key)
      ensures forall key :: key in mwd ==>
                if Sent(alrs, key) && saved(key) then Attempted(old(mwd)[key], mwd[key], trigger)
                else mwd[key] == old(mwd)[key]
    {
      hide Reached, Attempted;
      AlertsKeepReasons(trigger);
      alrs := [];
      if read {
        var records := RecordsOf(imsi);
        alrs := AlertRecords(records, imsi, trigger, connected, written, saved, clock);
        RoundDone(old(mwd), mwd, alrs, records, imsi, trigger, connected, written, saved);
        SameKeysSound(old(mwd), mwd);
      }
      forall sid
        ensures sid in pending <==> sid in old(pending) || Uses(alrs, sid)
        ensures sid in old(pending) && !Uses(alrs, sid) ==> pending[sid] == old(pending)[sid]
        ensures forall i: nat :: IsLast(alrs, i) && alrs[i].sid == sid ==> sid in pending && pending[sid] == alrs[i].key
      {
        RegisteredAt(old(pending), alrs, sid);
      }
    }

    /** The loop of sendALRForIMSI over the records it read. */
    method AlertRecords(records: seq<Key>, imsi: string, trigger: Trigger, connected: set<string>, written: Key -> bool,
                        saved: Key -> bool, clock: nat -> Sid)
      returns (alrs: seq<Alr>)
      requires forall key :: key in records ==> key in mwd && key.imsi == imsi
      requires forall i, j :: 0 <= i < j < |records| ==> records[i] != records[j]
      requires Reached(mwd, pending, st)
      modifies this
      ensures Reached(mwd, pending, st)
      ensures Round(old(mwd), mwd, alrs, records, imsi, trigger, connected, written, saved)
      ensures pending == RegisterAll(old(pending), alrs)
      ensures forall i {:trigger alrs[i]} :: 0 <= i < |alrs| ==> alrs[i].sid == clock(i)
    {
      hide Round, Stored, Alerted, RegisterAll, Reached;
      alrs := [];
      RegistersNone(pending);
      ghost var before := mwd;
      RoundStarts(before, imsi, trigger, connected, written, saved);
      for i := 0 to |records|
        invariant Round(before, mwd, alrs, records[..i], imsi, trigger, connected, written, saved)
        invariant pending == RegisterAll(old(pending), alrs) && Reached(mwd, pending, st)
        invariant forall j {:trigger alrs[j]} :: 0 <= j < |alrs| ==> alrs[j].sid == clock(j)
      {
        var key := records[i];
        RoundUntouched(before, mwd, alrs, records[..i], imsi, trigger, connected, written, saved, key);
        assert records[..i + 1] == records[..i] + [key];
        var record := mwd[key];
        if TriggerMatches(trigger, record.flags) && record.host in connected && written(key) {
          var sid := clock(|alrs|);
          RoundSends(before, mwd, alrs, records[..i], imsi, trigger, connected, written, saved, key, sid);
          Registers(old(pending), pending, alrs, Alr(sid, key));
          st := AlertIsRun(mwd, pending, st, key, trigger, sid, saved(key));
          if saved(key) {
            mwd := Stored(mwd, key, Alerted(record, trigger));
          }
          alrs := alrs + [Alr(sid, key)];
          pending := pending[sid := key];
        } else {
          RoundSkips(before, mwd, alrs, records[..i], imsi, trigger, connected, written, saved, key);
        }
      }
      assert records[..|records|] == records;
    }

    /** ALA: only a 2001 for a registered session deletes, if the store does, and only that session's record. */
    method ALA(sid: Option<Sid>, code: Option<nat>, deletes: bool)
      requires Valid()
      modifies this
      ensures Valid()
      ensures pending == if sid.Some? then old(pending) - {sid.value} else old(pending)
      ensures mwd == if sid.Some? && sid.value in old(pending) && code == Some(2001) && deletes
                     then old(mwd) - {old(pending)[sid.value]} else old(mwd)
    {
      hide Reached, Sound;
      if sid.None? {
        return;
      }
      if sid.value !in pending {
        assert pending - {sid.value} == pending;
        return;
      }
      st := AlaIsRun(mwd, pending, st, sid.value, code, deletes);
      var key := pending[sid.value];
      pending := pending - {sid.value};
      if code.None? || code.value != SUCCESS {
        return;
      }
      if deletes {
        RemovedSound(mwd, key);
        mwd := mwd - {key};
      }
    }
  }
}

/**
 The life of one AUC record's SQN under any interleaving of S6a, EAP-AKA, 5G-AKA and GSUP requests and GeoRed merges
 (internal/crypto/auth.go, internal/crypto/5gaka.go, internal/diameter/s6a/air.go, internal/gsup/handlers.go). Each
 store access of a request is one step; reads that may be served by the AUC cache can return any value stored so far.
 */
module SqnRuns {
  import opened Arith
  import opened Bytes

  const TWO_TO_63: int := 0x8000_0000_0000_0000
  const TWO_TO_64: int := 0x1_0000_0000_0000_0000
  const TWO_TO_43: int := 0x800_0000_0000

  /** Go's int64 arithmetic. */
  function Wrap64(n: int): (w: int)
    ensures -TWO_TO_63 <= w < TWO_TO_63
    ensures -TWO_TO_63 <= n < TWO_TO_63 ==> w == n
  {
    (n + TWO_TO_63) % TWO_TO_64 - TWO_TO_63
  }

  lemma WrapStep(n: int, d: int)
    ensures Wrap64(Wrap64(n) + d) == Wrap64(n + d)
  {
    var k := (n + TWO_TO_63) / TWO_TO_64;
    assert Wrap64(n) == n - k * TWO_TO_64;
    ModShift(n + d + TWO_TO_63, k, TWO_TO_64);
  }

  // ---------------------------------------------------------------- the machine

  /** A resynchronising request carries the SQN that ResyncSQNFull recovered from its AUTS. */
  datatype Request = S6a(requested: nat, resync: Option<nat>) | Gsup(requested: nat) | EapAka
                   | FiveG(resync: Option<nat>)
  {
    predicate Valid() {
      S6a? || FiveG? ==> resync.Some? ==> resync.value < TWO_TO_48
    }
  }

  /** At least one vector, at most five. */
  function Clamp(requested: nat): nat {
    if requested == 0 then 1 else if requested > 5 then 5 else requested
  }

  function Count(req: Request): nat {
    match req
    case S6a(n, _) => Clamp(n)
    case Gsup(n) => Clamp(n)
    case EapAka => 1
    case FiveG(_) => 1
  }

  function ResyncOf(req: Request): Option<nat> {
    if req.S6a? || req.FiveG? then req.resync else None
  }

  /** left counts the vectors whose SQN is still to be reserved. */
  datatype Phase = Reading | Rewriting | Reloading | Reserving(left: nat) | Publishing | Finished

  datatype Thread = Thread(req: Request, phase: Phase, seen: int)

  /** Who made the last ResyncSQN write. */
  datatype Origin = Provisioned | ByS6a(ms: nat) | By5G(ms: nat) | ByGeored

  /**
   stored is the column; issued lists the SQNs reserved for vectors since the last ResyncSQN write, which left base;
   past holds every value the column has had, and events the SQNs published to peers.
   */
  datatype State = State(stored: int, base: int, origin: Origin, issued: seq<int>, past: set<int>,
                         threads: map<nat, Thread>, events: set<int>)

  datatype Step =
    | Begin(t: nat, req: Request) | Read(t: nat, v: int) | Write(t: nat) | Reload(t: nat, v: int) | Reserve(t: nat)
    | Publish(t: nat) | Abandon(t: nat) | MergeIn(v: int)

  function Initial(sqn: int): State {
    State(sqn, sqn, Provisioned, [], {sqn}, map[], {})
  }

  predicate In(s: State, t: nat, phase: Phase) {
    t in s.threads && s.threads[t].phase == phase
  }

  predicate Enabled(s: State, step: Step) {
    match step
    case Begin(t, req) => t !in s.threads && req.Valid()
    case Read(t, v) => In(s, t, Reading) && v in s.past
    case Write(t) => In(s, t, Rewriting) && ResyncOf(s.threads[t].req).Some?
    // The S6a path reloads by IMSI, possibly from the cache; the 5G path reads the row itself.
    case Reload(t, v) => In(s, t, Reloading) && v in s.past && (s.threads[t].req.FiveG? ==> v == s.stored)
    case Reserve(t) => t in s.threads && s.threads[t].phase.Reserving? && s.threads[t].phase.left > 0
    case Publish(t) => In(s, t, Publishing)
    case Abandon(t) => t in s.threads
    case MergeIn(v) => v > s.stored && -TWO_TO_63 <= v < TWO_TO_63
  }

  /** The SQNs of a block of n vectors reserved at v. */
  function SqnBlock(v: int, n: nat): (b: seq<int>)
    ensures |b| == n
  {
    seq(n, k => Wrap64(v + 32 * k))
  }

  /** AtomicGetAndIncrementSQN for n vectors. */
  function Reserved(s: State, n: nat): State {
    var after := Wrap64(s.stored + 32 * n);
    s.(stored := after, issued := s.issued + SqnBlock(s.stored, n), past := s.past + {after})
  }

  /** ResyncSQN. */
  function Rewritten(s: State, v: int, origin: Origin): State {
    s.(stored := v, base := v, origin := origin, issued := [], past := s.past + {v})
  }

  function Moved(s: State, t: nat, thread: Thread): State {
    s.(threads := s.threads[t := thread])
  }

  /** An S6a request reserves all its vectors at once, the others one at a time; GSUP publishes after its last. */
  function AfterReserve(th: Thread): Thread
    requires th.phase.Reserving? && th.phase.left > 0
  {
    match th.req
    case S6a(_, _) => th.(phase := Publishing)
    case Gsup(_) => th.(phase := if th.phase.left == 1 then Publishing else Reserving(th.phase.left - 1))
    case _ => th.(phase := Finished)
  }

  function Grab(th: Thread): nat {
    if th.req.S6a? then Count(th.req) else 1
  }

  /** The value ResyncSQN is given, and its provenance: S6a adds 100, the 5G path adds nothing. */
  function ResyncValue(req: Request): int
    requires ResyncOf(req).Some?
  {
    if req.S6a? then req.resync.value + 100 else req.resync.value
  }

  function ResyncOrigin(req: Request): Origin
    requires ResyncOf(req).Some?
  {
    if req.S6a? then ByS6a(req.resync.value) else By5G(req.resync.value)
  }

  function Apply(s: State, step: Step): State
    requires Enabled(s, step)
  {
    match step
    case Begin(t, req) => Moved(s, t, Thread(req, Reading, 0))
    case Read(t, v) =>
      var th := s.threads[t];
      Moved(s, t, th.(seen := v, phase := if ResyncOf(th.req).Some? then Rewriting else Reserving(Count(th.req))))
    case Write(t) =>
      var th := s.threads[t];
      Moved(Rewritten(s, ResyncValue(th.req), ResyncOrigin(th.req)), t, th.(phase := Reloading))
    case Reload(t, v) => Moved(s, t, s.threads[t].(seen := v, phase := Reserving(Count(s.threads[t].req))))
    case Reserve(t) => Moved(Reserved(s, Grab(s.threads[t])), t, AfterReserve(s.threads[t]))
    case Publish(t) =>
      var th := s.threads[t];
      Moved(s.(events := s.events + {Wrap64(th.seen + 32 * Count(th.req))}), t, th.(phase := Finished))
    case Abandon(t) => Moved(s, t, s.threads[t].(phase := Finished))
    case MergeIn(v) => Rewritten(s, v, ByGeored)
  }

  datatype Outcome = Stuck | At(state: State)

  function Run(s: State, steps: seq<Step>): Outcome
    decreases |steps|
  {
    if steps == [] then At(s)
    else if !Enabled(s, steps[0]) then Stuck
    else Run(Apply(s, steps[0]), steps[1..])
  }

  ghost predicate Reachable(s: State) {
    exists sqn: int, steps :: -TWO_TO_63 <= sqn < TWO_TO_63 && Run(Initial(sqn), steps) == At(s)
  }

  // ---------------------------------------------------------------- the SQNs between two writes

  /** The k-th SQN reserved since the last write is exactly 32k above it, in int64 arithmetic. */
  predicate Spaced(s: State) {
    && (forall k {:trigger s.issued[k]} :: 0 <= k < |s.issued| ==> s.issued[k] == Wrap64(s.base + 32 * k))
    && s.stored == Wrap64(s.base + 32 * |s.issued|)
  }

  predicate OriginKnown(s: State) {
    match s.origin
    case ByS6a(ms) => ms < TWO_TO_48 && s.base == ms + 100
    case By5G(ms) => ms < TWO_TO_48 && s.base == ms
    case _ => true
  }

  predicate Requests(s: State) {
    forall t :: t in s.threads ==> s.threads[t].req.Valid()
  }

  predicate Inv(s: State) {
    Spaced(s) && OriginKnown(s) && Requests(s)
  }

  lemma BlockSpaced(base: int, done: nat, n: nat, k: nat)
    requires k < n
    ensures SqnBlock(Wrap64(base + 32 * done), n)[k] == Wrap64(base + 32 * (done + k))
  {
    WrapStep(base + 32 * done, 32 * k);
  }

  lemma ReservedSpaced(s: State, n: nat)
    requires Spaced(s)
    ensures Spaced(Reserved(s, n))
  {
    hide Wrap64;
    var r := Reserved(s, n);
    forall k | 0 <= k < |r.issued|
      ensures r.issued[k] == Wrap64(s.base + 32 * k)
    {
      if k >= |s.issued| {
        BlockSpaced(s.base, |s.issued|, n, k - |s.issued|);
      }
    }
    WrapStep(s.base + 32 * |s.issued|, 32 * n);
  }

  lemma MovedInv(s: State, t: nat, th: Thread)
    requires Inv(s) && th.req.Valid()
    ensures Inv(Moved(s, t, th))
  {
  }

  lemma RewrittenInv(s: State, v: int, origin: Origin)
    requires Inv(s) && -TWO_TO_63 <= v < TWO_TO_63
    requires OriginKnown(s.(base := v, origin := origin))
    ensures Inv(Rewritten(s, v, origin))
  {
  }

  lemma ReservedInv(s: State, n: nat)
    requires Inv(s)
    ensures Inv(Reserved(s, n))
  {
    ReservedSpaced(s, n);
  }

  lemma StepInv(s: State, step: Step)
    requires Inv(s) && Enabled(s, step)
    ensures Inv(Apply(s, step))
  {
    match step
    case Begin(t, req) => MovedInv(s, t, Thread(req, Reading, 0));
    case Read(t, v) =>
      var th := s.threads[t];
      MovedInv(s, t, th.(seen := v, phase := if ResyncOf(th.req).Some? then Rewriting else Reserving(Count(th.req))));
    case Write(t) =>
      var th := s.threads[t];
      RewrittenInv(s, ResyncValue(th.req), ResyncOrigin(th.req));
      MovedInv(Rewritten(s, ResyncValue(th.req), ResyncOrigin(th.req)), t, th.(phase := Reloading));
    case Reserve(t) =>
      ReservedInv(s, Grab(s.threads[t]));
      MovedInv(Reserved(s, Grab(s.threads[t])), t, AfterReserve(s.threads[t]));
    case MergeIn(v) => RewrittenInv(s, v, ByGeored);
    case Reload(t, v) => MovedInv(s, t, s.threads[t].(seen := v, phase := Reserving(Count(s.threads[t].req))));
    case Abandon(t) => MovedInv(s, t, s.threads[t].(phase := Finished));
    case Publish(t) =>
      var th := s.threads[t];
      MovedInv(s.(events := s.events + {Wrap64(th.seen + 32 * Count(th.req))}), t, th.(phase := Finished));
  }

  lemma {:induction false} RunInv(s: State, steps: seq<Step>)
    requires Inv(s)
    ensures Run(s, steps).At? ==> Inv(Run(s, steps).state)
    decreases |steps|
  {
    if steps != [] && Enabled(s, steps[0]) {
      StepInv(s, steps[0]);
      RunInv(Apply(s, steps[0]), steps[1..]);
    }
  }

  lemma ReachableInv(s: State)
    requires Reachable(s)
    ensures Inv(s)
  {
    var sqn: int, steps :| -TWO_TO_63 <= sqn < TWO_TO_63 && Run(Initial(sqn), steps) == At(s);
    assert Inv(Initial(sqn));
    RunInv(Initial(sqn), steps);
  }

  /** What a vector carries: the low 48 bits. */
  function Wire(sqn: int): int {
    sqn % TWO_TO_48
  }

  lemma WireOfWrap(n: int)
    ensures Wire(Wrap64(n)) == Wire(n)
  {
    var k := (n + TWO_TO_63) / TWO_TO_64;
    assert Wrap64(n) == n - k * TWO_TO_64 == n - (k * 0x1_0000) * TWO_TO_48;
    ModShift(n, k * 0x1_0000, TWO_TO_48);
  }

  lemma SameResidue(a: int, b: int, m: int)
    requires m > 0
    ensures a % m == b % m <==> (a - b) % m == 0
  {
    var q := a / m - b / m;
    assert a - b == m * q + (a % m - b % m) by {
      assert m * (a / m - b / m) == m * (a / m) - m * (b / m);
    }
    if a % m >= b % m {
      DivModUnique(a - b, m, q, a % m - b % m);
    } else {
      assert a - b == m * (q - 1) + (m + a % m - b % m);
      DivModUnique(a - b, m, q - 1, m + a % m - b % m);
    }
  }

  lemma Times32(d: int)
    ensures (32 * d) % TWO_TO_48 == 0 <==> d % TWO_TO_43 == 0
  {
    var q, r := d / TWO_TO_43, d % TWO_TO_43;
    assert 32 * d == TWO_TO_48 * q + 32 * r;
    DivModUnique(32 * d, TWO_TO_48, q, 32 * r);
  }

  /**
   Freshness: of the vectors between two ResyncSQN writes, two carry the same SQN exactly when they lie a multiple
   of 2^43 reservations apart, so any 2^43 consecutive ones are pairwise distinct, whoever asked for them.
   */
  lemma WireSqnsRepeatOnlyAfter2To43(s: State, j: nat, k: nat)
    requires Reachable(s) && j < |s.issued| && k < |s.issued|
    ensures Wire(s.issued[j]) == Wire(s.issued[k]) <==> (j - k) % TWO_TO_43 == 0
  {
    ReachableInv(s);
    WireOfWrap(s.base + 32 * j);
    WireOfWrap(s.base + 32 * k);
    SameResidue(s.base + 32 * j, s.base + 32 * k, TWO_TO_48);
    assert (s.base + 32 * j) - (s.base + 32 * k) == 32 * (j - k);
    Times32(j - k);
  }

  /** In reservation order the SQNs rise in steps of exactly 32, up to the end of the int64 range. */
  lemma StepsOf32(s: State, k: nat)
    requires Reachable(s) && k + 1 < |s.issued|
    ensures s.issued[k + 1] == Wrap64(s.issued[k] + 32)
    ensures s.issued[k] < TWO_TO_63 - 32 <==> s.issued[k] < s.issued[k + 1]
  {
    ReachableInv(s);
    WrapStep(s.base + 32 * k, 32);
  }

  /**
   On the wire an SQN d above ms exceeds ms exactly when d is no multiple of 2^48 and ms does not overflow 48 bits by
   its remainder; otherwise it repeats ms or falls below.
   */
  lemma WireAbove(ms: nat, d: nat)
    requires ms < TWO_TO_48
    ensures var r := d % TWO_TO_48;
            && Wire(ms + d) == (if ms + r < TWO_TO_48 then ms + r else ms + r - TWO_TO_48)
            && (Wire(ms + d) > ms <==> r > 0 && ms + r < TWO_TO_48)
            && (Wire(ms + d) == ms + d <==> ms + d < TWO_TO_48)
  {
    var q, r := d / TWO_TO_48, d % TWO_TO_48;
    assert ms + d == TWO_TO_48 * q + (ms + r);
    if ms + r < TWO_TO_48 {
      DivModUnique(ms + d, TWO_TO_48, q, ms + r);
    } else {
      DivModUnique(ms + d, TWO_TO_48, q + 1, ms + r - TWO_TO_48);
    }
  }

  /**
   After an S6a resynchronisation, whatever else runs, the k-th SQN of the column is SQN_MS + 100 + 32k up to the end of
   int64. The vector carries that number exactly while it fits 48 bits, and exceeds SQN_MS exactly while its distance,
   modulo 2^48, does not carry SQN_MS over 2^48; a first vector above SQN_MS thus takes SQN_MS + 100 < 2^48.
   */
  lemma S6aResyncClearsMs(s: State, k: nat)
    requires Reachable(s) && s.origin.ByS6a? && k < |s.issued|
    ensures var ms, d := s.origin.ms, 100 + 32 * k;
            && ms < TWO_TO_48
            && (s.issued[k] == ms + d <==> ms + d < TWO_TO_63)
            && (Wire(s.issued[k]) == ms + d <==> ms + d < TWO_TO_48)
            && (Wire(s.issued[k]) > ms <==> ms + d % TWO_TO_48 < TWO_TO_48)
            && (Wire(s.issued[k]) >= ms + 100 <==> ms + d % TWO_TO_48 < TWO_TO_48 && d % TWO_TO_48 >= 100)
  {
    ReachableInv(s);
    var ms, d := s.origin.ms, 100 + 32 * k;
    assert s.issued[k] == Wrap64(ms + d);
    WireOfWrap(ms + d);
    WireAbove(ms, d);
    NoMultiple(k);
  }

  lemma NoMultiple(k: nat)
    ensures (100 + 32 * k) % TWO_TO_48 != 0
  {
    assert (100 + 32 * k) % 32 == 4;
  }

  /**
   After a 5G resynchronisation the first vector repeats SQN_MS itself, and so does every 2^43rd after it; a later one
   exceeds SQN_MS exactly while its distance does not carry SQN_MS over 2^48.
   */
  lemma FiveGResyncFirstIsStale(s: State, k: nat)
    requires Reachable(s) && s.origin.By5G? && k < |s.issued|
    ensures var ms, d := s.origin.ms, 32 * k;
            && ms < TWO_TO_48
            && (s.issued[k] == ms + d <==> ms + d < TWO_TO_63)
            && (ms + d < TWO_TO_63 ==> (s.issued[k] > ms <==> k > 0))
            && (Wire(s.issued[k]) == ms + d <==> ms + d < TWO_TO_48)
            && (Wire(s.issued[k]) == ms <==> k % TWO_TO_43 == 0)
            && (Wire(s.issued[k]) > ms <==> k % TWO_TO_43 != 0 && ms + d % TWO_TO_48 < TWO_TO_48)
  {
    ReachableInv(s);
    var ms, d := s.origin.ms, 32 * k;
    assert s.issued[k] == Wrap64(ms + d);
    WireOfWrap(ms + d);
    WireAbove(ms, d);
    Times32(k);
  }

  lemma {:induction false} RunSnoc(s: State, steps: seq<Step>, step: Step)
    requires Run(s, steps).At? && Enabled(Run(s, steps).state, step)
    ensures Run(s, steps + [step]) == At(Apply(Run(s, steps).state, step))
    decreases |steps|
  {
    hide Apply, Enabled;
    if steps == [] {
      assert [] + [step] == [step] && [step][1..] == [];
    } else {
      RunSnoc(Apply(s, steps[0]), steps[1..], step);
      assert (steps + [step])[1..] == steps[1..] + [step];
    }
  }

  lemma Next(s: State, step: Step) returns (t: State)
    requires Reachable(s) && Enabled(s, step)
    ensures Reachable(t) && t == Apply(s, step)
  {
    hide Apply, Enabled;
    t := Apply(s, step);
    var sqn: int, steps :| -TWO_TO_63 <= sqn < TWO_TO_63 && Run(Initial(sqn), steps) == At(s);
    RunSnoc(Initial(sqn), steps, step);
  }

  /** A record that a request with this resynchronisation value has just rewritten, the request about to reserve. */
  lemma JustResynced(sqn: int, req: Request) returns (s: State)
    requires 0 <= sqn < TWO_TO_63 && req.Valid() && ResyncOf(req).Some?
    ensures Reachable(s) && s.stored == ResyncValue(req) && s.origin == ResyncOrigin(req) && s.issued == []
    ensures sqn in s.past && s.threads == map[0 := Thread(req, Reserving(Count(req)), s.stored)]
    ensures s.base == s.stored
  {
    s := Initial(sqn);
    assert Run(s, []) == At(s);
    s := Next(s, Begin(0, req));
    s := Next(s, Read(0, sqn));
    s := Next(s, Write(0));
    s := Next(s, Reload(0, ResyncValue(req)));
  }

  /** The S6a condition can fail: any SQN_MS within 100 of 2^48 makes the first vector fall below it. */
  lemma S6aResyncCanFallBelow(ms: nat) returns (s: State)
    requires TWO_TO_48 - 100 <= ms < TWO_TO_48
    ensures Reachable(s) && s.origin == ByS6a(ms) && |s.issued| == 1 && Wire(s.issued[0]) == ms + 100 - TWO_TO_48 < ms
  {
    s := JustResynced(0, S6a(1, Some(ms)));
    s := Next(s, Reserve(0));
    assert s.issued == [Wrap64(ms + 100)];
    WireAbove(ms, 100);
  }

  /** So can the 5G one, at its second vector, for any SQN_MS within 32 of 2^48. */
  lemma FiveGResyncCanFallBelow(ms: nat) returns (s: State)
    requires TWO_TO_48 - 32 <= ms < TWO_TO_48
    ensures Reachable(s) && s.origin == By5G(ms) && |s.issued| == 2 && Wire(s.issued[1]) == ms + 32 - TWO_TO_48 < ms
  {
    s := JustResynced(0, FiveG(Some(ms)));
    s := Next(s, Reserve(0));
    assert s.issued == [Wrap64(ms)];
    s := OneMore(s, 1);
    assert s.issued[1] == Wrap64(Wrap64(ms + 32));
    WireAbove(ms, 32);
  }

  /** An undisturbed EAP-AKA request. */
  lemma OneMore(s: State, t: nat) returns (u: State)
    requires Reachable(s) && t !in s.threads && s.stored in s.past
    ensures Reachable(u) && u.origin == s.origin && u.issued == s.issued + [Wrap64(s.stored)]
  {
    u := Next(s, Begin(t, EapAka));
    u := Next(u, Read(t, s.stored));
    u := Next(u, Reserve(t));
    assert SqnBlock(s.stored, 1) == [Wrap64(s.stored)];
  }

  lemma FreshThread(threads: map<nat, Thread>) returns (t: nat)
    ensures t !in threads
  {
    t := AboveAll(threads.Keys);
  }

  lemma {:induction false} AboveAll(keys: set<nat>) returns (t: nat)
    ensures forall k :: k in keys ==> k < t
    decreases |keys|
  {
    if keys == {} {
      t := 0;
    } else {
      var k: nat :| k in keys;
      var u := AboveAll(keys - {k});
      t := if k < u then u else k + 1;
      assert forall j :: j in keys ==> j == k || j in keys - {k};
    }
  }

  lemma WrapDiffers(a: int, b: int)
    requires a < b < a + TWO_TO_64
    ensures Wrap64(a) != Wrap64(b)
  {
    SameResidue(a + TWO_TO_63, b + TWO_TO_63, TWO_TO_64);
  }

  predicate Overlap(a: seq<int>, b: seq<int>) {
    exists x :: x in a && x in b
  }

  /**
   Everything here takes AtomicGetAndIncrementSQN to return the record before the add. Were it the one after, a block of
   n vectors and the next one of m would share an SQN exactly when the second is smaller.
   */
  lemma BlocksFromAfterOverlap(v: int, n: nat, m: nat)
    requires 1 <= n <= 5 && 1 <= m <= 5
    ensures Overlap(SqnBlock(v + 32 * n, n), SqnBlock(v + 32 * n + 32 * m, m)) <==> m < n
  {
    hide Wrap64;
    var first, second := SqnBlock(v + 32 * n, n), SqnBlock(v + 32 * n + 32 * m, m);
    if m < n {
      assert first[m] == second[0];
      assert first[m] in first && second[0] in second;
    } else if x :| x in first && x in second {
      var j: nat, k: nat :| j < n && k < m && first[j] == x && second[k] == x;
      WrapDiffers(v + 32 * n + 32 * j, v + 32 * n + 32 * m + 32 * k);
      assert false;
    }
  }
}

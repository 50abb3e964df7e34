/**
 Vector generation and resynchronisation as one request runs them: internal/crypto/auth.go, the resync path of
 internal/crypto/5gaka.go, and the SQN part of AIR in internal/diameter/s6a/air.go and handleAIR in
 internal/gsup/handlers.go. RAND is a parameter, and so is the Milenage library used when a record has no profile.
 */
module Auth {
  import opened Arith
  import opened Bytes
  import opened Milenage
  import opened KdfStrings
  import opened Vectors
  import SqnRequests
  import SqnRuns
  import Text
  import Gsup
  import Tbcd
  import GeoredMerge

  datatype Auc = Auc(id: int, ki: string, opc: string, amf: string, sqn: int)

  /** A stored algorithm profile: c constants in hex, rotations in bits. */
  datatype RawProfile = RawProfile(c1: string, c2: string, c3: string, c4: string, c5: string,
                                   r1: nat, r2: nat, r3: nat, r4: nat, r5: nat)

  /** The fixed-size arrays the library returns. */
  type Quintuplet = v: EapAkaVector | Gsup.WellSized(v)
    witness EapAkaVector(seq(16, _ => 0), seq(8, _ => 0), seq(16, _ => 0), seq(16, _ => 0), seq(16, _ => 0))

  /** The emakeev/milenage library: a vector for Ki, OPc, AMF, SQN, PLMN and RAND, a quintuplet, and a resync. */
  datatype Library = Library(eutran: (Bytes, Bytes, Bytes, nat, Bytes, Block) -> Result<EutranVector>,
                             sip: (Bytes, Bytes, Bytes, nat, Block) -> Result<Quintuplet>,
                             resync: (Bytes, Bytes, Bytes, Bytes) -> Result<nat>)

  // ---------------------------------------------------------------- decoding the record

  function HexBlock(s: string): Option<Block> {
    match Text.DecodeHex(s)
    case None => None
    case Some(b) => if |b| == 16 then Some(b) else None
  }

  function ProfileOf(p: RawProfile): (r: Option<Profile>)
    ensures r.Some? ==> r.value.Valid()
  {
    match (HexBlock(p.c1), HexBlock(p.c2), HexBlock(p.c3), HexBlock(p.c4), HexBlock(p.c5))
    case (Some(c1), Some(c2), Some(c3), Some(c4), Some(c5)) =>
      if p.r1 % 8 != 0 || p.r2 % 8 != 0 || p.r3 % 8 != 0 || p.r4 % 8 != 0 || p.r5 % 8 != 0 then None
      else Some(Profile(c1, c2, c3, c4, c5, p.r1 / 8 % 16, p.r2 / 8 % 16, p.r3 / 8 % 16, p.r4 / 8 % 16, p.r5 / 8 % 16))
    case _ => None
  }

  /** decodeProfile refuses rotations that are not whole bytes; the others it turns into the rotation they mean. */
  lemma ProfileRotates(p: RawProfile)
    ensures ProfileOf(p).Some? ==>
              forall x: Block, y: Block ::
                && (IsBitRotation(x, p.r1 % 128, y) <==> y == Rot(x, ProfileOf(p).value.r1))
                && (IsBitRotation(x, p.r2 % 128, y) <==> y == Rot(x, ProfileOf(p).value.r2))
                && (IsBitRotation(x, p.r3 % 128, y) <==> y == Rot(x, ProfileOf(p).value.r3))
                && (IsBitRotation(x, p.r4 % 128, y) <==> y == Rot(x, ProfileOf(p).value.r4))
                && (IsBitRotation(x, p.r5 % 128, y) <==> y == Rot(x, ProfileOf(p).value.r5))
    ensures ProfileOf(p).Some? ==> p.r1 % 8 == p.r2 % 8 == p.r3 % 8 == p.r4 % 8 == p.r5 % 8 == 0
  {
    hide Text.DecodeHex, IsBitRotation, Rot;
    if ProfileOf(p).Some? {
      ByteRotation(p.r1);
      ByteRotation(p.r2);
      ByteRotation(p.r3);
      ByteRotation(p.r4);
      ByteRotation(p.r5);
    }
  }

  /** A decoded record: Ki, OPc and AMF, of whatever length the hex has. */
  datatype Keys = Keys(ki: Bytes, opc: Bytes, amf: Bytes)

  function KeysOf(auc: Auc): Option<Keys> {
    match (Text.DecodeHex(auc.ki), Text.DecodeHex(auc.opc), Text.DecodeHex(auc.amf))
    case (Some(ki), Some(opc), Some(amf)) => Some(Keys(ki, opc, amf))
    case _ => None
  }

  /** The record holds these keys in hex. */
  predicate Spells(auc: Auc, ki: Bytes, opc: Bytes, amf: Bytes) {
    auc.ki == Text.EncodeHex(ki) && auc.opc == Text.EncodeHex(opc) && auc.amf == Text.EncodeHex(amf)
  }

  /** The stored profile holds p: constants in hex, rotations in bits. */
  predicate SpellsProfile(raw: RawProfile, p: Profile) {
    && raw.c1 == Text.EncodeHex(p.c1) && raw.c2 == Text.EncodeHex(p.c2) && raw.c3 == Text.EncodeHex(p.c3)
    && raw.c4 == Text.EncodeHex(p.c4) && raw.c5 == Text.EncodeHex(p.c5)
    && raw.r1 == 8 * p.r1 && raw.r2 == 8 * p.r2 && raw.r3 == 8 * p.r3 && raw.r4 == 8 * p.r4 && raw.r5 == 8 * p.r5
  }

  /** Record and profile were provisioned for the USIM u, with this AMF. */
  predicate IssuedFor(auc: Auc, raw: Option<RawProfile>, u: Usim, amf: Bytes) {
    && Spells(auc, u.k, u.opc, amf) && |amf| == 2
    && raw.Some? && SpellsProfile(raw.value, u.profile) && u.profile.Valid()
  }

  lemma SpelledKeys(auc: Auc, ki: Bytes, opc: Bytes, amf: Bytes)
    requires Spells(auc, ki, opc, amf)
    ensures KeysOf(auc) == Some(Keys(ki, opc, amf))
    ensures Text.DecodeHex(auc.ki) == Some(ki) && Text.DecodeHex(auc.opc) == Some(opc)
    ensures Text.DecodeHex(auc.amf) == Some(amf)
  {
    Text.DecodeOfEncodeHex(ki);
    Text.DecodeOfEncodeHex(opc);
    Text.DecodeOfEncodeHex(amf);
  }

  lemma SpelledProfile(raw: RawProfile, p: Profile)
    requires SpellsProfile(raw, p) && p.Valid()
    ensures ProfileOf(raw) == Some(p)
  {
    hide Text.DecodeHex, Text.EncodeHex;
    Text.DecodeOfEncodeHex(p.c1);
    Text.DecodeOfEncodeHex(p.c2);
    Text.DecodeOfEncodeHex(p.c3);
    Text.DecodeOfEncodeHex(p.c4);
    Text.DecodeOfEncodeHex(p.c5);
  }

  /** uint64(int64). */
  function Unsigned64(n: int): nat {
    n % SqnRuns.TWO_TO_64
  }

  /** The SQN of vector i of a block reserved at before. */
  function VectorSqn(before: int, i: nat): nat {
    Unsigned64(SqnRuns.Wrap64(before + 32 * i))
  }

  lemma UnsignedWire(x: int)
    ensures Unsigned64(x) % TWO_TO_48 == SqnRuns.Wire(x)
  {
    var k := x / SqnRuns.TWO_TO_64;
    assert Unsigned64(x) == x - (k * 0x1_0000) * TWO_TO_48;
    ModShift(x, k * 0x1_0000, TWO_TO_48);
  }

  /** The six bytes of an SQN are what SqnRuns takes a vector to carry. */
  lemma CarriedIsWire(x: int, y: int)
    ensures BeInt(Bytes48(Unsigned64(x))) == SqnRuns.Wire(x)
    ensures Bytes48(Unsigned64(x)) == Bytes48(Unsigned64(y)) <==> SqnRuns.Wire(x) == SqnRuns.Wire(y)
  {
    hide Bytes48, BeInt, Unsigned64;
    Bytes48Carry(Unsigned64(x), Unsigned64(y));
    UnsignedWire(x);
    UnsignedWire(y);
  }

  /**
   The AUTNs of two vectors made between the same two ResyncSQN writes carry the same SQN bytes exactly when the vectors
   are a multiple of 2^43 reservations apart.
   */
  lemma CarriedRepeatOnlyAfter2To43(s: SqnRuns.State, j: nat, k: nat)
    requires SqnRuns.Reachable(s) && j < |s.issued| && k < |s.issued|
    ensures Bytes48(Unsigned64(s.issued[j])) == Bytes48(Unsigned64(s.issued[k])) <==> (j - k) % SqnRuns.TWO_TO_43 == 0
  {
    hide Bytes48, BeInt, Unsigned64;
    CarriedIsWire(s.issued[j], s.issued[k]);
    SqnRuns.WireSqnsRepeatOnlyAfter2To43(s, j, k);
  }

  /** In uint64 the SQN of vector i is 32 i past the first. */
  lemma VectorSqnIs(before: int, i: nat)
    ensures VectorSqn(before, i) == (before + 32 * i) % 0x1_0000_0000_0000_0000
  {
    var n := before + 32 * i;
    var k := (n + SqnRuns.TWO_TO_63) / SqnRuns.TWO_TO_64;
    assert SqnRuns.Wrap64(n) == n - k * SqnRuns.TWO_TO_64;
    ModShift(n, k, SqnRuns.TWO_TO_64);
  }

  // ---------------------------------------------------------------- the store

  /** The SQN column of the AUC table. */
  class Store {
    var sqns: map<int, int>

    constructor (sqns: map<int, int>)
      ensures this.sqns == sqns
    {
      this.sqns := sqns;
    }

    method AtomicGetAndIncrementSQN(id: int, delta: int) returns (before: Result<int>)
      modifies this
      ensures before == if id in old(sqns) then Ok(old(sqns)[id]) else Err
      ensures sqns == if id in old(sqns) then old(sqns)[id := SqnRuns.Wrap64(old(sqns)[id] + delta)] else old(sqns)
    {
      if id !in sqns {
        return Err;
      }
      before := Ok(sqns[id]);
      sqns := sqns[id := SqnRuns.Wrap64(before.value + delta)];
    }

    method ResyncSQN(id: int, sqn: int) returns (ok: bool)
      modifies this
      ensures ok == (id in old(sqns))
      ensures sqns == if ok then old(sqns)[id := sqn] else old(sqns)
    {
      ok := id in sqns;
      if ok {
        sqns := sqns[id := sqn];
      }
    }
  }

  /** The column after n vectors were reserved for id. */
  function Advanced(sqns: map<int, int>, id: int, n: nat): map<int, int> {
    if id in sqns then sqns[id := SqnRuns.Wrap64(sqns[id] + 32 * n)] else sqns
  }

  /** An SQN event changes the column exactly when the SQN machine can merge it, and then does what the machine does. */
  lemma MergeIsStep(s: SqnRuns.State, sqns: map<int, int>, id: int, v: int)
    requires id in sqns && s.stored == sqns[id] && -SqnRuns.TWO_TO_63 <= v < SqnRuns.TWO_TO_63
    ensures var after := GeoredMerge.Merge(sqns, GeoredMerge.Entry(id, v));
            && (after != sqns <==> SqnRuns.Enabled(s, SqnRuns.MergeIn(v)))
            && (after != sqns ==> after == sqns[id := SqnRuns.Apply(s, SqnRuns.MergeIn(v)).stored])
  {
    if v > sqns[id] {
      assert sqns[id := v][id] != sqns[id];
    }
  }

  // ---------------------------------------------------------------- vectors

  /** What one E-UTRAN vector at an SQN is: accepted by the subscriber's USIM, or exactly what the library returns. */
  ghost predicate EutranAt(E: Cipher, H: Hmac, lib: Library, k: Keys, p: Option<Profile>, plmn: Bytes, sqn: nat,
                           rand: Block, v: EutranVector) {
    match p
    case Some(pc) =>
      |k.ki| == 16 && |k.opc| == 16 && v.rand == rand && PassesEutran(E, H, Usim(k.ki, k.opc, pc), plmn, k.amf, sqn, v)
    case None => lib.eutran(k.ki, k.opc, k.amf, sqn, plmn, rand) == Ok(v)
  }

  ghost predicate EapAkaAt(E: Cipher, lib: Library, k: Keys, p: Option<Profile>, sqn: nat, rand: Block,
                           v: EapAkaVector) {
    match p
    case Some(pc) =>
      |k.ki| == 16 && |k.opc| == 16 && v.rand == rand && PassesEapAka(E, Usim(k.ki, k.opc, pc), k.amf, sqn, v)
    case None => lib.sip(k.ki, k.opc, k.amf, sqn, rand) == Ok(v)
  }

  /** Decoding of an optional profile: outer None for one that cannot be decoded. */
  function Decoded(raw: Option<RawProfile>): Option<Option<Profile>> {
    match raw
    case None => Some(None)
    case Some(p) => match ProfileOf(p) case None => None case Some(pc) => Some(Some(pc))
  }

  predicate SixteenSixteenTwo(k: Keys) {
    |k.ki| == 16 && |k.opc| == 16 && |k.amf| == 2
  }

  /** vs are n E-UTRAN vectors with SQNs first, first + 32, and so on, for the record holding keys. */
  ghost predicate EutranBlock(E: Cipher, H: Hmac, lib: Library, keys: Option<Keys>, raw: Option<RawProfile>,
                              plmn: Bytes, first: int, n: nat, rand: nat -> Block, vs: seq<EutranVector>) {
    && keys.Some? && |plmn| == 3 && Decoded(raw).Some? && |vs| == n
    && forall i :: 0 <= i < n ==>
         EutranAt(E, H, lib, keys.value, Decoded(raw).value, plmn, VectorSqn(first, i), rand(i), vs[i])
  }

  /**
   vs suit the USIM that the record and profile were issued for: it accepts each one, made for the next SQN, and derives
   the same keys. Without a profile they are what the library makes of the record's keys, in their order.
   */
  ghost predicate EutranSuits(E: Cipher, H: Hmac, lib: Library, auc: Auc, raw: Option<RawProfile>, plmn: Bytes,
                              first: int, rand: nat -> Block, vs: seq<EutranVector>) {
    && (forall u: Usim, amf: Bytes :: IssuedFor(auc, raw, u, amf) ==>
          forall i :: 0 <= i < |vs| ==>
            && vs[i].rand == rand(i)
            && PassesEutran(E, H, u, plmn, amf, (first + 32 * i) % 0x1_0000_0000_0000_0000, vs[i]))
    && (forall ki: Bytes, opc: Bytes, amf: Bytes :: raw.None? && Spells(auc, ki, opc, amf) ==>
          forall i :: 0 <= i < |vs| ==>
            lib.eutran(ki, opc, amf, (first + 32 * i) % 0x1_0000_0000_0000_0000, plmn, rand(i)) == Ok(vs[i]))
  }

  lemma BlockSuits(E: Cipher, H: Hmac, lib: Library, auc: Auc, raw: Option<RawProfile>, plmn: Bytes, first: int,
                   n: nat, rand: nat -> Block, vs: seq<EutranVector>)
    requires EutranBlock(E, H, lib, KeysOf(auc), raw, plmn, first, n, rand, vs)
    ensures EutranSuits(E, H, lib, auc, raw, plmn, first, rand, vs) && |vs| == n
  {
    hide KeysOf, ProfileOf, Spells, SpellsProfile, VectorSqn, PassesEutran;
    forall u: Usim, amf: Bytes, i: nat | IssuedFor(auc, raw, u, amf) && i < n
      ensures vs[i].rand == rand(i)
      ensures PassesEutran(E, H, u, plmn, amf, (first + 32 * i) % 0x1_0000_0000_0000_0000, vs[i])
    {
      SpelledKeys(auc, u.k, u.opc, amf);
      SpelledProfile(raw.value, u.profile);
      VectorSqnIs(first, i);
      assert EutranAt(E, H, lib, KeysOf(auc).value, Decoded(raw).value, plmn, VectorSqn(first, i), rand(i), vs[i]);
    }
    forall ki: Bytes, opc: Bytes, amf: Bytes, i: nat | raw.None? && Spells(auc, ki, opc, amf) && i < n
      ensures lib.eutran(ki, opc, amf, (first + 32 * i) % 0x1_0000_0000_0000_0000, plmn, rand(i)) == Ok(vs[i])
    {
      SpelledKeys(auc, ki, opc, amf);
      VectorSqnIs(first, i);
      assert EutranAt(E, H, lib, KeysOf(auc).value, Decoded(raw).value, plmn, VectorSqn(first, i), rand(i), vs[i]);
    }
  }

  /** The same for one quintuplet. */
  ghost predicate EapAkaSuits(E: Cipher, lib: Library, auc: Auc, raw: Option<RawProfile>, sqn: nat, rand: Block,
                              v: EapAkaVector) {
    && (forall u: Usim, amf: Bytes :: IssuedFor(auc, raw, u, amf) ==>
          v.rand == rand && PassesEapAka(E, u, amf, sqn, v))
    && (forall ki: Bytes, opc: Bytes, amf: Bytes :: raw.None? && Spells(auc, ki, opc, amf) ==>
          lib.sip(ki, opc, amf, sqn, rand) == Ok(v))
  }

  lemma QuintupletSuits(E: Cipher, lib: Library, auc: Auc, raw: Option<RawProfile>, sqn: nat, rand: Block,
                        v: EapAkaVector)
    requires KeysOf(auc).Some? && Decoded(raw).Some?
    requires EapAkaAt(E, lib, KeysOf(auc).value, Decoded(raw).value, sqn, rand, v)
    ensures EapAkaSuits(E, lib, auc, raw, sqn, rand, v)
  {
    hide KeysOf, ProfileOf, Spells, SpellsProfile, PassesEapAka;
    forall u: Usim, amf: Bytes | IssuedFor(auc, raw, u, amf)
      ensures v.rand == rand && PassesEapAka(E, u, amf, sqn, v)
    {
      SpelledKeys(auc, u.k, u.opc, amf);
      SpelledProfile(raw.value, u.profile);
    }
    forall ki: Bytes, opc: Bytes, amf: Bytes | raw.None? && Spells(auc, ki, opc, amf)
      ensures lib.sip(ki, opc, amf, sqn, rand) == Ok(v)
    {
      SpelledKeys(auc, ki, opc, amf);
    }
  }

  /** A record with its own profile for which generation cannot fail. */
  predicate WellProvisioned(auc: Auc, raw: Option<RawProfile>) {
    KeysOf(auc).Some? && SixteenSixteenTwo(KeysOf(auc).value) && raw.Some? && ProfileOf(raw.value).Some?
  }

  method EutranVectorAt(E: Cipher, H: Hmac, lib: Library, k: Keys, p: Option<Profile>, plmn: Bytes, sqn: nat,
                        rand: Block)
    returns (r: Result<EutranVector>)
    requires |plmn| == 3 && (p.Some? ==> p.value.Valid())
    ensures r.Ok? ==> EutranAt(E, H, lib, k, p, plmn, sqn, rand, r.value)
    ensures p.Some? ==> (r.Ok? <==> SixteenSixteenTwo(k))
    ensures p.None? ==> r == lib.eutran(k.ki, k.opc, k.amf, sqn, plmn, rand)
  {
    match p
    case Some(pc) => r := GenerateEUTRANVectorCustom(E, H, k.ki, k.opc, k.amf, sqn, plmn, pc, rand);
    case None => r := lib.eutran(k.ki, k.opc, k.amf, sqn, plmn, rand);
  }

  /** The inputs GenerateEUTRANVectors checks before it touches the SQN. */
  predicate Asked(auc: Auc, plmn: Bytes) {
    KeysOf(auc).Some? && |plmn| == 3
  }

  /**
   The block of n vectors: vector i is made for exactly the SQN before + 32 i, and once the inputs decode the record
   advances by 32 n, even when generating a vector then fails.
   */
  method GenerateEUTRANVectors(E: Cipher, H: Hmac, lib: Library, auc: Auc, raw: Option<RawProfile>, plmn: Bytes, n: nat,
                               store: Store, rand: nat -> Block)
    returns (r: Result<seq<EutranVector>>)
    modifies store
    ensures store.sqns == if Asked(auc, plmn) then Advanced(old(store.sqns), auc.id, n) else old(store.sqns)
    ensures r.Ok? ==>
              && auc.id in old(store.sqns)
              && EutranBlock(E, H, lib, KeysOf(auc), raw, plmn, old(store.sqns)[auc.id], n, rand, r.value)
    ensures |plmn| == 3 && auc.id in old(store.sqns) && WellProvisioned(auc, raw) ==> r.Ok?
    ensures r.Ok? ==>
              |r.value| == n && EutranSuits(E, H, lib, auc, raw, plmn, old(store.sqns)[auc.id], rand, r.value)
  {
    hide Text.DecodeHex, ProfileOf, EutranAt, EutranSuits;
    var keys := KeysOf(auc);
    if keys.None? || |plmn| != 3 {
      return Err;
    }
    var before := store.AtomicGetAndIncrementSQN(auc.id, n * 32);
    if before.Err? {
      return Err;
    }
    var profile := Decoded(raw);
    if profile.None? {
      return Err;
    }
    var vectors := [];
    for i := 0 to n
      invariant store.sqns == Advanced(old(store.sqns), auc.id, n)
      invariant |vectors| == i
      invariant forall j :: 0 <= j < i ==>
                  EutranAt(E, H, lib, keys.value, profile.value, plmn, VectorSqn(before.value, j), rand(j), vectors[j])
    {
      var v := EutranVectorAt(E, H, lib, keys.value, profile.value, plmn, VectorSqn(before.value, i), rand(i));
      if v.Err? {
        return Err;
      }
      vectors := vectors + [v.value];
    }
    BlockSuits(E, H, lib, auc, raw, plmn, before.value, n, rand, vectors);
    return Ok(vectors);
  }

  /** One quintuplet, made for exactly the SQN the record held before. */
  method GenerateEAPAKAVector(E: Cipher, lib: Library, auc: Auc, raw: Option<RawProfile>, store: Store, rand: Block)
    returns (r: Result<EapAkaVector>)
    modifies store
    ensures store.sqns == if KeysOf(auc).Some? then Advanced(old(store.sqns), auc.id, 1) else old(store.sqns)
    ensures r.Ok? ==>
              && KeysOf(auc).Some? && auc.id in old(store.sqns) && Decoded(raw).Some?
              && EapAkaAt(E, lib, KeysOf(auc).value, Decoded(raw).value, Unsigned64(old(store.sqns)[auc.id]), rand,
                          r.value)
    ensures r.Ok? ==> Gsup.WellSized(r.value)
    ensures r.Ok? ==>
              EapAkaSuits(E, lib, auc, raw, old(store.sqns)[auc.id] % 0x1_0000_0000_0000_0000, rand, r.value)
    ensures auc.id in old(store.sqns) && WellProvisioned(auc, raw) ==> r.Ok?
  {
    hide EapAkaSuits;
    var keys := KeysOf(auc);
    if keys.None? {
      return Err;
    }
    var before := store.AtomicGetAndIncrementSQN(auc.id, 32);
    if before.Err? {
      return Err;
    }
    var sqn := Unsigned64(before.value);
    var k := keys.value;
    match raw {
      case Some(p) =>
        var pc := ProfileOf(p);
        if pc.None? {
          return Err;
        }
        r := GenerateEAPAKAVectorCustom(E, k.ki, k.opc, k.amf, sqn, pc.value, rand);
      case None =>
        r := lib.sip(k.ki, k.opc, k.amf, sqn, rand);
    }
    if r.Ok? {
      QuintupletSuits(E, lib, auc, raw, sqn, rand, r.value);
    }
  }

  // ---------------------------------------------------------------- resynchronisation

  /** info is a challenge and the AUTS with which the USIM holding ki, opc and SQN ms answers it. */
  ghost predicate UsimReports(E: Cipher, ki: Bytes, opc: Bytes, pc: Profile, info: Bytes, ms: nat) {
    |info| == 30 && ms < TWO_TO_48 && info[16..] == Usim(Copy16(ki), Copy16(opc), pc).Auts(E, info[..16], ms)
  }

  /** The same for the USIM of an AUC record with a profile. */
  ghost predicate Reports(E: Cipher, auc: Auc, raw: RawProfile, info: Bytes, ms: nat) {
    match (Text.DecodeHex(auc.ki), Text.DecodeHex(auc.opc), ProfileOf(raw))
    case (Some(ki), Some(opc), Some(pc)) => UsimReports(E, ki, opc, pc, info, ms)
    case _ => false
  }

  ghost predicate ReportsSome(E: Cipher, auc: Auc, raw: RawProfile, info: Bytes) {
    exists ms: nat :: Reports(E, auc, raw, info, ms)
  }

  /** info is a challenge and the AUTS that the USIM u at SQN ms answers it with. */
  ghost predicate AutsOf(E: Cipher, u: Usim, info: Bytes, ms: nat) {
    |info| == 30 && ms < TWO_TO_48 && info[16..] == u.Auts(E, info[..16], ms)
  }

  /** Some SQN makes u send this AUTS. */
  ghost predicate SentBy(E: Cipher, u: Usim, info: Bytes) {
    exists ms: nat :: AutsOf(E, u, info, ms)
  }

  /** What the record's USIM reports is what the USIM it was issued for sends. */
  lemma ReportsOfIssued(E: Cipher, auc: Auc, raw: Option<RawProfile>, info: Bytes)
    ensures forall u: Usim, amf: Bytes :: IssuedFor(auc, raw, u, amf) ==>
              && WellProvisioned(auc, raw)
              && (ReportsSome(E, auc, raw.value, info) <==> SentBy(E, u, info))
              && forall ms: nat :: Reports(E, auc, raw.value, info, ms) <==> AutsOf(E, u, info, ms)
  {
    hide ProfileOf, Spells, SpellsProfile, Text.DecodeHex;
    forall u: Usim, amf: Bytes | IssuedFor(auc, raw, u, amf)
      ensures WellProvisioned(auc, raw)
      ensures forall ms: nat :: Reports(E, auc, raw.value, info, ms) <==> AutsOf(E, u, info, ms)
      ensures ReportsSome(E, auc, raw.value, info) <==> SentBy(E, u, info)
    {
      SpelledKeys(auc, u.k, u.opc, amf);
      SpelledProfile(raw.value, u.profile);
      assert Copy16(u.k) == u.k && Copy16(u.opc) == u.opc;
      forall ms: nat
        ensures Reports(E, auc, raw.value, info, ms) <==> AutsOf(E, u, info, ms)
      {
      }
      if SentBy(E, u, info) {
        var ms: nat :| AutsOf(E, u, info, ms);
        assert Reports(E, auc, raw.value, info, ms);
      }
    }
  }

  /** Without a profile, what the library recovers from AUTS, keys and challenge, in its order of arguments. */
  ghost predicate LibraryRecovers(lib: Library, auc: Auc, info: Bytes, r: Result<int>) {
    forall ki: Bytes, opc: Bytes, amf: Bytes :: |info| == 30 && Spells(auc, ki, opc, amf) ==>
      r == match lib.resync(info[16..], ki, opc, info[..16]) case Err => Err case Ok(n) => Ok(SqnRuns.Wrap64(n))
  }

  /** With a profile, exactly the SQN the USIM reports, and an error for anything else. */
  method ResyncSQNFull(E: Cipher, lib: Library, auc: Auc, raw: Option<RawProfile>, info: Bytes) returns (r: Result<int>)
    ensures r.Ok? ==> |info| == 30
    ensures raw.Some? && r.Ok? ==> 0 <= r.value < TWO_TO_48 && Reports(E, auc, raw.value, info, r.value)
    ensures raw.Some? ==> forall ms: nat :: Reports(E, auc, raw.value, info, ms) ==> r == Ok(ms)
    ensures raw.None? ==> LibraryRecovers(lib, auc, info, r)
    ensures forall u: Usim, amf: Bytes :: IssuedFor(auc, raw, u, amf) ==>
              && (r.Ok? <==> SentBy(E, u, info))
              && (r.Ok? ==> 0 <= r.value < TWO_TO_48 && AutsOf(E, u, info, r.value))
  {
    hide ProfileOf, Spells, IssuedFor, Text.DecodeHex;
    ReportsOfIssued(E, auc, raw, info);
    forall ki: Bytes, opc: Bytes, amf: Bytes | Spells(auc, ki, opc, amf)
      ensures Text.DecodeHex(auc.ki) == Some(ki) && Text.DecodeHex(auc.opc) == Some(opc)
      ensures Text.DecodeHex(auc.amf) == Some(amf)
    {
      SpelledKeys(auc, ki, opc, amf);
    }
    if |info| != 30 {
      return Err;
    }
    var ki := Text.DecodeHex(auc.ki);
    if ki.None? {
      return Err;
    }
    var opc := Text.DecodeHex(auc.opc);
    if opc.None? {
      return Err;
    }
    if raw.Some? {
      var pc := ProfileOf(raw.value);
      if pc.None? {
        return Err;
      }
      var sqn := ResyncCustom(E, ki.value, opc.value, info, pc.value);
      return if sqn.Ok? then Ok(sqn.value) else Err;
    }
    var amf := Text.DecodeHex(auc.amf);
    if amf.None? {
      return Err;
    }
    var sqn := lib.resync(info[16..], ki.value, opc.value, info[..16]);
    return if sqn.Ok? then Ok(SqnRuns.Wrap64(sqn.value)) else Err;
  }

  /** The Requested-EUTRAN-Authentication-Info of an AIR. */
  datatype EutranRequest = EutranRequest(requested: nat, resyncInfo: Bytes)

  function VectorCount(request: Option<EutranRequest>): nat {
    if request.Some? then SqnRuns.Clamp(request.value.requested) else 1
  }

  /** numVectors of AIR: one when nothing usable was requested, never more than five. */
  method NumVectors(request: Option<EutranRequest>) returns (n: nat)
    ensures n == VectorCount(request)
    ensures n == if request.None? || request.value.requested == 0 then 1
                 else if request.value.requested > 5 then 5 else request.value.requested
  {
    n := 1;
    if request.Some? && request.value.requested > 0 {
      n := request.value.requested;
      if n > 5 {
        n := 5;
      }
    }
  }

  lemma CountIs(request: Option<EutranRequest>)
    ensures VectorCount(request) == if request.None? || request.value.requested == 0 then 1
                                    else if request.value.requested > 5 then 5 else request.value.requested
  {
  }

  predicate Resyncing(request: Option<EutranRequest>) {
    request.Some? && |request.value.resyncInfo| == 30
  }

  /** What a resynchronisation recovers: with a profile, the SQN the USIM reports and nothing otherwise. */
  ghost predicate Recovers(E: Cipher, auc: Auc, raw: Option<RawProfile>, info: Bytes, recovered: Option<int>) {
    raw.Some? ==>
      && (recovered.Some? ==> 0 <= recovered.value < TWO_TO_48 && Reports(E, auc, raw.value, info, recovered.value))
      && (forall ms: nat :: Reports(E, auc, raw.value, info, ms) ==> recovered == Some(ms))
  }

  /** The column after a resynchronisation with this margin. */
  function Resynced(sqns: map<int, int>, id: int, recovered: Option<int>, margin: nat): map<int, int> {
    if recovered.Some? && id in sqns then sqns[id := SqnRuns.Wrap64(recovered.value + margin)] else sqns
  }

  /**
   Resynchronise and read the record again: it jumps to the recovered SQN plus the margin, which is 100 for S6a and
   nothing for 5G. reloads says whether the record can be read after the write; if not, the column stays written.
   */
  method ResyncRecord(E: Cipher, lib: Library, store: Store, cached: Auc, raw: Option<RawProfile>, info: Bytes,
                      margin: nat, reloads: bool)
    returns (r: Result<Auc>, ghost recovered: Option<int>)
    requires margin <= 100
    modifies store
    ensures Recovers(E, cached, raw, info, recovered)
    ensures store.sqns == Resynced(old(store.sqns), cached.id, recovered, margin)
    ensures r == if recovered.Some? && cached.id in old(store.sqns) && reloads
                 then Ok(cached.(sqn := store.sqns[cached.id])) else Err
    ensures raw.Some? && recovered.Some? && cached.id in old(store.sqns) ==>
              store.sqns[cached.id] == recovered.value + margin
  {
    hide Reports;
    recovered := None;
    var newSqn := ResyncSQNFull(E, lib, cached, raw, info);
    if newSqn.Err? {
      return Err, None;
    }
    recovered := Some(newSqn.value);
    var written := store.ResyncSQN(cached.id, SqnRuns.Wrap64(newSqn.value + margin));
    if !written || !reloads {
      return Err, recovered;
    }
    return Ok(cached.(sqn := store.sqns[cached.id])), recovered;
  }

  lemma SameKeys(auc: Auc, sqn: int)
    ensures KeysOf(auc.(sqn := sqn)) == KeysOf(auc)
  {
  }

  /** The rest of AIR: clamp the count, generate, and advertise the SQN the record is expected to hold now. */
  method AnswerAIR(E: Cipher, H: Hmac, lib: Library, store: Store, auc: Auc, raw: Option<RawProfile>,
                   request: Option<EutranRequest>, plmn: Bytes, rand: nat -> Block)
    returns (r: Result<seq<EutranVector>>, published: Option<GeoredMerge.Entry>)
    modifies store
    ensures r.Ok? ==>
              && auc.id in old(store.sqns)
              && EutranBlock(E, H, lib, KeysOf(auc), raw, plmn, old(store.sqns)[auc.id], VectorCount(request), rand,
                             r.value)
    ensures store.sqns == if Asked(auc, plmn) then Advanced(old(store.sqns), auc.id, VectorCount(request))
                          else old(store.sqns)
    ensures r.Ok? ==> Asked(auc, plmn)
    ensures published == if r.Err? then None
                         else Some(GeoredMerge.Entry(auc.id, SqnRuns.Wrap64(auc.sqn + 32 * VectorCount(request))))
    ensures |plmn| == 3 && auc.id in old(store.sqns) && WellProvisioned(auc, raw) ==> r.Ok?
  {
    hide EutranSuits, EutranAt, Text.DecodeHex, ProfileOf;
    var numVectors := NumVectors(request);
    if |plmn| != 3 {
      return Err, None;
    }
    r := GenerateEUTRANVectors(E, H, lib, auc, raw, plmn, numVectors, store, rand);
    published := None;
    if r.Ok? {
      published := Some(GeoredMerge.Entry(auc.id, SqnRuns.Wrap64(auc.sqn + 32 * numVectors)));
    }
  }

  lemma AdvancedFrom(sqns: map<int, int>, id: int, first: int, n: nat)
    ensures Advanced(sqns[id := first], id, n) == sqns[id := SqnRuns.Wrap64(first + 32 * n)]
    ensures 0 <= first < TWO_TO_48 ==> Unsigned64(first) == first
  {
  }

  lemma SameRecord(sqns: map<int, int>, id: int)
    requires id in sqns
    ensures sqns[id := sqns[id]] == sqns
  {
  }

  /** Where AIR starts from: the record as first read, or resynchronised when the request carries an AUTS. */
  method StartRecord(E: Cipher, lib: Library, store: Store, cached: Auc, raw: Option<RawProfile>,
                     request: Option<EutranRequest>, reloads: bool)
    returns (r: Result<Auc>, ghost recovered: Option<int>)
    modifies store
    ensures if Resyncing(request) then Recovers(E, cached, raw, request.value.resyncInfo, recovered)
            else recovered.None?
    ensures store.sqns == Resynced(old(store.sqns), cached.id, recovered, 100)
    ensures !Resyncing(request) ==> r == Ok(cached)
    ensures Resyncing(request) ==>
              r == if recovered.Some? && cached.id in old(store.sqns) && reloads
                   then Ok(cached.(sqn := store.sqns[cached.id])) else Err
    ensures raw.Some? && recovered.Some? && cached.id in old(store.sqns) ==>
              store.sqns[cached.id] == recovered.value + 100
  {
    hide Reports, Recovers;
    r, recovered := Ok(cached), None;
    if request.Some? && |request.value.resyncInfo| == 30 {
      r, recovered := ResyncRecord(E, lib, store, cached, raw, request.value.resyncInfo, 100, reloads);
    }
  }

  /** The machine state s describes the record's column, and the record as read is one it has been. */
  ghost predicate Tracks(s: SqnRuns.State, sqns: map<int, int>, auc: Auc) {
    SqnRuns.Reachable(s) && auc.id in sqns && s.stored == sqns[auc.id] && auc.sqn in s.past
  }

  /** From s a run leads to end, which holds this column, has these SQNs issued since, and these events. */
  ghost predicate RunsTo(s: SqnRuns.State, end: SqnRuns.State, stored: int, issued: seq<int>, events: set<int>) {
    && SqnRuns.Reachable(end) && SqnRequests.Leads(s, end)
    && end.stored == stored && end.issued == issued && end.events == s.events + events
  }

  function S6aRequest(request: Option<EutranRequest>, recovered: Option<int>): SqnRuns.Request
    requires recovered.Some? ==> 0 <= recovered.value
  {
    SqnRuns.S6a(if request.Some? then request.value.requested else 0,
                if recovered.Some? then Some(recovered.value) else None)
  }

  /** The column after an AIR that resynchronised with this result and then drew its vectors or not. */
  function AfterAir(sqns: map<int, int>, id: int, recovered: Option<int>, drew: bool, n: nat): map<int, int> {
    var written := Resynced(sqns, id, recovered, 100);
    if drew then Advanced(written, id, n) else written
  }

  /** An AIR as a run of the SQN machine: drew says whether it got as far as reserving, ok whether it answered. */
  lemma AirRuns(s: SqnRuns.State, sqns: map<int, int>, cached: Auc, request: Option<EutranRequest>,
                recovered: Option<int>, drew: bool, ok: bool)
    returns (end: SqnRuns.State)
    requires Tracks(s, sqns, cached) && (ok ==> drew)
    requires recovered.Some? ==> 0 <= recovered.value < TWO_TO_48
    ensures var n := VectorCount(request);
            && var first := if recovered.Some? then recovered.value + 100 else s.stored;
            && var inHand := if recovered.Some? then first else cached.sqn;
            RunsTo(s, end, Held(AfterAir(sqns, cached.id, recovered, drew, n), cached.id),
                   (if recovered.Some? then [] else s.issued) + (if drew then SqnRuns.SqnBlock(first, n) else []),
                   if ok then {SqnRuns.Wrap64(inHand + 32 * n)} else {})
    ensures end.issued == (if recovered.Some? then [] else s.issued)
                          + if drew then SqnRuns.SqnBlock(if recovered.Some? then recovered.value + 100 else s.stored,
                                                          VectorCount(request)) else []
  {
    hide SqnRuns.Reachable, SqnRequests.Leads, SqnRuns.Wrap64, SqnRuns.SqnBlock;
    var t := SqnRuns.FreshThread(s.threads);
    var p := if ok then SqnRequests.Answered else if drew then SqnRequests.Drew
             else if recovered.Some? then SqnRequests.Rewrote else SqnRequests.Refused;
    end := SqnRequests.Alone(s, t, S6aRequest(request, recovered), cached.sqn, p);
    SmallUnwrapped(recovered);
  }

  lemma SmallUnwrapped(recovered: Option<int>)
    requires recovered.Some? ==> 0 <= recovered.value < TWO_TO_48
    ensures recovered.Some? ==> SqnRuns.Wrap64(recovered.value + 100) == recovered.value + 100
  {
  }

  /**
   AIR after its subscriber checks; cached is the AUC record as first read. The reload after a resynchronisation
   sees the row just written, as nothing else runs here, unless it fails. first is the SQN the request starts from: the
   stored one, or after a resynchronisation the USIM's plus 100. Whatever the outcome, the request is a run of the SQN
   machine: column, reserved SQNs and event are those of its end state.
   */
  method AIR(E: Cipher, H: Hmac, lib: Library, store: Store, cached: Auc, raw: Option<RawProfile>,
             request: Option<EutranRequest>, plmn: Bytes, rand: nat -> Block, reloads: bool, ghost s: SqnRuns.State)
    returns (r: Result<seq<EutranVector>>, published: Option<GeoredMerge.Entry>, ghost first: int,
             ghost end: SqnRuns.State)
    modifies store
    ensures r.Ok? && !Resyncing(request) ==> cached.id in old(store.sqns) && first == old(store.sqns)[cached.id]
    ensures r.Ok? && Resyncing(request) && raw.Some? ==>
              first >= 100 && Reports(E, cached, raw.value, request.value.resyncInfo, first - 100)
    ensures r.Ok? <==> published.Some?
    ensures r.Ok? ==>
              && cached.id in old(store.sqns)
              && EutranBlock(E, H, lib, KeysOf(cached), raw, plmn, first, VectorCount(request), rand, r.value)
              && store.sqns == old(store.sqns)[cached.id := SqnRuns.Wrap64(first + 32 * VectorCount(request))]
    ensures r.Ok? && !Resyncing(request) ==>
              published == Some(GeoredMerge.Entry(cached.id, SqnRuns.Wrap64(cached.sqn + 32 * |r.value|)))
    ensures r.Ok? && (Resyncing(request) || cached.sqn == first) ==>
              published == Some(GeoredMerge.Entry(cached.id, store.sqns[cached.id]))
    ensures |plmn| == 3 && cached.id in old(store.sqns) && WellProvisioned(cached, raw) ==>
              (r.Ok? <==> (Resyncing(request) ==>
                             reloads && ReportsSome(E, cached, raw.value, request.value.resyncInfo)))
    ensures raw.Some? && Resyncing(request) && !ReportsSome(E, cached, raw.value, request.value.resyncInfo) ==>
              r.Err? && store.sqns == old(store.sqns)
    ensures Resyncing(request) && !reloads ==> r.Err?
    ensures r.Ok? ==> EutranSuits(E, H, lib, cached, raw, plmn, first, rand, r.value)
    ensures r.Ok? ==> |r.value| == if request.None? || request.value.requested == 0 then 1
                                   else if request.value.requested > 5 then 5 else request.value.requested
    ensures forall u: Usim, amf: Bytes :: IssuedFor(cached, raw, u, amf) && Resyncing(request) ==>
              && (r.Ok? ==> first >= 100 && AutsOf(E, u, request.value.resyncInfo, first - 100))
              && (|plmn| == 3 && cached.id in old(store.sqns) ==>
                    (r.Ok? <==> reloads && SentBy(E, u, request.value.resyncInfo)))
    ensures Tracks(s, old(store.sqns), cached) && (Resyncing(request) ==> raw.Some?) ==>
              && (r.Ok? ==> RunsTo(s, end, store.sqns[cached.id],
                                   (if Resyncing(request) then [] else s.issued)
                                   + SqnRuns.SqnBlock(first, VectorCount(request)), {published.value.sqn}))
              && (r.Err? ==> RunsTo(s, end, Held(store.sqns, cached.id), end.issued, {}))
  {
    hide EutranBlock, Reports, Text.DecodeHex, ProfileOf, RunsTo, EutranSuits, IssuedFor, AutsOf, SentBy;
    if Resyncing(request) {
      ReportsOfIssued(E, cached, raw, request.value.resyncInfo);
    }
    ghost var recovered: Option<int>;
    var start;
    start, recovered := StartRecord(E, lib, store, cached, raw, request, reloads);
    ghost var tracked := Tracks(s, old(store.sqns), cached) && (Resyncing(request) ==> raw.Some?);
    first, end := 0, s;
    if start.Err? {
      if tracked {
        end := AirRuns(s, old(store.sqns), cached, request, recovered, false, false);
      }
      return Err, None, first, end;
    }
    var auc := start.value;
    if cached.id in store.sqns {
      first := store.sqns[cached.id];
      SameRecord(store.sqns, cached.id);
      AdvancedFrom(old(store.sqns), cached.id, first, VectorCount(request));
    }
    SameKeys(cached, auc.sqn);
    r, published := AnswerAIR(E, H, lib, store, auc, raw, request, plmn, rand);
    if tracked {
      end := AirRuns(s, old(store.sqns), cached, request, recovered, Asked(cached, plmn), r.Ok?);
    }
    if r.Ok? {
      BlockSuits(E, H, lib, cached, raw, plmn, first, VectorCount(request), rand, r.value);
      CountIs(request);
    }
  }

  // ---------------------------------------------------------------- 5G-AKA

  datatype FiveGVector = FiveGVector(rand: Bytes, autn: Bytes, xresStar: Bytes, kausf: Bytes)

  /** The terminal accepts the vector at SQN sqn and derives the same KAUSF and XRES* from what its USIM returns. */
  ghost predicate Passes5G(E: Cipher, H: Hmac, u: Usim, snn: Bytes, amf: Bytes, sqn: nat, rand: Block, v: FiveGVector) {
    && v.rand == rand && |v.autn| == 16 && v.autn[6..8] == amf
    && match u.Authenticate(E, rand, v.autn)
       case None => false
       case Some(a) =>
         && a.sqn == Bytes48(sqn)
         && v.kausf == H(a.ck + a.ik, Kausf(snn, v.autn[..6]).Text())
         && v.xresStar == H(a.ck + a.ik, XresStar(snn, rand, a.res).Text())[16..]
  }

  ghost predicate FiveGAt(E: Cipher, H: Hmac, k: Keys, pc: Profile, snn: Bytes, sqn: nat, rand: Block, v: FiveGVector) {
    |k.ki| == 16 && |k.opc| == 16 && Passes5G(E, H, Usim(k.ki, k.opc, pc), snn, k.amf, sqn, rand, v)
  }

  /** The terminal of the USIM that the record and profile were issued for accepts v and derives the same keys. */
  ghost predicate FiveGSuits(E: Cipher, H: Hmac, auc: Auc, raw: Option<RawProfile>, snn: Bytes, sqn: nat, rand: Block,
                             v: FiveGVector) {
    forall u: Usim, amf: Bytes :: IssuedFor(auc, raw, u, amf) ==> Passes5G(E, H, u, snn, amf, sqn, rand, v)
  }

  lemma FiveGVectorSuits(E: Cipher, H: Hmac, auc: Auc, raw: Option<RawProfile>, snn: Bytes, sqn: nat, rand: Block,
                         v: FiveGVector)
    requires raw.Some? ==>
               && KeysOf(auc).Some? && ProfileOf(raw.value).Some?
               && FiveGAt(E, H, KeysOf(auc).value, ProfileOf(raw.value).value, snn, sqn, rand, v)
    ensures FiveGSuits(E, H, auc, raw, snn, sqn, rand, v)
  {
    hide KeysOf, ProfileOf, Spells, SpellsProfile, Passes5G;
    forall u: Usim, amf: Bytes | IssuedFor(auc, raw, u, amf)
      ensures Passes5G(E, H, u, snn, amf, sqn, rand, v)
    {
      SpelledKeys(auc, u.k, u.opc, amf);
      SpelledProfile(raw.value, u.profile);
    }
  }

  lemma SuitsReloaded(E: Cipher, H: Hmac, auc: Auc, raw: Option<RawProfile>, snn: Bytes, ms: int, rand: Block,
                      v: FiveGVector)
    requires FiveGSuits(E, H, auc.(sqn := ms), raw, snn, ms % 0x1_0000_0000_0000_0000, rand, v)
    ensures FiveGSuits(E, H, auc, raw, snn, ms % 0x1_0000_0000_0000_0000, rand, v)
  {
    hide Passes5G, SpellsProfile;
    forall u: Usim, amf: Bytes | IssuedFor(auc, raw, u, amf)
      ensures Passes5G(E, H, u, snn, amf, ms % 0x1_0000_0000_0000_0000, rand, v)
    {
      assert IssuedFor(auc.(sqn := ms), raw, u, amf);
    }
  }

  method Generate5GAKAVector(E: Cipher, H: Hmac, lib: Library, auc: Auc, raw: Option<RawProfile>, snn: Bytes,
                             store: Store, rand: Block)
    returns (r: Result<FiveGVector>)
    modifies store
    ensures store.sqns == if KeysOf(auc).Some? then Advanced(old(store.sqns), auc.id, 1) else old(store.sqns)
    ensures r.Ok? ==> KeysOf(auc).Some? && auc.id in old(store.sqns)
    ensures r.Ok? && raw.Some? ==>
              && ProfileOf(raw.value).Some?
              && FiveGAt(E, H, KeysOf(auc).value, ProfileOf(raw.value).value, snn, Unsigned64(old(store.sqns)[auc.id]),
                         rand, r.value)
    ensures r.Ok? ==>
              FiveGSuits(E, H, auc, raw, snn, old(store.sqns)[auc.id] % 0x1_0000_0000_0000_0000, rand, r.value)
    ensures auc.id in old(store.sqns) && WellProvisioned(auc, raw) ==> r.Ok?
  {
    hide EapAkaSuits, FiveGSuits;
    var b := GenerateEAPAKAVector(E, lib, auc, raw, store, rand);
    if b.Err? {
      return Err;
    }
    var v := b.value;
    var kausf, xresStar := Derive5GKeys(H, v.ck, v.ik, snn, v.autn, v.rand, v.xres);
    var vector := FiveGVector(v.rand, v.autn, xresStar, kausf);
    FiveGVectorSuits(E, H, auc, raw, snn, Unsigned64(old(store.sqns)[auc.id]), rand, vector);
    return Ok(vector);
  }

  /** A 5G resynchronisation as a run of the SQN machine: it wrote ms, and then drew its vector or not. */
  lemma FiveGRuns(s: SqnRuns.State, sqns: map<int, int>, auc: Auc, ms: nat, drew: bool)
    returns (end: SqnRuns.State)
    requires Tracks(s, sqns, auc) && ms < TWO_TO_48
    ensures RunsTo(s, end, if drew then SqnRuns.Wrap64(ms + 32) else ms, if drew then SqnRuns.SqnBlock(ms, 1) else [],
                   {})
  {
    hide SqnRuns.Reachable, SqnRequests.Leads, SqnRuns.Wrap64, SqnRuns.SqnBlock;
    var t := SqnRuns.FreshThread(s.threads);
    var p := if drew then SqnRequests.Drew else SqnRequests.Rewrote;
    end := SqnRequests.Alone(s, t, SqnRuns.FiveG(Some(ms)), auc.sqn, p);
  }

  /**
   The 5G resync writes the recovered SQN itself, so the vector it returns is made for exactly SQN_MS. Once it has
   written, it is a run of the SQN machine whatever its outcome.
   */
  method ResyncAnd5GAKAVector(E: Cipher, H: Hmac, lib: Library, auc: Auc, raw: Option<RawProfile>, snn: Bytes,
                              randBytes: Bytes, autsBytes: Bytes, store: Store, rand: Block, reloads: bool,
                              ghost s: SqnRuns.State)
    returns (r: Result<FiveGVector>, ghost ms: int, ghost end: SqnRuns.State)
    modifies store
    ensures r.Ok? ==> auc.id in old(store.sqns) && store.sqns == old(store.sqns)[auc.id := SqnRuns.Wrap64(ms + 32)]
    ensures r.Ok? && raw.Some? ==>
              && 0 <= ms < TWO_TO_48 && Reports(E, auc, raw.value, randBytes + autsBytes, ms)
              && KeysOf(auc).Some? && ProfileOf(raw.value).Some?
              && FiveGAt(E, H, KeysOf(auc).value, ProfileOf(raw.value).value, snn, ms, rand, r.value)
    ensures auc.id in old(store.sqns) && WellProvisioned(auc, raw) ==>
              (r.Ok? <==> reloads && ReportsSome(E, auc, raw.value, randBytes + autsBytes))
    ensures raw.Some? && !ReportsSome(E, auc, raw.value, randBytes + autsBytes) ==>
              r.Err? && store.sqns == old(store.sqns)
    ensures raw.Some? && Tracks(s, old(store.sqns), auc)
            && ReportsSome(E, auc, raw.value, randBytes + autsBytes) ==>
              && RunsTo(s, end, Held(store.sqns, auc.id), end.issued, {})
              && (r.Ok? ==> end.issued == [ms])
              && (!reloads ==> r.Err? && end.issued == [])
    ensures r.Ok? ==> FiveGSuits(E, H, auc, raw, snn, ms % 0x1_0000_0000_0000_0000, rand, r.value)
    ensures forall u: Usim, amf: Bytes :: IssuedFor(auc, raw, u, amf) ==>
              && (r.Ok? ==> ms >= 0 && AutsOf(E, u, randBytes + autsBytes, ms))
              && (auc.id in old(store.sqns) ==> (r.Ok? <==> reloads && SentBy(E, u, randBytes + autsBytes)))
  {
    hide Reports, Text.DecodeHex, ProfileOf, FiveGAt, FiveGSuits, IssuedFor, AutsOf, SentBy;
    ReportsOfIssued(E, auc, raw, randBytes + autsBytes);
    var reloaded;
    ghost var recovered: Option<int>;
    reloaded, recovered := ResyncRecord(E, lib, store, auc, raw, randBytes + autsBytes, 0, reloads);
    ghost var tracked := raw.Some? && Tracks(s, old(store.sqns), auc) && recovered.Some?;
    ms, end := 0, s;
    if reloaded.Err? {
      if tracked {
        end := FiveGRuns(s, old(store.sqns), auc, recovered.value, false);
      }
      return Err, ms, end;
    }
    ms := reloaded.value.sqn;
    SameKeys(auc, ms);
    AdvancedFrom(old(store.sqns), auc.id, ms, 1);
    r := Generate5GAKAVector(E, H, lib, reloaded.value, raw, snn, store, rand);
    if r.Ok? {
      SuitsReloaded(E, H, auc, raw, snn, ms, rand, r.value);
    }
    if tracked {
      end := FiveGRuns(s, old(store.sqns), auc, ms, KeysOf(auc).Some?);
    }
  }

  // ---------------------------------------------------------------- GSUP

  /** vs are n quintuplets with SQNs first, first + 32, and so on. */
  ghost predicate Quintuplets(E: Cipher, lib: Library, keys: Option<Keys>, raw: Option<RawProfile>, first: int, n: nat,
                              rand: nat -> Block, vs: seq<EapAkaVector>) {
    && |vs| == n
    && (n > 0 ==> keys.Some? && Decoded(raw).Some?)
    && forall i :: 0 <= i < n ==> EapAkaAt(E, lib, keys.value, Decoded(raw).value, VectorSqn(first, i), rand(i), vs[i])
  }

  lemma QuintupletsSuit(E: Cipher, lib: Library, auc: Auc, raw: Option<RawProfile>, first: int, n: nat,
                        rand: nat -> Block, vs: seq<EapAkaVector>)
    requires Quintuplets(E, lib, KeysOf(auc), raw, first, n, rand, vs)
    ensures |vs| == n
    ensures forall i :: 0 <= i < n ==>
              EapAkaSuits(E, lib, auc, raw, (first + 32 * i) % 0x1_0000_0000_0000_0000, rand(i), vs[i])
  {
    hide EapAkaAt, EapAkaSuits, VectorSqn, KeysOf, Decoded;
    forall i: nat | i < n
      ensures EapAkaSuits(E, lib, auc, raw, (first + 32 * i) % 0x1_0000_0000_0000_0000, rand(i), vs[i])
    {
      VectorSqnIs(first, i);
      QuintupletSuits(E, lib, auc, raw, VectorSqn(first, i), rand(i), vs[i]);
    }
  }

  lemma NoQuintuplets(E: Cipher, lib: Library, keys: Option<Keys>, raw: Option<RawProfile>, first: int,
                      rand: nat -> Block)
    ensures Quintuplets(E, lib, keys, raw, first, 0, rand, [])
  {
  }

  lemma QuintupletsSnoc(E: Cipher, lib: Library, keys: Option<Keys>, raw: Option<RawProfile>, first: int, n: nat,
                        rand: nat -> Block, vs: seq<EapAkaVector>, v: EapAkaVector)
    requires Quintuplets(E, lib, keys, raw, first, n, rand, vs) && keys.Some? && Decoded(raw).Some?
    requires EapAkaAt(E, lib, keys.value, Decoded(raw).value, VectorSqn(first, n), rand(n), v)
    ensures Quintuplets(E, lib, keys, raw, first, n + 1, rand, vs + [v])
  {
  }

  /** An int64 column value, or zero for a record that does not exist. */
  function Held(sqns: map<int, int>, id: int): int {
    if id in sqns then sqns[id] else 0
  }

  /** Reserving one at a time adds up to one reservation of the whole block. */
  lemma AdvancedOnceMore(sqns: map<int, int>, id: int, i: nat)
    requires -SqnRuns.TWO_TO_63 <= Held(sqns, id) < SqnRuns.TWO_TO_63
    ensures Advanced(Advanced(sqns, id, i), id, 1) == Advanced(sqns, id, i + 1)
    ensures Advanced(sqns, id, 0) == sqns && (id in Advanced(sqns, id, i) <==> id in sqns)
    ensures id in sqns ==> Unsigned64(Advanced(sqns, id, i)[id]) == VectorSqn(sqns[id], i)
  {
    SqnRuns.WrapStep(Held(sqns, id) + 32 * i, 32);
  }

  /** One round of the loop of handleAIR. */
  method AddTuple(E: Cipher, lib: Library, auc: Auc, raw: Option<RawProfile>, store: Store, rand: Block,
                  resp: Gsup.Builder)
    returns (r: Result<EapAkaVector>)
    requires resp.Valid()
    modifies store, resp
    ensures store.sqns == if KeysOf(auc).Some? then Advanced(old(store.sqns), auc.id, 1) else old(store.sqns)
    ensures r.Ok? ==>
              && KeysOf(auc).Some? && auc.id in old(store.sqns) && Decoded(raw).Some?
              && EapAkaAt(E, lib, KeysOf(auc).value, Decoded(raw).value, Unsigned64(old(store.sqns)[auc.id]), rand,
                          r.value)
              && Gsup.WellSized(r.value) && resp.Valid()
              && resp.msg == old(resp.msg).(ies := old(resp.msg).ies + [Gsup.TupleIE(r.value)])
    ensures auc.id in old(store.sqns) && WellProvisioned(auc, raw) ==> r.Ok?
  {
    r := GenerateEAPAKAVector(E, lib, auc, raw, store, rand);
    if r.Ok? {
      Gsup.AddVector(resp, r.value);
    }
  }

  lemma TuplesSnoc(imsi: string, vs: seq<EapAkaVector>, v: EapAkaVector)
    requires (forall x :: x in vs ==> Gsup.WellSized(x)) && Gsup.WellSized(v)
    ensures forall x :: x in vs + [v] ==> Gsup.WellSized(x)
    ensures Gsup.SendAuthInfoRes(imsi, vs + [v])
            == Gsup.SendAuthInfoRes(imsi, vs).(ies := Gsup.SendAuthInfoRes(imsi, vs).ies + [Gsup.TupleIE(v)])
  {
    assert Gsup.Tuples(vs + [v]) == Gsup.Tuples(vs) + [Gsup.TupleIE(v)];
  }

  /** A GSUP request for n vectors as a run of the SQN machine that drew k of them. */
  lemma GsupRuns(s: SqnRuns.State, sqns: map<int, int>, auc: Auc, n: nat, k: nat, ok: bool)
    returns (end: SqnRuns.State)
    requires Tracks(s, sqns, auc) && -SqnRuns.TWO_TO_63 <= Held(sqns, auc.id) < SqnRuns.TWO_TO_63
    requires 1 <= n <= 5 && k <= n && (ok ==> k == n)
    ensures RunsTo(s, end, Held(Advanced(sqns, auc.id, k), auc.id), s.issued + SqnRuns.SqnBlock(s.stored, k),
                   if ok then {SqnRuns.Wrap64(auc.sqn + 32 * n)} else {})
    ensures end.issued == s.issued + SqnRuns.SqnBlock(s.stored, k)
  {
    hide SqnRuns.Reachable, SqnRequests.Leads, SqnRuns.Wrap64, SqnRuns.SqnBlock;
    var t := SqnRuns.FreshThread(s.threads);
    end := SqnRequests.GsupAlone(s, t, n, auc.sqn, k, ok);
  }

  /**
   handleAIR after its lookups: as many quintuplets as asked for, each made for the next SQN, in one SendAuthInfo
   result, or an error, as when the record has disappeared since. What was reserved before an error stays reserved. The
   column is an int64. Whatever the outcome, the request is a run of the SQN machine.
   */
  method HandleAIR(E: Cipher, lib: Library, auc: Auc, raw: Option<RawProfile>, imsi: string, msg: Gsup.Msg,
                   store: Store, rand: nat -> Block, ghost s: SqnRuns.State)
    returns (r: Result<Bytes>, published: Option<GeoredMerge.Entry>, ghost vs: seq<EapAkaVector>,
             ghost end: SqnRuns.State)
    requires -SqnRuns.TWO_TO_63 <= Held(store.sqns, auc.id) < SqnRuns.TWO_TO_63
    modifies store
    ensures forall v :: v in vs ==> Gsup.WellSized(v)
    ensures r.Ok? ==>
              && auc.id in old(store.sqns) && 1 <= |vs| <= 5
              && Quintuplets(E, lib, KeysOf(auc), raw, old(store.sqns)[auc.id], |vs|, rand, vs)
              && r.value == Gsup.Encode(Gsup.SendAuthInfoRes(imsi, vs))
              && store.sqns == Advanced(old(store.sqns), auc.id, |vs|)
              && published == Some(GeoredMerge.Entry(auc.id, SqnRuns.Wrap64(auc.sqn + 32 * |vs|)))
    ensures r.Ok? ==>
              Gsup.Asks(msg, |vs|)
              && forall i :: 0 <= i < |vs| ==>
                   EapAkaSuits(E, lib, auc, raw, (old(store.sqns)[auc.id] + 32 * i) % 0x1_0000_0000_0000_0000, rand(i),
                               vs[i])
    ensures r.Err? ==> published == None && |vs| < 5
    ensures r.Err? ==> store.sqns in {Advanced(old(store.sqns), auc.id, |vs|),
                                      Advanced(old(store.sqns), auc.id, |vs| + 1)}
    ensures auc.id in old(store.sqns) && WellProvisioned(auc, raw) ==> r.Ok?
    ensures Tracks(s, old(store.sqns), auc) ==>
              && (r.Ok? ==> RunsTo(s, end, store.sqns[auc.id], s.issued + SqnRuns.SqnBlock(s.stored, |vs|),
                                   {published.value.sqn}))
              && (r.Err? ==> RunsTo(s, end, Held(store.sqns, auc.id), end.issued, {}))
  {
    hide EapAkaAt, Text.DecodeHex, Gsup.TupleIEs, Gsup.EncodeIEs, Gsup.Encode, Tracks, RunsTo, Quintuplets,
      SqnRuns.Wrap64, EapAkaSuits, Gsup.Asks;
    NoQuintuplets(E, lib, KeysOf(auc), raw, Held(store.sqns, auc.id), rand);
    var numVec := Gsup.NumVectors(msg);
    vs, end := [], s;
    var resp := new Gsup.Builder.NewMsg(Gsup.MSG_SEND_AUTH_INFO_RES);
    var id := Tbcd.EncodeIMSI(imsi);
    resp.Add(Gsup.IE_IMSI, id);
    ghost var first := Held(store.sqns, auc.id);
    AdvancedOnceMore(store.sqns, auc.id, 0);
    for i := 0 to numVec
      invariant resp.Valid() && fresh(resp) && |vs| == i
      invariant Quintuplets(E, lib, KeysOf(auc), raw, first, i, rand, vs) && (i > 0 ==> auc.id in old(store.sqns))
      invariant (forall v :: v in vs ==> Gsup.WellSized(v)) && resp.msg == Gsup.SendAuthInfoRes(imsi, vs)
      invariant store.sqns == Advanced(old(store.sqns), auc.id, i)
    {
      AdvancedOnceMore(old(store.sqns), auc.id, i);
      var v := AddTuple(E, lib, auc, raw, store, rand(i), resp);
      if v.Err? {
        if Tracks(s, old(store.sqns), auc) {
          end := GsupRuns(s, old(store.sqns), auc, numVec, if KeysOf(auc).Some? then i + 1 else i, false);
        }
        return Err, None, vs, end;
      }
      QuintupletsSnoc(E, lib, KeysOf(auc), raw, first, i, rand, vs, v.value);
      TuplesSnoc(imsi, vs, v.value);
      vs := vs + [v.value];
    }
    if Tracks(s, old(store.sqns), auc) {
      end := GsupRuns(s, old(store.sqns), auc, numVec, numVec, true);
    }
    QuintupletsSuit(E, lib, auc, raw, first, numVec, rand, vs);
    published := Some(GeoredMerge.Entry(auc.id, SqnRuns.Wrap64(auc.sqn + 32 * numVec)));
    r := Ok(resp.buf);
  }
}

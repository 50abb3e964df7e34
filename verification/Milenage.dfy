/**
 The Milenage sub-functions of TS 35.206 section 4.1 as the USIM evaluates them, and the
 authentication exchange of TS 33.102 section 6.3 on the USIM side. AES-128 is the parameter E.
 */
module Milenage {
  import opened Bytes

  type Cipher = (Block, Block) -> Block

  /** Decoded c and r constants; rotations are in bytes. */
  datatype Profile = Profile(c1: Block, c2: Block, c3: Block, c4: Block, c5: Block,
                             r1: nat, r2: nat, r3: nat, r4: nat, r5: nat)
  {
    predicate Valid() {
      r1 < 16 && r2 < 16 && r3 < 16 && r4 < 16 && r5 < 16
    }
  }

  function XorBlock(a: Block, b: Block): Block {
    Xor(a, b)
  }

  /** Cyclic rotation by n bytes towards the most significant end. */
  function Rot(b: Block, n: nat): (r: Block)
    ensures forall i {:trigger r[i]} :: 0 <= i < 16 ==> r[i] == b[(i + n) % 16]
  {
    seq(16, i requires 0 <= i < 16 => b[(i + n) % 16])
  }

  /** Bit k of a byte, bit 0 being the most significant. */
  function ByteBit(b: bv8, k: nat): bool {
    var mask: bv8 := if k == 0 then 0x80 else if k == 1 then 0x40 else if k == 2 then 0x20 else if k == 3 then 0x10
                     else if k == 4 then 0x08 else if k == 5 then 0x04 else if k == 6 then 0x02 else 0x01;
    b & mask != 0
  }

  /** The bits of a byte by their weights. */
  lemma ByteBitWeights(b: bv8)
    ensures ByteBit(b, 0) == (b & 0x80 != 0) && ByteBit(b, 1) == (b & 0x40 != 0) && ByteBit(b, 2) == (b & 0x20 != 0)
    ensures ByteBit(b, 3) == (b & 0x10 != 0) && ByteBit(b, 4) == (b & 0x08 != 0) && ByteBit(b, 5) == (b & 0x04 != 0)
    ensures ByteBit(b, 6) == (b & 0x02 != 0) && ByteBit(b, 7) == (b & 0x01 != 0)
  {
  }

  /** Bit i of a block, bit 0 being the most significant, as TS 35.206 numbers them. */
  function Bit(b: Block, i: nat): bool
    requires i < 128
  {
    ByteBit(b[i / 8], i % 8)
  }

  /** TS 35.206: y is x rotated by r bit positions, y[i] being x[(i + r) mod 128]. */
  ghost predicate IsBitRotation(x: Block, r: nat, y: Block) {
    forall i {:trigger Bit(y, i)} :: 0 <= i < 128 ==> Bit(y, i) == Bit(x, (i + r) % 128)
  }

  lemma BitsDetermineByte(a: bv8, b: bv8)
    requires forall k: nat :: k < 8 ==> ByteBit(a, k) == ByteBit(b, k)
    ensures a == b
  {
    assert ByteBit(a, 0) == ByteBit(b, 0) && ByteBit(a, 1) == ByteBit(b, 1);
    assert ByteBit(a, 2) == ByteBit(b, 2) && ByteBit(a, 3) == ByteBit(b, 3);
    assert ByteBit(a, 4) == ByteBit(b, 4) && ByteBit(a, 5) == ByteBit(b, 5);
    assert ByteBit(a, 6) == ByteBit(b, 6) && ByteBit(a, 7) == ByteBit(b, 7);
  }

  lemma BitsDetermineBlock(x: Block, y: Block)
    requires forall i :: 0 <= i < 128 ==> Bit(x, i) == Bit(y, i)
    ensures x == y
  {
    forall j | 0 <= j < 16
      ensures x[j] == y[j]
    {
      forall k: nat | k < 8
        ensures ByteBit(x[j], k) == ByteBit(y[j], k)
      {
        var i := 8 * j + k;
        assert i / 8 == j && i % 8 == k;
        assert Bit(x, i) == Bit(y, i);
      }
      BitsDetermineByte(x[j], y[j]);
    }
  }

  lemma BitOfRot(x: Block, n: nat, i: nat)
    requires n < 16 && i < 128
    ensures Bit(Rot(x, n), i) == Bit(x, (i + 8 * n) % 128)
  {
    var j := (i + 8 * n) % 128;
    assert j == if i + 8 * n < 128 then i + 8 * n else i + 8 * n - 128;
    assert j / 8 == (i / 8 + n) % 16 && j % 8 == i % 8;
  }

  /** The byte rotation is exactly the standard's bit rotation by 8n: the only block that is. */
  lemma RotIsBitRotation(x: Block, n: nat, y: Block)
    requires n < 16
    ensures IsBitRotation(x, 8 * n, y) <==> y == Rot(x, n)
  {
    forall i | 0 <= i < 128
      ensures Bit(Rot(x, n), i) == Bit(x, (i + 8 * n) % 128)
    {
      BitOfRot(x, n, i);
    }
    if IsBitRotation(x, 8 * n, y) {
      BitsDetermineBlock(y, Rot(x, n));
    }
  }

  /** Rotation is an action of the integers modulo 16. */
  lemma RotationAction(a: Block, m: nat, n: nat)
    ensures Rot(Rot(a, m), n) == Rot(a, (m + n) % 16)
    ensures Rot(a, 0) == a
  {
    forall i | 0 <= i < 16
      ensures Rot(Rot(a, m), n)[i] == Rot(a, (m + n) % 16)[i]
    {
      ModAdd(i + n, m);
      ModAdd(m + n, i);
    }
  }

  /** Rotation distributes over exclusive or. */
  lemma RotationDistributes(a: Block, b: Block, n: nat)
    ensures Rot(XorBlock(a, b), n) == XorBlock(Rot(a, n), Rot(b, n))
  {
    forall i | 0 <= i < 16
      ensures Rot(XorBlock(a, b), n)[i] == XorBlock(Rot(a, n), Rot(b, n))[i]
    {
      var j := (i + n) % 16;
      assert XorBlock(a, b)[j] == a[j] ^ b[j];
    }
  }

  lemma ModAdd(a: nat, b: nat)
    ensures (a % 16 + b) % 16 == (a + b) % 16
  {
    assert a == 16 * (a / 16) + a % 16;
    assert (a + b) - 16 * (a / 16) == a % 16 + b;
  }

  // TEMP and OUTi of TS 35.206 section 4.1.

  function Temp(E: Cipher, k: Block, opc: Block, rand: Block): Block {
    E(k, XorBlock(rand, opc))
  }

  function OutN(E: Cipher, k: Block, opc: Block, temp: Block, c: Block, r: nat): Block {
    XorBlock(E(k, XorBlock(Rot(XorBlock(temp, opc), r), c)), opc)
  }

  function In1(sqn: Bytes, amf: Bytes): Block
    requires |sqn| == 6 && |amf| == 2
  {
    sqn + amf + sqn + amf
  }

  function Out1(E: Cipher, k: Block, opc: Block, temp: Block, sqn: Bytes, amf: Bytes, c: Block, r: nat): Block
    requires |sqn| == 6 && |amf| == 2
  {
    XorBlock(E(k, XorBlock(XorBlock(temp, Rot(XorBlock(In1(sqn, amf), opc), r)), c)), opc)
  }

  /** A subscriber's secrets as the USIM holds them. */
  datatype Usim = Usim(k: Block, opc: Block, profile: Profile)
  {
    function F1(E: Cipher, rand: Block, sqn: Bytes, amf: Bytes): (r: Bytes)
      requires |sqn| == 6 && |amf| == 2
      ensures |r| == 8
    {
      Out1(E, k, opc, Temp(E, k, opc, rand), sqn, amf, profile.c1, profile.r1)[..8]
    }

    function F1Star(E: Cipher, rand: Block, sqn: Bytes, amf: Bytes): (r: Bytes)
      requires |sqn| == 6 && |amf| == 2
      ensures |r| == 8
    {
      Out1(E, k, opc, Temp(E, k, opc, rand), sqn, amf, profile.c1, profile.r1)[8..]
    }

    function F2(E: Cipher, rand: Block): (r: Bytes)
      ensures |r| == 8
    {
      OutN(E, k, opc, Temp(E, k, opc, rand), profile.c2, profile.r2)[8..]
    }

    function F3(E: Cipher, rand: Block): Block {
      OutN(E, k, opc, Temp(E, k, opc, rand), profile.c3, profile.r3)
    }

    function F4(E: Cipher, rand: Block): Block {
      OutN(E, k, opc, Temp(E, k, opc, rand), profile.c4, profile.r4)
    }

    function F5(E: Cipher, rand: Block): (r: Bytes)
      ensures |r| == 6
    {
      OutN(E, k, opc, Temp(E, k, opc, rand), profile.c2, profile.r2)[..6]
    }

    function F5Star(E: Cipher, rand: Block): (r: Bytes)
      ensures |r| == 6
    {
      OutN(E, k, opc, Temp(E, k, opc, rand), profile.c5, profile.r5)[..6]
    }

    /** TS 33.102 section 6.3.3: unmask the SQN, check MAC-A, and answer with RES, CK and IK. */
    function Authenticate(E: Cipher, rand: Block, autn: Bytes): (r: Option<UsimAnswer>)
    {
      if |autn| != 16 then None else
      var sqn := Xor(autn[..6], F5(E, rand));
      if F1(E, rand, sqn, autn[6..8]) != autn[8..] then None
      else Some(UsimAnswer(sqn, F2(E, rand), F3(E, rand), F4(E, rand)))
    }

    /** TS 33.102 section 6.3.3: AUTS = (SQN_MS xor AK*) || MAC-S, MAC-S taken with an all-zero AMF. */
    function Auts(E: Cipher, rand: Block, sqnMs: nat): Bytes {
      Xor(Bytes48(sqnMs), F5Star(E, rand)) + F1Star(E, rand, Bytes48(sqnMs), [0, 0])
    }
  }

  /** OUT2 to OUT5 of section 4.1 of TS 35.206 octet by octet, for the constants c and r (in octets) of one of them. */
  function StandardOut(E: Cipher, k: Block, opc: Block, rand: Block, c: Block, r: nat): Block {
    var temp := E(k, seq(16, i requires 0 <= i < 16 => rand[i] ^ opc[i]));
    var out := E(k, seq(16, i requires 0 <= i < 16 => temp[(i + r) % 16] ^ opc[(i + r) % 16] ^ c[i]));
    seq(16, i requires 0 <= i < 16 => out[i] ^ opc[i])
  }

  /** OUT1, over SQN || AMF || SQN || AMF. */
  function StandardOut1(E: Cipher, k: Block, opc: Block, rand: Block, sqn: Bytes, amf: Bytes, c: Block, r: nat): Block
    requires |sqn| == 6 && |amf| == 2
  {
    var in1: Block := sqn + amf + sqn + amf;
    var temp := E(k, seq(16, i requires 0 <= i < 16 => rand[i] ^ opc[i]));
    var out := E(k, seq(16, i requires 0 <= i < 16 => temp[i] ^ in1[(i + r) % 16] ^ opc[(i + r) % 16] ^ c[i]));
    seq(16, i requires 0 <= i < 16 => out[i] ^ opc[i])
  }

  lemma OutNIsStandard(E: Cipher, k: Block, opc: Block, rand: Block, c: Block, r: nat)
    ensures OutN(E, k, opc, Temp(E, k, opc, rand), c, r) == StandardOut(E, k, opc, rand, c, r)
  {
    var x: Block := seq(16, i requires 0 <= i < 16 => rand[i] ^ opc[i]);
    assert XorBlock(rand, opc) == x;
    var temp := E(k, x);
    var y: Block := seq(16, i requires 0 <= i < 16 => temp[(i + r) % 16] ^ opc[(i + r) % 16] ^ c[i]);
    assert XorBlock(Rot(XorBlock(temp, opc), r), c) == y;
    var out := E(k, y);
    assert XorBlock(out, opc) == seq(16, i requires 0 <= i < 16 => out[i] ^ opc[i]);
  }

  lemma Out1IsStandard(E: Cipher, k: Block, opc: Block, rand: Block, sqn: Bytes, amf: Bytes, c: Block, r: nat)
    requires |sqn| == 6 && |amf| == 2
    ensures Out1(E, k, opc, Temp(E, k, opc, rand), sqn, amf, c, r) == StandardOut1(E, k, opc, rand, sqn, amf, c, r)
  {
    var in1: Block := sqn + amf + sqn + amf;
    var x: Block := seq(16, i requires 0 <= i < 16 => rand[i] ^ opc[i]);
    assert XorBlock(rand, opc) == x;
    var temp := E(k, x);
    var y: Block := seq(16, i requires 0 <= i < 16 => temp[i] ^ in1[(i + r) % 16] ^ opc[(i + r) % 16] ^ c[i]);
    var z := XorBlock(XorBlock(temp, Rot(XorBlock(in1, opc), r)), c);
    forall i | 0 <= i < 16
      ensures z[i] == y[i]
    {
      XorAssociates(temp[i], in1[(i + r) % 16], opc[(i + r) % 16], c[i]);
    }
    assert z == y;
    var out := E(k, y);
    assert XorBlock(out, opc) == seq(16, i requires 0 <= i < 16 => out[i] ^ opc[i]);
  }

  lemma XorAssociates(a: bv8, b: bv8, c: bv8, d: bv8)
    ensures (a ^ (b ^ c)) ^ d == a ^ b ^ c ^ d
  {
  }

  /**
   Which output each function takes: f1 and f1* the halves of OUT1, f2 the last half of OUT2 and f5 its first six
   octets, f3 (CK) all of OUT3, f4 (IK) all of OUT4, f5* the first six octets of OUT5.
   */
  lemma FunctionsAreStandard(E: Cipher, u: Usim, rand: Block, sqn: Bytes, amf: Bytes)
    requires |sqn| == 6 && |amf| == 2
    ensures var p := u.profile;
            && u.F1(E, rand, sqn, amf) == StandardOut1(E, u.k, u.opc, rand, sqn, amf, p.c1, p.r1)[0..8]
            && u.F1Star(E, rand, sqn, amf) == StandardOut1(E, u.k, u.opc, rand, sqn, amf, p.c1, p.r1)[8..16]
            && u.F2(E, rand) == StandardOut(E, u.k, u.opc, rand, p.c2, p.r2)[8..16]
            && u.F3(E, rand) == StandardOut(E, u.k, u.opc, rand, p.c3, p.r3)
            && u.F4(E, rand) == StandardOut(E, u.k, u.opc, rand, p.c4, p.r4)
            && u.F5(E, rand) == StandardOut(E, u.k, u.opc, rand, p.c2, p.r2)[0..6]
            && u.F5Star(E, rand) == StandardOut(E, u.k, u.opc, rand, p.c5, p.r5)[0..6]
  {
    hide OutN, Out1, Temp, StandardOut, StandardOut1;
    var p := u.profile;
    Out1IsStandard(E, u.k, u.opc, rand, sqn, amf, p.c1, p.r1);
    OutNIsStandard(E, u.k, u.opc, rand, p.c2, p.r2);
    OutNIsStandard(E, u.k, u.opc, rand, p.c3, p.r3);
    OutNIsStandard(E, u.k, u.opc, rand, p.c4, p.r4);
    OutNIsStandard(E, u.k, u.opc, rand, p.c5, p.r5);
  }

  /** The tokens octet by octet: AUTS is SQN_MS xor AK* and MAC-S over a zero AMF, AUTN is SQN xor AK, AMF and MAC-A. */
  lemma TokenOctets(E: Cipher, u: Usim, rand: Block, ms: nat, sqn: Bytes, amf: Bytes)
    requires |sqn| == 6 && |amf| == 2
    ensures |u.Auts(E, rand, ms)| == 14 && |Autn(E, u, rand, sqn, amf)| == 16
    ensures forall i :: 0 <= i < 6 ==>
              && u.Auts(E, rand, ms)[i] == Bytes48(ms)[i] ^ u.F5Star(E, rand)[i]
              && Autn(E, u, rand, sqn, amf)[i] == sqn[i] ^ u.F5(E, rand)[i]
    ensures u.Auts(E, rand, ms)[6..14] == u.F1Star(E, rand, Bytes48(ms), [0x00, 0x00])
    ensures Autn(E, u, rand, sqn, amf)[6..8] == amf
    ensures Autn(E, u, rand, sqn, amf)[8..16] == u.F1(E, rand, sqn, amf)
  {
    hide OutN, Out1, Temp, Bytes48;
  }

  datatype UsimAnswer = UsimAnswer(sqn: Bytes, res: Bytes, ck: Bytes, ik: Bytes)

  /** The network's AUTN for an SQN: (SQN xor AK) || AMF || MAC-A. */
  function Autn(E: Cipher, u: Usim, rand: Block, sqn: Bytes, amf: Bytes): Bytes
    requires |sqn| == 6 && |amf| == 2
  {
    Xor(sqn, u.F5(E, rand)) + amf + u.F1(E, rand, sqn, amf)
  }

  /** The USIM accepts an AUTN and reads SQN s from it exactly when it is the AUTN for s and its own AMF. */
  lemma AcceptedExactlyAutn(E: Cipher, u: Usim, rand: Block, autn: Bytes, s: Bytes)
    requires |autn| == 16 && |s| == 6
    ensures u.Authenticate(E, rand, autn) == Some(UsimAnswer(s, u.F2(E, rand), u.F3(E, rand), u.F4(E, rand)))
            <==> autn == Autn(E, u, rand, s, autn[6..8])
  {
    var ak := u.F5(E, rand);
    XorCancels(autn[..6], ak);
    XorCancels(s, ak);
    assert autn == autn[..6] + autn[6..8] + autn[8..];
    var whole := Autn(E, u, rand, s, autn[6..8]);
    assert whole[..6] == Xor(s, ak) && whole[8..] == u.F1(E, rand, s, autn[6..8]);
  }

  /** Two resynchronisation tokens for one challenge are equal only for equal SQNs. */
  lemma AutsInjective(E: Cipher, u: Usim, rand: Block, s: nat, t: nat)
    requires s < TWO_TO_48 && t < TWO_TO_48
    requires u.Auts(E, rand, s) == u.Auts(E, rand, t)
    ensures s == t
  {
    var aks := u.F5Star(E, rand);
    assert u.Auts(E, rand, s)[..6] == Xor(Bytes48(s), aks);
    assert u.Auts(E, rand, t)[..6] == Xor(Bytes48(t), aks);
    XorCancels(Bytes48(s), aks);
    XorCancels(Bytes48(t), aks);
    Bytes48Injective(s, t);
  }
}

/** The HSS's own Milenage code (internal/crypto/milenage.go), proved against the USIM of module Milenage. */
module Vectors {
  import opened Bytes
  import opened Milenage
  import opened KdfStrings

  datatype EutranVector = EutranVector(rand: Block, xres: Bytes, autn: Bytes, kasme: Bytes)

  datatype EapAkaVector = EapAkaVector(rand: Block, xres: Bytes, autn: Bytes, ck: Bytes, ik: Bytes)

  /** Go's copy of a slice into a zeroed [16]byte. */
  function Copy16(b: Bytes): (r: Block)
    ensures forall i :: 0 <= i < 16 ==> r[i] == if i < |b| then b[i] else 0
  {
    if |b| >= 16 then b[..16] else b + seq(16 - |b|, _ => 0)
  }

  method Xor16(a: Block, b: Block) returns (r: Block)
    ensures r == XorBlock(a, b)
  {
    var out := new bv8[16];
    for i := 0 to 16
      invariant forall k :: 0 <= k < i ==> out[k] == a[k] ^ b[k]
    {
      out[i] := a[i] ^ b[i];
    }
    r := out[..];
  }

  method RotateLeft128(b: Block, n: nat) returns (r: Block)
    requires n < 16
    ensures r == Rot(b, n)
  {
    if n == 0 {
      RotationAction(b, 0, 0);
      return b;
    }
    var out := new bv8[16];
    for i := 0 to 16
      invariant forall k :: 0 <= k < i ==> out[k] == Rot(b, n)[k]
    {
      out[i] := b[(i + n) % 16];
    }
    r := out[..];
  }

  /** A byte-aligned rotation given in bits, reduced as decodeProfile does, is that bit rotation of TS 35.206. */
  lemma ByteRotation(bits: nat)
    requires bits % 8 == 0
    ensures forall x: Block, y: Block :: IsBitRotation(x, bits % 128, y) <==> y == Rot(x, bits / 8 % 16)
  {
    var n := bits / 8 % 16;
    assert bits == 8 * (bits / 8) && bits / 8 == 16 * (bits / 8 / 16) + n;
    assert bits % 128 == 8 * n;
    forall x: Block, y: Block
      ensures IsBitRotation(x, bits % 128, y) <==> y == Rot(x, n)
    {
      RotIsBitRotation(x, n, y);
    }
  }

  method MilenageFN(E: Cipher, ki: Block, opc: Block, temp: Block, c: Block, r: nat) returns (out: Block)
    requires r < 16
    ensures out == OutN(E, ki, opc, temp, c, r)
  {
    var x := Xor16(temp, opc);
    var rotated := RotateLeft128(x, r);
    var input := Xor16(rotated, c);
    out := Xor16(E(ki, input), opc);
  }

  method MilenageF1(E: Cipher, ki: Block, opc: Block, temp: Block, sqn: nat, amf: Bytes, c1: Block, r1: nat)
    returns (macA: Bytes, macS: Bytes)
    requires |amf| == 2 && r1 < 16
    ensures macA == Out1(E, ki, opc, temp, Bytes48(sqn), amf, c1, r1)[..8]
    ensures macS == Out1(E, ki, opc, temp, Bytes48(sqn), amf, c1, r1)[8..]
  {
    hide LowByte, Rot, Xor, Bytes48;
    var sqnB := [LowByte(sqn / 0x100_0000_0000), LowByte(sqn / 0x1_0000_0000), LowByte(sqn / 0x100_0000),
                 LowByte(sqn / 0x1_0000), LowByte(sqn / 0x100), LowByte(sqn)];
    ShiftsAreBytes48(sqn);
    var buf := new bv8[16];
    for i := 0 to 6
      invariant forall k :: 0 <= k < i ==> buf[k] == sqnB[k] && buf[8 + k] == sqnB[k]
    {
      buf[i], buf[8 + i] := sqnB[i], sqnB[i];
    }
    buf[6], buf[7], buf[14], buf[15] := amf[0], amf[1], amf[0], amf[1];
    assert buf[..] == In1(Bytes48(sqn), amf);
    var x := Xor16(buf[..], opc);
    x := RotateLeft128(x, r1);
    x := Xor16(temp, x);
    x := Xor16(x, c1);
    var out := Xor16(E(ki, x), opc);
    macA, macS := out[..8], out[8..];
  }

  method MilenageCore(E: Cipher, ki: Block, opc: Block, rand: Block, sqn: nat, amf: Bytes, pc: Profile)
    returns (xres: Bytes, ck: Block, ik: Block, ak: Bytes, macA: Bytes)
    requires pc.Valid() && |amf| == 2
    ensures var u := Usim(ki, opc, pc);
            && xres == u.F2(E, rand) && ck == u.F3(E, rand) && ik == u.F4(E, rand) && ak == u.F5(E, rand)
            && macA == u.F1(E, rand, Bytes48(sqn), amf)
  {
    var x := Xor16(rand, opc);
    var temp := E(ki, x);
    var out25 := MilenageFN(E, ki, opc, temp, pc.c2, pc.r2);
    xres, ak := out25[8..], out25[..6];
    ck := MilenageFN(E, ki, opc, temp, pc.c3, pc.r3);
    ik := MilenageFN(E, ki, opc, temp, pc.c4, pc.r4);
    var macS;
    macA, macS := MilenageF1(E, ki, opc, temp, sqn, amf, pc.c1, pc.r1);
  }

  /** SQN xor AK, byte by byte, and the AUTN around it. */
  method BuildAutn(sqn: nat, ak: Bytes, amf: Bytes, macA: Bytes) returns (sqnXorAk: Bytes, autn: Bytes)
    requires |ak| == 6 && |amf| == 2 && |macA| == 8
    ensures sqnXorAk == Xor(Bytes48(sqn), ak) && autn == sqnXorAk + amf + macA
  {
    hide LowByte, Bytes48;
    var sqnB := [LowByte(sqn / 0x100_0000_0000), LowByte(sqn / 0x1_0000_0000), LowByte(sqn / 0x100_0000),
                 LowByte(sqn / 0x1_0000), LowByte(sqn / 0x100), LowByte(sqn)];
    ShiftsAreBytes48(sqn);
    var out := new bv8[6];
    for i := 0 to 6
      invariant forall k :: 0 <= k < i ==> out[k] == sqnB[k] ^ ak[k]
    {
      out[i] := sqnB[i] ^ ak[i];
    }
    sqnXorAk := out[..];
    autn := sqnXorAk + amf;
    autn := autn + macA;
  }

  /**
   What a vector is for: the USIM accepts its AUTN, reads the intended SQN and AMF from it, answers with XRES,
   and derives CK and IK from which the terminal computes the KASME of Annex A.2 of TS 33.401.
   */
  ghost predicate PassesEutran(E: Cipher, H: Hmac, u: Usim, plmn: Bytes, amf: Bytes, sqn: nat, v: EutranVector) {
    && |v.autn| == 16 && v.autn[6..8] == amf
    && match u.Authenticate(E, v.rand, v.autn)
       case None => false
       case Some(a) =>
         a.sqn == Bytes48(sqn) && a.res == v.xres && v.kasme == H(a.ck + a.ik, Kasme(plmn, v.autn[..6]).Text())
  }

  ghost predicate PassesEapAka(E: Cipher, u: Usim, amf: Bytes, sqn: nat, v: EapAkaVector) {
    && |v.autn| == 16 && v.autn[6..8] == amf
    && u.Authenticate(E, v.rand, v.autn) == Some(UsimAnswer(Bytes48(sqn), v.xres, v.ck, v.ik))
  }

  lemma BuiltAutnAccepted(E: Cipher, u: Usim, rand: Block, s: Bytes, amf: Bytes)
    requires |s| == 6 && |amf| == 2
    ensures var autn := Autn(E, u, rand, s, amf);
            && |autn| == 16 && autn[..6] == Xor(s, u.F5(E, rand)) && autn[6..8] == amf
            && u.Authenticate(E, rand, autn) == Some(UsimAnswer(s, u.F2(E, rand), u.F3(E, rand), u.F4(E, rand)))
  {
    var autn := Autn(E, u, rand, s, amf);
    assert autn[6..8] == amf;
    AcceptedExactlyAutn(E, u, rand, autn, s);
  }

  method GenerateEUTRANVectorCustom(E: Cipher, H: Hmac, ki: Bytes, opc: Bytes, amf: Bytes, sqn: nat, plmn: Bytes,
                                    pc: Profile, rand: Block)
    returns (r: Result<EutranVector>)
    requires pc.Valid()
    ensures r.Ok? <==> |ki| == 16 && |opc| == 16 && |amf| == 2 && |plmn| == 3
    ensures r.Ok? ==> r.value.rand == rand && PassesEutran(E, H, Usim(ki, opc, pc), plmn, amf, sqn, r.value)
  {
    if |ki| != 16 || |opc| != 16 || |amf| != 2 || |plmn| != 3 {
      return Err;
    }
    assert ki[..16] == ki && opc[..16] == opc;
    var xres, ck, ik, ak, macA := MilenageCore(E, Copy16(ki), Copy16(opc), rand, sqn, amf, pc);
    var sqnXorAk, autn := BuildAutn(sqn, ak, amf, macA);
    var kasme := DeriveKasme(H, ck, ik, plmn, sqnXorAk);
    BuiltAutnAccepted(E, Usim(ki, opc, pc), rand, Bytes48(sqn), amf);
    assert autn == Autn(E, Usim(ki, opc, pc), rand, Bytes48(sqn), amf);
    return Ok(EutranVector(rand, xres, autn, kasme));
  }

  method GenerateEAPAKAVectorCustom(E: Cipher, ki: Bytes, opc: Bytes, amf: Bytes, sqn: nat, pc: Profile, rand: Block)
    returns (r: Result<EapAkaVector>)
    requires pc.Valid()
    ensures r.Ok? <==> |ki| == 16 && |opc| == 16 && |amf| == 2
    ensures r.Ok? ==> r.value.rand == rand && PassesEapAka(E, Usim(ki, opc, pc), amf, sqn, r.value)
  {
    if |ki| != 16 || |opc| != 16 || |amf| != 2 {
      return Err;
    }
    assert ki[..16] == ki && opc[..16] == opc;
    var xres, ck, ik, ak, macA := MilenageCore(E, Copy16(ki), Copy16(opc), rand, sqn, amf, pc);
    var sqnXorAk, autn := BuildAutn(sqn, ak, amf, macA);
    BuiltAutnAccepted(E, Usim(ki, opc, pc), rand, Bytes48(sqn), amf);
    assert autn == Autn(E, Usim(ki, opc, pc), rand, Bytes48(sqn), amf);
    return Ok(EapAkaVector(rand, xres, autn, ck, ik));
  }

  /** Unmasking an AUTS gives the only SQN it can report, and MAC-S decides whether it reports it. */
  lemma ResyncExact(E: Cipher, u: Usim, rand: Block, auts: Bytes, sqnB: Bytes, sqn: nat)
    requires |auts| == 14 && sqnB == Xor(auts[..6], u.F5Star(E, rand)) && sqn == BeInt(sqnB)
    ensures sqn < TWO_TO_48
    ensures u.F1Star(E, rand, Bytes48(sqn), [0, 0]) == auts[6..] <==> auts == u.Auts(E, rand, sqn)
    ensures forall s: nat :: s < TWO_TO_48 && auts == u.Auts(E, rand, s) ==> s == sqn
  {
    hide Xor, BeInt, Be;
    var aks := u.F5Star(E, rand);
    BeOfBeInt(sqnB);
    BeIntBound(sqnB);
    SixBytes();
    XorCancels(auts[..6], aks);
    assert auts == auts[..6] + auts[6..];
    var expected := u.Auts(E, rand, sqn);
    assert expected[..6] == Xor(Bytes48(sqn), aks) && expected[6..] == u.F1Star(E, rand, Bytes48(sqn), [0, 0]);
    forall s: nat | s < TWO_TO_48 && auts == u.Auts(E, rand, s)
      ensures s == sqn
    {
      XorCancels(Bytes48(s), aks);
      assert u.Auts(E, rand, s)[..6] == Xor(Bytes48(s), aks);
      Bytes48Injective(s, sqn);
    }
  }

  /** The resynchronisation check is exact: it yields s precisely on the token a USIM at s sends. */
  method MilenageResync(E: Cipher, ki: Block, opc: Block, rand: Block, auts: Bytes, pc: Profile)
    returns (r: Result<nat>)
    requires pc.Valid()
    ensures r.Ok? ==> r.value < TWO_TO_48 && auts == Usim(ki, opc, pc).Auts(E, rand, r.value)
    ensures forall s: nat :: s < TWO_TO_48 && auts == Usim(ki, opc, pc).Auts(E, rand, s) ==> r == Ok(s)
  {
    if |auts| != 14 {
      return Err;
    }
    hide Nat, LowByte, Rot, Bytes48, Be;
    ghost var u := Usim(ki, opc, pc);
    var x := Xor16(rand, opc);
    var temp := E(ki, x);
    var out5s := MilenageFN(E, ki, opc, temp, pc.c5, pc.r5);
    var sqnB := new bv8[6];
    for i := 0 to 6
      invariant forall k :: 0 <= k < i ==> sqnB[k] == auts[k] ^ out5s[k]
    {
      sqnB[i] := auts[i] ^ out5s[i];
    }
    assert sqnB[..] == Xor(auts[..6], u.F5Star(E, rand));
    var sqn := 0;
    for i := 0 to 6
      invariant sqn == BeInt(sqnB[..i])
    {
      assert sqnB[..i + 1][..i] == sqnB[..i];
      sqn := 256 * sqn + Nat(sqnB[i]);
    }
    assert sqnB[..6] == sqnB[..];
    ResyncExact(E, u, rand, auts, sqnB[..], sqn);
    var macA, macS := MilenageF1(E, ki, opc, temp, sqn, [0x00, 0x00], pc.c1, pc.r1);
    if macS != auts[6..] {
      return Err;
    }
    return Ok(sqn);
  }

  /** Resync-Info is RAND || AUTS; any other length is refused. */
  method ResyncCustom(E: Cipher, ki: Bytes, opc: Bytes, resyncInfo: Bytes, pc: Profile) returns (r: Result<nat>)
    requires pc.Valid()
    ensures r.Ok? ==> |resyncInfo| == 30 && r.value < TWO_TO_48
    ensures |resyncInfo| == 30 ==>
              var u := Usim(Copy16(ki), Copy16(opc), pc);
              && (r.Ok? ==> resyncInfo[16..] == u.Auts(E, resyncInfo[..16], r.value))
              && forall s: nat :: s < TWO_TO_48 && resyncInfo[16..] == u.Auts(E, resyncInfo[..16], s) ==> r == Ok(s)
  {
    if |resyncInfo| != 30 {
      return Err;
    }
    assert resyncInfo[..16][..16] == resyncInfo[..16];
    r := MilenageResync(E, Copy16(ki), Copy16(opc), Copy16(resyncInfo[..16]), resyncInfo[16..], pc);
  }
}

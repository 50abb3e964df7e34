/** Results, bytes and byte strings shared by all models. A Go byte is a bv8. */
module Bytes {
  import opened Arith

  datatype Option<+T> = None | Some(value: T)

  datatype Result<+T> = Ok(value: T) | Err

  type Bytes = seq<bv8>

  /** A Go [16]byte. */
  type Block = b: seq<bv8> | |b| == 16 witness seq(16, _ => 0)

  const TWO_TO_48: nat := 0x1_0000_0000_0000

  // A byte and its number are related bit by bit: the solver reasons badly across bit-vectors and integers otherwise.

  function Weight(on: bool, w: nat): nat {
    if on then w else 0
  }

  function Mask(on: bool, m: bv8): bv8 {
    if on then m else 0
  }

  /** A byte as a number. */
  function Nat(b: bv8): (n: nat)
    ensures n < 256
  {
    Weight(b & 0x80 != 0, 128) + Weight(b & 0x40 != 0, 64) + Weight(b & 0x20 != 0, 32) + Weight(b & 0x10 != 0, 16)
    + Weight(b & 0x08 != 0, 8) + Weight(b & 0x04 != 0, 4) + Weight(b & 0x02 != 0, 2) + Weight(b & 0x01 != 0, 1)
  }

  /** The same number as the conversion of the byte gives. */
  lemma NatIsInt(b: bv8)
    ensures Nat(b) == b as int
  {
  }

  /** Go's byte(n) and the low byte of uint16(n): the low eight binary digits. */
  function LowByte(n: nat): bv8 {
    Mask(n / 128 % 2 == 1, 0x80) | Mask(n / 64 % 2 == 1, 0x40) | Mask(n / 32 % 2 == 1, 0x20)
    | Mask(n / 16 % 2 == 1, 0x10) | Mask(n / 8 % 2 == 1, 0x08) | Mask(n / 4 % 2 == 1, 0x04)
    | Mask(n / 2 % 2 == 1, 0x02) | Mask(n % 2 == 1, 0x01)
  }

  lemma BitsOfMasks(a: bool, b: bool, c: bool, d: bool, e: bool, f: bool, g: bool, h: bool)
    ensures var x := Mask(a, 0x80) | Mask(b, 0x40) | Mask(c, 0x20) | Mask(d, 0x10) | Mask(e, 0x08) | Mask(f, 0x04)
                     | Mask(g, 0x02) | Mask(h, 0x01);
            && (x & 0x80 != 0) == a && (x & 0x40 != 0) == b && (x & 0x20 != 0) == c && (x & 0x10 != 0) == d
            && (x & 0x08 != 0) == e && (x & 0x04 != 0) == f && (x & 0x02 != 0) == g && (x & 0x01 != 0) == h
  {
  }

  lemma MasksOfBits(b: bv8)
    ensures b == Mask(b & 0x80 != 0, 0x80) | Mask(b & 0x40 != 0, 0x40) | Mask(b & 0x20 != 0, 0x20)
                 | Mask(b & 0x10 != 0, 0x10) | Mask(b & 0x08 != 0, 0x08) | Mask(b & 0x04 != 0, 0x04)
                 | Mask(b & 0x02 != 0, 0x02) | Mask(b & 0x01 != 0, 0x01)
  {
  }

  lemma LowDigits(n: nat)
    ensures n == n % 2 + 2 * (n / 2 % 2) + 4 * (n / 4 % 2) + 8 * (n / 8 % 2) + 16 * (n / 16)
  {
    assert n / 2 / 2 == n / 4 && n / 4 / 2 == n / 8 && n / 8 / 2 == n / 16;
  }

  lemma HighDigits(n: nat)
    ensures n / 16 == n / 16 % 2 + 2 * (n / 32 % 2) + 4 * (n / 64 % 2) + 8 * (n / 128 % 2) + 16 * (n / 256)
  {
    assert n / 16 / 2 == n / 32 && n / 32 / 2 == n / 64 && n / 64 / 2 == n / 128 && n / 128 / 2 == n / 256;
  }

  lemma DigitWeight(n: nat, w: nat)
    ensures Weight(n % 2 == 1, w) == w * (n % 2)
  {
  }

  lemma LowByteAsInt(n: nat)
    ensures Nat(LowByte(n)) == n % 256
  {
    BitsOfMasks(n / 128 % 2 == 1, n / 64 % 2 == 1, n / 32 % 2 == 1, n / 16 % 2 == 1,
                n / 8 % 2 == 1, n / 4 % 2 == 1, n / 2 % 2 == 1, n % 2 == 1);
    DigitSum(n);
  }

  lemma DigitSum(n: nat)
    ensures Weight(n / 128 % 2 == 1, 128) + Weight(n / 64 % 2 == 1, 64) + Weight(n / 32 % 2 == 1, 32)
            + Weight(n / 16 % 2 == 1, 16) + Weight(n / 8 % 2 == 1, 8) + Weight(n / 4 % 2 == 1, 4)
            + Weight(n / 2 % 2 == 1, 2) + Weight(n % 2 == 1, 1) == n % 256
  {
    hide Weight;
    LowDigits(n);
    HighDigits(n);
    DigitWeight(n / 128, 128);
    DigitWeight(n / 64, 64);
    DigitWeight(n / 32, 32);
    DigitWeight(n / 16, 16);
    DigitWeight(n / 8, 8);
    DigitWeight(n / 4, 4);
    DigitWeight(n / 2, 2);
    DigitWeight(n, 1);
  }

  lemma LastDigit(rest: nat, on: bool)
    ensures var v := 2 * rest + Weight(on, 1); (v % 2 == 1) == on && v / 2 == rest
  {
  }

  /** The last four binary digits of a number made of them. */
  lemma LowDigitsOfSum(e: bool, f: bool, g: bool, h: bool, rest: nat)
    ensures var v := 16 * rest + Weight(e, 8) + Weight(f, 4) + Weight(g, 2) + Weight(h, 1);
            && (v % 2 == 1) == h && (v / 2 % 2 == 1) == g && (v / 4 % 2 == 1) == f && (v / 8 % 2 == 1) == e
            && v / 16 == rest
  {
    var v := 16 * rest + Weight(e, 8) + Weight(f, 4) + Weight(g, 2) + Weight(h, 1);
    var v3 := 2 * rest + Weight(e, 1);
    var v2 := 2 * v3 + Weight(f, 1);
    var v1 := 2 * v2 + Weight(g, 1);
    assert v == 2 * v1 + Weight(h, 1);
    LastDigit(v1, h);
    LastDigit(v2, g);
    LastDigit(v3, f);
    LastDigit(rest, e);
    assert v / 4 == v / 2 / 2 && v / 8 == v / 4 / 2 && v / 16 == v / 8 / 2;
  }

  lemma DigitsOfSum(a: bool, b: bool, c: bool, d: bool, e: bool, f: bool, g: bool, h: bool, n: nat)
    requires n == Weight(a, 128) + Weight(b, 64) + Weight(c, 32) + Weight(d, 16) + Weight(e, 8) + Weight(f, 4)
                  + Weight(g, 2) + Weight(h, 1)
    ensures (n / 128 % 2 == 1) == a && (n / 64 % 2 == 1) == b && (n / 32 % 2 == 1) == c && (n / 16 % 2 == 1) == d
    ensures (n / 8 % 2 == 1) == e && (n / 4 % 2 == 1) == f && (n / 2 % 2 == 1) == g && (n % 2 == 1) == h
  {
    var high := Weight(a, 8) + Weight(b, 4) + Weight(c, 2) + Weight(d, 1);
    TimesSixteen(a, b, c, d);
    LowDigitsOfSum(e, f, g, h, high);
    LowDigitsOfSum(a, b, c, d, 0);
    assert n / 32 == n / 16 / 2 && n / 64 == n / 16 / 4 && n / 128 == n / 16 / 8 by {
      hide Weight;
    }
  }

  lemma TimesSixteen(a: bool, b: bool, c: bool, d: bool)
    ensures 16 * (Weight(a, 8) + Weight(b, 4) + Weight(c, 2) + Weight(d, 1))
            == Weight(a, 128) + Weight(b, 64) + Weight(c, 32) + Weight(d, 16)
  {
  }

  lemma IntAsByte(b: bv8)
    ensures LowByte(Nat(b)) == b
  {
    hide Mask, Weight;
    DigitsOfSum(b & 0x80 != 0, b & 0x40 != 0, b & 0x20 != 0, b & 0x10 != 0,
                b & 0x08 != 0, b & 0x04 != 0, b & 0x02 != 0, b & 0x01 != 0, Nat(b));
    MasksOfBits(b);
  }

  lemma SameLowByte(m: nat, k: nat)
    requires m % 256 == k % 256
    ensures LowByte(m) == LowByte(k)
  {
    hide Nat, LowByte;
    LowByteAsInt(m);
    LowByteAsInt(k);
    IntAsByte(LowByte(m));
    IntAsByte(LowByte(k));
  }

  /** binary.BigEndian.PutUint16 of uint16(n): two bytes, high byte first, modulo 65536. */
  function Be16(n: nat): (r: Bytes)
    ensures |r| == 2
  {
    [LowByte(n / 256), LowByte(n)]
  }

  /** binary.BigEndian.Uint16. */
  function Uint16(b: Bytes): nat
    requires |b| == 2
  {
    256 * Nat(b[0]) + Nat(b[1])
  }

  /** Reading back a 16-bit length gives the length modulo 65536. */
  lemma Uint16OfBe16(n: nat)
    ensures Uint16(Be16(n)) == n % 65536
    ensures n < 65536 ==> Uint16(Be16(n)) == n
  {
    hide Nat, LowByte;
    LowByteAsInt(n / 256);
    LowByteAsInt(n);
    assert n == 65536 * (n / 65536) + 256 * (n / 256 % 256) + n % 256;
  }

  /** Byte-wise exclusive or of two strings of one length. */
  function Xor(a: Bytes, b: Bytes): (r: Bytes)
    requires |a| == |b|
    ensures |r| == |a|
    ensures forall i {:trigger r[i]} :: 0 <= i < |r| ==> r[i] == a[i] ^ b[i]
  {
    seq(|a|, i requires 0 <= i < |a| => a[i] ^ b[i])
  }

  lemma XorCancels(a: Bytes, b: Bytes)
    requires |a| == |b|
    ensures Xor(Xor(a, b), b) == a
  {
    var r := Xor(Xor(a, b), b);
    assert forall i :: 0 <= i < |a| ==> r[i] == a[i];
  }

  /** The low k bytes of n, most significant first. */
  function Be(n: nat, k: nat): (r: Bytes)
    ensures |r| == k
  {
    if k == 0 then [] else Be(n / 256, k - 1) + [LowByte(n)]
  }

  function BeInt(b: Bytes): nat {
    if b == [] then 0 else 256 * BeInt(b[..|b| - 1]) + Nat(b[|b| - 1])
  }

  function Pow256(k: nat): nat {
    if k == 0 then 1 else 256 * Pow256(k - 1)
  }

  lemma {:induction false} BeIntBound(b: Bytes)
    ensures BeInt(b) < Pow256(|b|)
  {
    hide Nat;
    if b != [] {
      BeIntBound(b[..|b| - 1]);
    }
  }

  /** Printing what was read gives back the bytes. */
  lemma {:induction false} BeOfBeInt(b: Bytes)
    ensures Be(BeInt(b), |b|) == b
  {
    hide Nat, LowByte;
    if b != [] {
      var init, last := b[..|b| - 1], b[|b| - 1];
      BeOfBeInt(init);
      LastByte(BeInt(init), last);
      BeSnoc(BeInt(init), last, |init|);
      assert b == init + [last];
    }
  }

  lemma BeSnoc(n: nat, b: bv8, k: nat)
    requires (256 * n + Nat(b)) / 256 == n && LowByte(256 * n + Nat(b)) == b
    ensures Be(256 * n + Nat(b), k + 1) == Be(n, k) + [b]
  {
  }

  lemma LastByte(n: nat, b: bv8)
    ensures (256 * n + Nat(b)) / 256 == n && LowByte(256 * n + Nat(b)) == b
  {
    hide Nat, LowByte;
    IntAsByte(b);
    SameLowByte(256 * n + Nat(b), Nat(b));
  }

  lemma Pow256Positive(k: nat)
    ensures Pow256(k) > 0
  {
  }

  /** A number's last byte and the rest of it, cut to m. */
  lemma ModByBytes(n: nat, m: nat)
    requires m > 0
    ensures 256 * (n / 256 % m) + n % 256 == n % (256 * m)
  {
    var q, r := n / 256 / m, n / 256 % m;
    assert (256 * m) * q == 256 * (m * q);
    DivModUnique(n, 256 * m, q, 256 * r + n % 256);
  }

  /** Reading what was printed gives back the number modulo 256^k, so itself when it fits. */
  lemma {:induction false} BeIntOfBe(n: nat, k: nat)
    ensures Pow256(k) > 0 && BeInt(Be(n, k)) == n % Pow256(k)
    ensures n < Pow256(k) ==> BeInt(Be(n, k)) == n
  {
    hide Nat, LowByte;
    Pow256Positive(k);
    if k > 0 {
      BeIntOfBe(n / 256, k - 1);
      LowByteAsInt(n);
      assert Be(n, k)[..k - 1] == Be(n / 256, k - 1);
      ModByBytes(n, Pow256(k - 1));
    }
  }

  /** An SQN as the six bytes carried in AUTN and AUTS: its value modulo 2^48. */
  function Bytes48(s: nat): (r: Bytes)
    ensures |r| == 6
  {
    Be(s, 6)
  }

  lemma SixBytes()
    ensures Pow256(6) == TWO_TO_48
  {
    assert Pow256(3) == 0x100_0000;
  }

  /** Six bytes carry a number modulo 2^48, and no more of it. */
  lemma Bytes48Carry(s: nat, t: nat)
    ensures BeInt(Bytes48(s)) == s % TWO_TO_48
    ensures Bytes48(s) == Bytes48(t) <==> s % TWO_TO_48 == t % TWO_TO_48
  {
    hide Be, BeInt, Pow256;
    SixBytes();
    BeIntOfBe(s, 6);
    BeIntOfBe(t, 6);
    BeOfBeInt(Bytes48(s));
    BeOfBeInt(Bytes48(t));
  }

  lemma Bytes48Injective(s: nat, t: nat)
    requires s < TWO_TO_48 && t < TWO_TO_48
    requires Bytes48(s) == Bytes48(t)
    ensures s == t
  {
    hide Bytes48;
    Bytes48Carry(s, t);
  }

  /** The shifts by which the HSS takes an SQN apart give its big-endian bytes. */
  lemma ShiftsAreBytes48(s: nat)
    ensures Bytes48(s) == [LowByte(s / 0x100_0000_0000), LowByte(s / 0x1_0000_0000), LowByte(s / 0x100_0000),
                           LowByte(s / 0x1_0000), LowByte(s / 0x100), LowByte(s)]
  {
    hide LowByte;
    var s1, s2 := s / 0x100, s / 0x1_0000;
    var s3, s4, s5 := s / 0x100_0000, s / 0x1_0000_0000, s / 0x100_0000_0000;
    assert s1 / 256 == s2 && s2 / 256 == s3 && s3 / 256 == s4 && s4 / 256 == s5;
    assert Be(s5, 1) == [LowByte(s5)];
    assert Be(s4, 2) == Be(s5, 1) + [LowByte(s4)];
    assert Be(s3, 3) == Be(s4, 2) + [LowByte(s3)];
    assert Be(s2, 4) == Be(s3, 3) + [LowByte(s2)];
    assert Be(s1, 5) == Be(s2, 4) + [LowByte(s1)];
    assert Be(s, 6) == Be(s1, 5) + [LowByte(s)];
  }
}

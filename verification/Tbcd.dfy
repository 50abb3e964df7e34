/** The telephony BCD codecs of the GSUP, S6c and Sh code. Strings are ASCII: one byte a character. */
module Tbcd {
  import opened Bytes
  import opened Text

  /** Digits packed two to an octet, the first in the low half; an odd count is filled with 0xF. */
  function Octet(n: seq<bv8>, k: nat): bv8
    requires 2 * k < |n|
  {
    (if 2 * k + 1 < |n| then n[2 * k + 1] << 4 else 0xF0) | n[2 * k]
  }

  function Pack(n: seq<bv8>): (b: Bytes)
    ensures |b| == (|n| + 1) / 2
    ensures forall k {:trigger b[k]} :: 0 <= k < |b| ==> b[k] == Octet(n, k)
  {
    seq((|n| + 1) / 2, k requires 0 <= k < (|n| + 1) / 2 => Octet(n, k))
  }

  function Nibbles(f: char -> bv8, s: string): (n: seq<bv8>)
    ensures |n| == |s|
    ensures forall i {:trigger n[i]} :: 0 <= i < |s| ==> n[i] == f(s[i])
  {
    seq(|s|, i requires 0 <= i < |s| => f(s[i]))
  }

  /** Every octet contributes its characters, in order. */
  function Unpack(f: bv8 -> string, b: Bytes): string {
    if b == [] then "" else Unpack(f, b[..|b| - 1]) + f(b[|b| - 1])
  }

  lemma {:induction false} UnpackCons(f: bv8 -> string, x: bv8, b: Bytes)
    ensures Unpack(f, [x] + b) == f(x) + Unpack(f, b)
  {
    if b == [] {
      assert ([x] + b)[..0] == [];
    } else {
      UnpackCons(f, x, b[..|b| - 1]);
      assert ([x] + b)[..|b|] == [x] + b[..|b| - 1];
    }
  }

  /** A decoder's character function undoes an encoder's nibble function on one octet of digits. */
  ghost predicate UndoesPairs(enc: char -> bv8, dec: bv8 -> string) {
    && (forall c, d :: IsDigit(c) && IsDigit(d) ==> dec((enc(d) << 4) | enc(c)) == [c, d])
    && (forall c :: IsDigit(c) ==> dec(0xF0 | enc(c)) == [c])
  }

  /** One lemma for the pairs below: unpacking inverts packing on digit strings of any length. */
  lemma {:induction false} UnpackOfPack(enc: char -> bv8, dec: bv8 -> string, s: string)
    requires AllDigits(s) && UndoesPairs(enc, dec)
    ensures Unpack(dec, Pack(Nibbles(enc, s))) == s
    decreases |s|
  {
    hide Pack, Nibbles, Unpack;
    if |s| == 0 {
      UnpackNothing(enc, dec, s);
    } else if |s| == 1 {
      UnpackLast(enc, dec, s);
    } else {
      UnpackPeel(enc, dec, s);
      UnpackOfPack(enc, dec, s[2..]);
      assert s == [s[0], s[1]] + s[2..];
    }
  }

  lemma UnpackNothing(enc: char -> bv8, dec: bv8 -> string, s: string)
    requires s == ""
    ensures Unpack(dec, Pack(Nibbles(enc, s))) == ""
  {
  }

  lemma UnpackPeel(enc: char -> bv8, dec: bv8 -> string, s: string)
    requires |s| >= 2
    ensures Unpack(dec, Pack(Nibbles(enc, s)))
            == dec((enc(s[1]) << 4) | enc(s[0])) + Unpack(dec, Pack(Nibbles(enc, s[2..])))
  {
    PackPeel(enc, s);
    UnpackCons(dec, (enc(s[1]) << 4) | enc(s[0]), Pack(Nibbles(enc, s[2..])));
  }

  lemma UnpackLast(enc: char -> bv8, dec: bv8 -> string, s: string)
    requires |s| == 1
    ensures Unpack(dec, Pack(Nibbles(enc, s))) == dec(0xF0 | enc(s[0]))
  {
    PackOne(enc, s);
    UnpackCons(dec, 0xF0 | enc(s[0]), []);
  }

  lemma PackOne(enc: char -> bv8, s: string)
    requires |s| == 1
    ensures Pack(Nibbles(enc, s)) == [0xF0 | enc(s[0])] + []
  {
    assert Octet(Nibbles(enc, s), 0) == 0xF0 | enc(s[0]);
  }

  lemma PackPeel(enc: char -> bv8, s: string)
    requires |s| >= 2
    ensures Pack(Nibbles(enc, s)) == [(enc(s[1]) << 4) | enc(s[0])] + Pack(Nibbles(enc, s[2..]))
  {
    var n, rest := Nibbles(enc, s), Nibbles(enc, s[2..]);
    forall k | 0 <= k < |Pack(rest)|
      ensures Octet(n, k + 1) == Octet(rest, k)
    {
      assert n[2 * (k + 1)] == rest[2 * k];
      if 2 * k + 1 < |rest| {
        assert n[2 * (k + 1) + 1] == rest[2 * k + 1];
      }
    }
  }

  // ---------------------------------------------------------------- IMSI (GSUP)

  /** byte(c - '0'), which wraps around below '0'. */
  function ImsiNibble(c: char): bv8 {
    LowByte((c as int) + 208)
  }

  /** '0' + n. */
  function NibbleChar(n: bv8): char {
    (Nat(n) + 48) as char
  }

  lemma DigitNibble(c: char)
    requires IsDigit(c)
    ensures ImsiNibble(c) < 10 && NibbleChar(ImsiNibble(c)) == c
  {
    hide LowByte;
    LowByteAsInt((c as int) + 208);
    assert ((c as int) + 208) % 256 == (c as int) - 48;
    BelowTen(ImsiNibble(c));
  }

  lemma BelowTen(n: bv8)
    ensures n < 10 <==> Nat(n) < 10
  {
  }

  /** Either half of a packed octet can be read back. */
  lemma NibbleHalves(hi: bv8, lo: bv8)
    requires hi < 16 && lo < 16
    ensures ((hi << 4) | lo) & 0x0F == lo && (((hi << 4) | lo) >> 4) & 0x0F == hi
    ensures (0xF0 | lo) & 0x0F == lo && ((0xF0 | lo) >> 4) & 0x0F == 0x0F
  {
  }

  /** The low digit always, the high one unless it is filler. */
  function ImsiChars(b: bv8): string {
    [NibbleChar(b & 0x0F)] + if (b >> 4) & 0x0F != 0x0F then [NibbleChar((b >> 4) & 0x0F)] else ""
  }

  /** Octet k after the first i nibbles have been written into a zeroed buffer. */
  function PartialOctet(n: seq<bv8>, i: nat, k: nat): bv8
    requires i <= |n|
  {
    if 2 * k + 1 < i then n[2 * k] | (n[2 * k + 1] << 4) else if 2 * k < i then n[2 * k] else 0
  }

  method EncodeIMSI(imsi: string) returns (r: Bytes)
    ensures r == Pack(Nibbles(ImsiNibble, imsi))
  {
    r := PackInPlace(Nibbles(ImsiNibble, imsi));
  }

  /** The loop of encodeIMSI: even positions store, odd ones or into the high half, filler last. */
  method PackInPlace(n: seq<bv8>) returns (r: Bytes)
    ensures r == Pack(n)
  {
    var out := new bv8[(|n| + 1) / 2](_ => 0);
    for i := 0 to |n|
      invariant forall k :: 0 <= k < out.Length ==> out[k] == PartialOctet(n, i, k)
    {
      var k := i / 2;
      if i % 2 == 0 {
        assert i == 2 * k;
        out[k] := n[i];
      } else {
        assert i == 2 * k + 1;
        out[k] := out[k] | (n[i] << 4);
      }
    }
    if |n| % 2 != 0 {
      out[out.Length - 1] := out[out.Length - 1] | 0xF0;
    }
    r := out[..];
    assert forall k :: 0 <= k < |r| ==> r[k] == Octet(n, k);
  }

  lemma UnpackNone(dec: bv8 -> string, b: Bytes)
    ensures Unpack(dec, b[..0]) == ""
  {
  }

  lemma UnpackNext(dec: bv8 -> string, b: Bytes, i: nat)
    requires i < |b|
    ensures Unpack(dec, b[..i + 1]) == Unpack(dec, b[..i]) + dec(b[i])
  {
    assert b[..i + 1][..i] == b[..i];
  }

  method DecodeIMSI(b: Bytes) returns (r: string)
    ensures r == Unpack(ImsiChars, b)
  {
    hide NibbleChar, Unpack;
    UnpackNone(ImsiChars, b);
    r := "";
    for i := 0 to |b|
      invariant r == Unpack(ImsiChars, b[..i])
    {
      UnpackNext(ImsiChars, b, i);
      var lo, hi := b[i] & 0x0F, (b[i] >> 4) & 0x0F;
      r := r + [NibbleChar(lo)];
      if hi != 0x0F {
        r := r + [NibbleChar(hi)];
      }
    }
    assert b[..|b|] == b;
  }

  lemma ImsiUndoes()
    ensures UndoesPairs(ImsiNibble, ImsiChars)
  {
    hide ImsiNibble, NibbleChar;
    forall c, d | IsDigit(c) && IsDigit(d)
      ensures ImsiChars((ImsiNibble(d) << 4) | ImsiNibble(c)) == [c, d]
      ensures ImsiChars(0xF0 | ImsiNibble(c)) == [c]
    {
      DigitNibble(c);
      DigitNibble(d);
      NibbleHalves(ImsiNibble(d), ImsiNibble(c));
    }
    assert IsDigit('0');
  }

  /** decodeIMSI inverts encodeIMSI on digit strings of any length. */
  lemma ImsiRoundTrip(imsi: string)
    requires AllDigits(imsi)
    ensures Unpack(ImsiChars, Pack(Nibbles(ImsiNibble, imsi))) == imsi
  {
    ImsiUndoes();
    UnpackOfPack(ImsiNibble, ImsiChars, imsi);
  }

  // ---------------------------------------------------------------- MSISDN (S6c)

  /** msisdnDigitToNibble. */
  function MsisdnNibble(c: char): bv8 {
    if IsDigit(c) then ImsiNibble(c) else if c == 'F' || c == 'f' then 0x0F else 0
  }

  /** msisdnNibbleToDigit. */
  function MsisdnDigit(n: bv8): char {
    if n <= 9 then NibbleChar(n) else 'F'
  }

  function MsisdnChars(b: bv8): string {
    [MsisdnDigit(b & 0x0F), MsisdnDigit((b >> 4) & 0x0F)]
  }

  function StripF(s: string): string {
    if s != "" && s[|s| - 1] == 'F' then StripF(s[..|s| - 1]) else s
  }

  function DecodedMsisdn(b: Bytes): string {
    StripF(Unpack(MsisdnChars, b))
  }

  /** The two-by-two loop of both MSISDN encoders. */
  method PackPairs(n: seq<bv8>) returns (r: Bytes)
    requires |n| % 2 == 0
    ensures r == Pack(n)
  {
    var out := new bv8[|n| / 2];
    for k := 0 to |n| / 2
      invariant forall j :: 0 <= j < k ==> out[j] == Octet(n, j)
    {
      out[k] := (n[2 * k + 1] << 4) | n[2 * k];
    }
    r := out[..];
  }

  /** An explicit filler nibble packs like an odd count. */
  lemma PackFiller(n: seq<bv8>)
    requires |n| % 2 == 1
    ensures Pack(n + [0x0F]) == Pack(n)
  {
    forall k | 0 <= k < |Pack(n)|
      ensures Octet(n + [0x0F], k) == Octet(n, k)
    {
    }
  }

  /**
   On digits it packs like the others; F of either case is filler, and any other character a zero. A half that is no
   digit reads as F.
   */
  lemma MsisdnNibbles(digits: string, c: char, n: bv8)
    requires AllDigits(digits)
    ensures n < 16 ==> MsisdnDigit(n) == if n as int < 10 then (48 + n as int) as char else 'F'
    ensures Pack(Nibbles(MsisdnNibble, digits)) == Pack(Nibbles(ImsiNibble, digits))
    ensures !IsDigit(c) ==> MsisdnNibble(c) == if c == 'F' || c == 'f' then 0x0F else 0x00
  {
    assert Nibbles(MsisdnNibble, digits) == Nibbles(ImsiNibble, digits);
    NatIsInt(n);
  }

  method EncodeMSISDNBytes(msisdn: string) returns (r: Bytes)
    ensures r == Pack(Nibbles(MsisdnNibble, msisdn))
  {
    var s := msisdn;
    if |s| % 2 != 0 {
      s := s + "F";
      PackFiller(Nibbles(MsisdnNibble, msisdn));
      assert Nibbles(MsisdnNibble, s) == Nibbles(MsisdnNibble, msisdn) + [0x0F];
    }
    r := PackPairs(Nibbles(MsisdnNibble, s));
  }

  method DecodeMSISDN(b: Bytes) returns (r: string)
    ensures r == DecodedMsisdn(b)
  {
    r := "";
    for i := 0 to |b|
      invariant r == Unpack(MsisdnChars, b[..i])
    {
      assert b[..i + 1][..i] == b[..i];
      r := r + [MsisdnDigit(b[i] & 0x0F), MsisdnDigit((b[i] >> 4) & 0x0F)];
    }
    assert b[..|b|] == b;
    while r != "" && r[|r| - 1] == 'F'
      invariant StripF(r) == DecodedMsisdn(b)
      decreases |r|
    {
      r := r[..|r| - 1];
    }
  }

  /** What one character becomes on the way through both functions. */
  function MsisdnNorm(c: char): char {
    if IsDigit(c) then c else if c == 'F' || c == 'f' then 'F' else '0'
  }

  /** The characters the two functions give back before trailing filler is stripped. */
  function Normed(s: string): (r: string)
    ensures |s| <= |r| <= |s| + 1
    ensures forall i :: 0 <= i < |s| ==> r[i] == MsisdnNorm(s[i])
    ensures |r| == |s| + 1 ==> r[|s|] == 'F'
  {
    if s == "" then ""
    else if |s| == 1 then [MsisdnNorm(s[0]), 'F']
    else [MsisdnNorm(s[0]), MsisdnNorm(s[1])] + Normed(s[2..])
  }

  lemma MsisdnOne(c: char)
    ensures MsisdnNibble(c) < 16 && MsisdnDigit(MsisdnNibble(c)) == MsisdnNorm(c)
  {
    if IsDigit(c) {
      DigitNibble(c);
    }
    assert NibbleChar(0) == '0';
  }

  lemma MsisdnPair(c: char, d: char)
    ensures MsisdnChars((MsisdnNibble(d) << 4) | MsisdnNibble(c)) == [MsisdnNorm(c), MsisdnNorm(d)]
    ensures MsisdnChars(0xF0 | MsisdnNibble(c)) == [MsisdnNorm(c), 'F']
  {
    MsisdnOne(c);
    MsisdnOne(d);
    NibbleHalves(MsisdnNibble(d), MsisdnNibble(c));
  }

  lemma {:induction false} StripFIs(s: string)
    ensures StripF(s) <= s
    ensures StripF(s) == "" || StripF(s)[|StripF(s)| - 1] != 'F'
  {
    if s != "" && s[|s| - 1] == 'F' {
      StripFIs(s[..|s| - 1]);
    }
  }

  lemma {:induction false} MsisdnUnpacked(s: string)
    ensures Unpack(MsisdnChars, Pack(Nibbles(MsisdnNibble, s))) == Normed(s)
    decreases |s|
  {
    if |s| == 1 {
      UnpackLast(MsisdnNibble, MsisdnChars, s);
      MsisdnPair(s[0], s[0]);
    } else if |s| > 1 {
      MsisdnUnpacked(s[2..]);
      UnpackPeel(MsisdnNibble, MsisdnChars, s);
      MsisdnPair(s[0], s[1]);
    }
  }

  predicate Survives(s: string) {
    (forall c :: c in s ==> IsDigit(c) || c == 'F') && (s == "" || s[|s| - 1] != 'F')
  }

  /** The pair inverts on exactly the strings of digits and inner F characters; all digit strings are among them. */
  lemma MsisdnRoundTripIff(s: string)
    ensures DecodedMsisdn(Pack(Nibbles(MsisdnNibble, s))) == s <==> Survives(s)
    ensures AllDigits(s) ==> Survives(s)
  {
    hide Nibbles, Pack, Unpack, Normed, MsisdnNibble, MsisdnChars;
    MsisdnUnpacked(s);
    var all := Normed(s);
    var m := all[..|s|];
    assert all == m || (all == m + ['F'] && StripF(all) == StripF(m));
    StripFIs(m);
    if Survives(s) {
      assert forall i :: 0 <= i < |s| ==> s[i] in s;
      assert m == s;
    }
    if StripF(m) == s {
      assert forall i :: 0 <= i < |s| ==> s[i] == m[i];
    }
  }

  // ---------------------------------------------------------------- MSISDN (Sh and GSUP)

  /** decodeTBCD: digits in order, filler nibbles dropped wherever they stand. */
  function ShChars(b: bv8): (s: string)
    ensures |s| <= 2
  {
    var lo, hi := b & 0x0F, (b >> 4) & 0x0F;
    (if lo != 0x0F then [NibbleChar(lo)] else "") + if hi != 0x0F then [NibbleChar(hi)] else ""
  }

  /** looksLikeAddressTONNPI. */
  predicate LooksLikeTon(b: bv8) {
    b & 0x80 != 0
  }

  function ShDecoded(b: Bytes): string {
    if b == [] then ""
    else if TakenAsAddressString(b) then
      var payload := b[2..];
      var n := Nat(b[0]) - 1;
      Unpack(ShChars, if 0 <= n < |payload| then payload[..n] else payload)
    else if LooksLikeTon(b[0]) then Unpack(ShChars, b[1..])
    else Unpack(ShChars, b)
  }

  predicate TakenAsAddressString(b: Bytes) {
    |b| >= 2 && LooksLikeTon(b[1]) && Nat(b[0]) <= |b| - 1
  }

  method ShDecodeTBCD(b: Bytes) returns (r: string)
    ensures r == Unpack(ShChars, b)
  {
    hide NibbleChar, Unpack;
    UnpackNone(ShChars, b);
    r := "";
    for i := 0 to |b|
      invariant r == Unpack(ShChars, b[..i])
    {
      UnpackNext(ShChars, b, i);
      var lo, hi := b[i] & 0x0F, (b[i] >> 4) & 0x0F;
      if lo != 0x0F {
        r := r + [NibbleChar(lo)];
      }
      if hi != 0x0F {
        r := r + [NibbleChar(hi)];
      }
    }
    assert b[..|b|] == b;
  }

  /** The MSISDN as packed digits, the one payload of all three forms. */
  function Packed(digits: string): Bytes {
    Pack(Nibbles(ImsiNibble, digits))
  }

  /** What stands in a half: a digit, or filler. */
  function HalfValue(s: string, i: nat): nat {
    if i < |s| && IsDigit(s[i]) then DigitValue(s[i]) else 15
  }

  /** In numbers: each octet holds its first digit in the low half and its second, or 15, in the high half. */
  lemma PackedValues(digits: string, k: nat)
    requires AllDigits(digits) && 2 * k < |digits|
    ensures |Packed(digits)| == (|digits| + 1) / 2
    ensures Packed(digits)[k] as int == HalfValue(digits, 2 * k) + 16 * HalfValue(digits, 2 * k + 1)
  {
    hide ImsiNibble;
    var n := Nibbles(ImsiNibble, digits);
    NibbleValue(digits[2 * k]);
    if 2 * k + 1 < |digits| {
      NibbleValue(digits[2 * k + 1]);
      assert n[2 * k + 1] == ImsiNibble(digits[2 * k + 1]);
    }
    assert n[2 * k] == ImsiNibble(digits[2 * k]);
    HalvesValue(if 2 * k + 1 < |digits| then n[2 * k + 1] else 0x0F, n[2 * k]);
  }

  lemma NibbleValue(c: char)
    requires IsDigit(c)
    ensures ImsiNibble(c) < 10 && ImsiNibble(c) as int == DigitValue(c)
  {
    hide LowByte;
    DigitNibble(c);
    NatIsInt(ImsiNibble(c));
    LowByteAsInt((c as int) + 208);
    assert ((c as int) + 208) % 256 == (c as int) - 48;
  }

  lemma HalvesValue(hi: bv8, lo: bv8)
    requires hi < 16 && lo < 16
    ensures ((hi << 4) | lo) as int == 16 * (hi as int) + lo as int
    ensures hi == 0x0F ==> 0xF0 | lo == (hi << 4) | lo
  {
  }

  lemma ShUndoes()
    ensures UndoesPairs(ImsiNibble, ShChars)
  {
    hide ImsiNibble, NibbleChar;
    forall c, d | IsDigit(c) && IsDigit(d)
      ensures ShChars((ImsiNibble(d) << 4) | ImsiNibble(c)) == [c, d]
      ensures ShChars(0xF0 | ImsiNibble(c)) == [c]
    {
      DigitNibble(c);
      DigitNibble(d);
      NibbleHalves(ImsiNibble(d), ImsiNibble(c));
    }
    assert IsDigit('0');
  }

  lemma ShRoundTrip(digits: string)
    requires AllDigits(digits)
    ensures Unpack(ShChars, Packed(digits)) == digits
  {
    ShUndoes();
    UnpackOfPack(ImsiNibble, ShChars, digits);
  }

  lemma {:induction false} ShLength(b: Bytes)
    ensures |Unpack(ShChars, b)| <= 2 * |b|
  {
    if b != [] {
      ShLength(b[..|b| - 1]);
    }
  }

  /** Length octet, TON/NPI octet, digits: always read correctly. */
  lemma ShAddressString(digits: string, ton: bv8)
    requires AllDigits(digits) && LooksLikeTon(ton) && |Packed(digits)| < 255
    ensures ShDecoded([LowByte(1 + |Packed(digits)|), ton] + Packed(digits)) == digits
  {
    hide Nat, LowByte, Packed, Unpack, ShChars;
    var p := Packed(digits);
    var b := [LowByte(1 + |p|), ton] + p;
    LowByteAsInt(1 + |p|);
    assert b[2..] == p;
    ShRoundTrip(digits);
  }

  /** TON/NPI octet then digits: read correctly unless the octets pass for the address-string form. */
  lemma ShTonForm(digits: string, ton: bv8)
    requires AllDigits(digits) && LooksLikeTon(ton)
    ensures ShDecoded([ton] + Packed(digits)) == digits <==> !TakenAsAddressString([ton] + Packed(digits))
    ensures |Packed(digits)| < 128 ==> !TakenAsAddressString([ton] + Packed(digits))
  {
    hide Nat, Unpack, ShChars;
    var p := Packed(digits);
    var b := [ton] + p;
    assert b[1..] == p;
    TonIsHigh(ton);
    ShRoundTrip(digits);
    if TakenAsAddressString(b) {
      var payload := b[2..];
      var n := Nat(b[0]) - 1;
      ShLength(if 0 <= n < |payload| then payload[..n] else payload);
    }
  }

  lemma TonIsHigh(ton: bv8)
    requires LooksLikeTon(ton)
    ensures Nat(ton) >= 128
  {
    assert ton >= 0x80;
  }

  /** Bare digits: read correctly exactly when neither leading octet passes for a TON/NPI octet. */
  lemma ShBareForm(digits: string)
    requires AllDigits(digits)
    ensures ShDecoded(Packed(digits)) == digits
            <==> digits == "" || (!TakenAsAddressString(Packed(digits)) && !LooksLikeTon(Packed(digits)[0]))
  {
    hide Nat, Unpack, ShChars;
    var p := Packed(digits);
    ShRoundTrip(digits);
    if TakenAsAddressString(p) {
      var payload := p[2..];
      var n := Nat(p[0]) - 1;
      ShLength(if 0 <= n < |payload| then payload[..n] else payload);
    } else if p != [] && LooksLikeTon(p[0]) {
      ShLength(p[1..]);
    }
  }

  /** In digits: a bare number whose second digit is 8 or 9 loses its first octet. */
  lemma ShSecondDigit(digits: string)
    requires AllDigits(digits) && |digits| >= 2
    ensures LooksLikeTon(Packed(digits)[0]) <==> digits[1] == '8' || digits[1] == '9'
  {
    var n := Nibbles(ImsiNibble, digits);
    DigitNibble(digits[0]);
    DigitNibble(digits[1]);
    assert n[0] == ImsiNibble(digits[0]) && n[1] == ImsiNibble(digits[1]);
    HighBit(n[1], n[0]);
  }

  lemma HighBit(hi: bv8, lo: bv8)
    requires hi < 10 && lo < 10
    ensures ((hi << 4) | lo) & 0x80 != 0 <==> hi >= 8
  {
  }

  /** GSUP encodeMSISDN: a leading plus dropped, 0x91, packed digits with any non-digit as filler. */
  method GsupEncodeMSISDN(msisdn: string) returns (r: Bytes)
    ensures var s := if msisdn != "" && msisdn[0] == '+' then msisdn[1..] else msisdn;
            r == [0x91] + Pack(Nibbles(GsupNibble, s))
  {
    var t := if msisdn != "" && msisdn[0] == '+' then msisdn[1..] else msisdn;
    var s := t;
    if |s| % 2 != 0 {
      s := s + "F";
      PackFiller(Nibbles(GsupNibble, t));
      assert Nibbles(GsupNibble, s) == Nibbles(GsupNibble, t) + [0x0F];
    }
    var pairs := PackPairs(Nibbles(GsupNibble, s));
    r := [0x91] + pairs;
  }

  function GsupNibble(c: char): bv8 {
    if IsDigit(c) then ImsiNibble(c) else 0x0F
  }

  lemma InternationalTon()
    ensures Nat(0x91) == 145 && LooksLikeTon(0x91)
  {
  }

  /**
   What GSUP inserts, the Sh decoder reads back as the same digits, unless 0x91 passes for a length: that takes at
   least 289 digits, the second of them 8 or 9.
   */
  lemma GsupMsisdnReadBySh(digits: string)
    requires AllDigits(digits)
    ensures ShDecoded([0x91] + Pack(Nibbles(GsupNibble, digits))) == digits
            <==> |digits| < 289 || (digits[1] != '8' && digits[1] != '9')
  {
    hide Nat, LooksLikeTon, ShDecoded;
    assert Nibbles(GsupNibble, digits) == Nibbles(ImsiNibble, digits);
    InternationalTon();
    ShTonForm(digits, 0x91);
    if |digits| >= 289 {
      ShSecondDigit(digits);
    }
  }
}

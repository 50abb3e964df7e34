/**
 SUCI de-concealment (internal/udm/hnet.go and suci.go; section C.3 of TS 33.501). The curves, HKDF, HMAC and
 the AES counter keystream are parameters.
 */
module Suci {
  import opened Bytes
  import opened Text
  import opened Tbcd

  // ---------------------------------------------------------------- MSIN digits

  /** Packed decimal with the first digit in the high half; an odd count ends in a 0xF half. */
  function HighOctet(n: seq<bv8>, k: nat): bv8
    requires 2 * k < |n|
  {
    (n[2 * k] << 4) | (if 2 * k + 1 < |n| then n[2 * k + 1] else 0x0F)
  }

  function PackHigh(n: seq<bv8>): (b: Bytes)
    ensures |b| == (|n| + 1) / 2
    ensures forall k {:trigger b[k]} :: 0 <= k < |b| ==> b[k] == HighOctet(n, k)
  {
    seq((|n| + 1) / 2, k requires 0 <= k < (|n| + 1) / 2 => HighOctet(n, k))
  }

  /** One half of an octet: the high one first. */
  function Half(b: bv8, low: bool): bv8 {
    if low then b & 0x0F else (b >> 4) & 0x0F
  }

  /** What decodeMSINBCD reads: both halves of every octet, but not a 0xF low half of the last one. */
  function MsinWith(ch: bv8 -> char, b: Bytes): (s: string)
    ensures |s| == if b != [] && Half(b[|b| - 1], true) == 0x0F then 2 * |b| - 1 else 2 * |b|
    ensures forall i {:trigger s[i]} :: 0 <= i < |s| ==> s[i] == ch(Half(b[i / 2], i % 2 == 1))
  {
    if b == [] then ""
    else if |b| == 1 && Half(b[0], true) == 0x0F then [ch(Half(b[0], false))]
    else
      var rest := MsinWith(ch, b[1..]);
      [ch(Half(b[0], false)), ch(Half(b[0], true))] + rest
  }

  function MsinText(b: Bytes): string {
    MsinWith(NibbleChar, b)
  }

  method DecodeMSINBCD(b: Bytes) returns (digits: string)
    ensures digits == MsinText(b)
  {
    hide MsinWith, NibbleChar;
    digits := "";
    ghost var all := MsinText(b);
    for i := 0 to |b|
      invariant 2 * i <= |all| && digits == all[..2 * i]
    {
      var hi, lo := (b[i] >> 4) & 0x0F, b[i] & 0x0F;
      assert all[2 * i] == NibbleChar(Half(b[i], false));
      digits := digits + [NibbleChar(hi)];
      if i == |b| - 1 && lo == 0x0F {
        return;
      }
      assert all[2 * i + 1] == NibbleChar(Half(b[i], true));
      digits := digits + [NibbleChar(lo)];
    }
  }

  /** Generic over the digit codes: reading inverts packing, for odd and even counts. */
  lemma MsinRoundTripWith(enc: char -> bv8, ch: bv8 -> char, msin: string)
    requires forall i :: 0 <= i < |msin| ==> enc(msin[i]) < 10 && ch(enc(msin[i])) == msin[i]
    ensures MsinWith(ch, PackHigh(Nibbles(enc, msin))) == msin
  {
    hide MsinWith;
    var n := Nibbles(enc, msin);
    var b := PackHigh(n);
    var s := MsinWith(ch, b);
    forall i | 0 <= i < 2 * |b|
      ensures Half(b[i / 2], i % 2 == 1) == if i < |n| then n[i] else 0x0F
    {
      var k := i / 2;
      NibbleHalves(n[2 * k], if 2 * k + 1 < |n| then n[2 * k + 1] else 0x0F);
    }
    if msin != "" {
      assert (2 * |b| - 1) / 2 == |b| - 1;
    }
  }

  lemma MsinRoundTrip(msin: string)
    requires AllDigits(msin)
    ensures MsinText(PackHigh(Nibbles(ImsiNibble, msin))) == msin
  {
    forall i | 0 <= i < |msin|
      ensures ImsiNibble(msin[i]) < 10 && NibbleChar(ImsiNibble(msin[i])) == msin[i]
    {
      DigitNibble(msin[i]);
    }
    MsinRoundTripWith(ImsiNibble, NibbleChar, msin);
  }

  /** An even number of digits, in pairs of equal digits. */
  predicate EqualPairs(msin: string) {
    forall i :: 0 <= i < |msin| && i % 2 == 0 ==> i + 1 < |msin| && msin[i] == msin[i + 1]
  }

  /** Digits packed low half first come out pairwise exchanged, and filler as a character. */
  lemma SwappedHalves(n: seq<bv8>, i: nat)
    requires i < 2 * |Pack(n)| && forall j :: 0 <= j < |n| ==> n[j] < 10
    ensures Half(Pack(n)[i / 2], i % 2 == 1)
            == if i % 2 == 1 then n[i - 1] else if i + 1 < |n| then n[i + 1] else 0x0F
  {
    var k := i / 2;
    assert i == 2 * k || i == 2 * k + 1;
    NibbleHalves(if 2 * k + 1 < |n| then n[2 * k + 1] else 0x0F, n[2 * k]);
  }

  lemma SwappedText(ch: bv8 -> char, n: seq<bv8>)
    requires forall j :: 0 <= j < |n| ==> n[j] < 10
    ensures |MsinWith(ch, Pack(n))| == 2 * |Pack(n)|
    ensures forall i :: 0 <= i < 2 * |Pack(n)| ==>
              MsinWith(ch, Pack(n))[i] == ch(if i % 2 == 1 then n[i - 1] else if i + 1 < |n| then n[i + 1] else 0x0F)
  {
    var b := Pack(n);
    if b != [] {
      var last := 2 * |b| - 1;
      assert last / 2 == |b| - 1 && last % 2 == 1;
      SwappedHalves(n, last);
    }
    forall i | 0 <= i < 2 * |b|
      ensures MsinWith(ch, b)[i] == ch(if i % 2 == 1 then n[i - 1] else if i + 1 < |n| then n[i + 1] else 0x0F)
    {
      SwappedHalves(n, i);
    }
  }

  lemma SwappedWith(enc: char -> bv8, ch: bv8 -> char, msin: string)
    requires forall i :: 0 <= i < |msin| ==> enc(msin[i]) < 10 && ch(enc(msin[i])) == msin[i]
    requires ch(0x0F) !in msin
    ensures MsinWith(ch, Pack(Nibbles(enc, msin))) == msin <==> EqualPairs(msin)
  {
    var n := Nibbles(enc, msin);
    var s := MsinWith(ch, Pack(n));
    SwappedText(ch, n);
    forall i | 0 <= i < |s|
      ensures s[i] == if i % 2 == 1 then msin[i - 1] else if i + 1 < |msin| then msin[i + 1] else ch(0x0F)
    {
    }
    PairSwap(msin, s, ch(0x0F));
  }

  lemma PairSwap(m: string, s: string, filler: char)
    requires filler !in m && |s| == |m| + |m| % 2
    requires forall i :: 0 <= i < |s| ==>
               s[i] == if i % 2 == 1 then m[i - 1] else if i + 1 < |m| then m[i + 1] else filler
    ensures s == m <==> EqualPairs(m)
  {
    if EqualPairs(m) {
      assert |m| > 0 ==> (|m| - 1) % 2 == 1;
      forall i | 0 <= i < |m|
        ensures s[i] == m[i]
      {
        var even := if i % 2 == 0 then i else i - 1;
        assert m[even] == m[even + 1];
      }
    }
    if s == m {
      forall i | 0 <= i < |m| && i % 2 == 0
        ensures i + 1 < |m| && m[i] == m[i + 1]
      {
        assert s[i] == m[i] && m[i] in m;
      }
    }
  }

  /**
   TS 24.501 packs MSIN digits with the first one in the low half (as module Tbcd does). On that packing this
   decoder recovers the MSIN exactly when its length is even and its digits come in equal pairs.
   */
  lemma LowFirstPackingMisread(msin: string)
    requires AllDigits(msin)
    ensures MsinText(Pack(Nibbles(ImsiNibble, msin))) == msin <==> EqualPairs(msin)
  {
    forall i | 0 <= i < |msin|
      ensures ImsiNibble(msin[i]) < 10 && NibbleChar(ImsiNibble(msin[i])) == msin[i]
    {
      DigitNibble(msin[i]);
    }
    assert !IsDigit(NibbleChar(0x0F));
    SwappedWith(ImsiNibble, NibbleChar, msin);
  }

  // ---------------------------------------------------------------- ECIES

  type Okm = b: Bytes | |b| == 64 witness seq(64, _ => 0)

  type Sum = b: Bytes | |b| == 32 witness seq(32, _ => 0)

  datatype Primitives = Primitives(
    acceptsKey: (int, Bytes) -> bool,
    ecdh: (Bytes, Bytes) -> Option<Bytes>,
    hkdf: (Bytes, Bytes) -> Okm,
    hmac: (Bytes, Bytes) -> Sum,
    keystream: (Bytes, Bytes, nat) -> bv8)
  {
    /** AES-128-CTR, in either direction. */
    function Ctr(key: Bytes, icb: Bytes, text: Bytes): (r: Bytes)
      ensures |r| == |text|
    {
      seq(|text|, i requires 0 <= i < |text| => text[i] ^ keystream(key, icb, i))
    }

    function Tag(macKey: Bytes, text: Bytes): (r: Bytes)
      ensures |r| == 8
    {
      hmac(macKey, text)[..8]
    }
  }

  datatype HnetKey = HnetKey(scheme: int, priv: Bytes)

  type KeyStore = map<int, HnetKey>

  /** Octets of the ephemeral key: X25519, or a compressed P-256 point. */
  function EphLen(scheme: int): nat {
    if scheme == 2 then 33 else 32
  }

  function SharedKeys(p: Primitives, secret: Bytes, ephPub: Bytes): (Bytes, Bytes, Bytes) {
    var okm := p.hkdf(secret, ephPub);
    (okm[..16], okm[16..32], okm[32..])
  }

  /** HNetKeyStore.Decrypt. */
  function Decrypt(p: Primitives, keys: KeyStore, scheme: int, keyId: int, output: Bytes): Result<string> {
    if scheme != 1 && scheme != 2 then Err
    else if keyId !in keys || keys[keyId].scheme != scheme then Err
    else if |output| < EphLen(scheme) + 8 then Err
    else
      var ephPub := output[..EphLen(scheme)];
      var tag := output[|output| - 8..];
      var enc := output[EphLen(scheme)..|output| - 8];
      if !p.acceptsKey(scheme, ephPub) then Err
      else
        match p.ecdh(keys[keyId].priv, ephPub)
        case None => Err
        case Some(secret) =>
          var (encKey, icb, macKey) := SharedKeys(p, secret, ephPub);
          if p.Tag(macKey, enc) != tag then Err else Ok(MsinText(p.Ctr(encKey, icb, enc)))
  }

  /** Octets of the terminal's ephemeral public key: 32 for profile A, 33 for the compressed point of profile B. */
  predicate IsProfile(scheme: int, ephPub: Bytes) {
    (scheme == 1 && |ephPub| == 32) || (scheme == 2 && |ephPub| == 33)
  }

  /** The MSIN in numbers: the first digit of each octet in its high half, and 15 after an odd last one. */
  predicate PacksHigh(packed: Bytes, msin: string)
    requires AllDigits(msin)
  {
    && |packed| == (|msin| + 1) / 2
    && forall k :: 0 <= k < |packed| ==>
         packed[k] as int == 16 * DigitValue(msin[2 * k])
                             + if 2 * k + 1 < |msin| then DigitValue(msin[2 * k + 1]) else 15
  }

  lemma PacksHighIs(packed: Bytes, msin: string)
    requires AllDigits(msin)
    ensures PacksHigh(packed, msin) <==> packed == PackHigh(Nibbles(ImsiNibble, msin))
  {
    var n := Nibbles(ImsiNibble, msin);
    forall k | 0 <= k < |PackHigh(n)|
      ensures PackHigh(n)[k] as int == 16 * DigitValue(msin[2 * k])
                                       + if 2 * k + 1 < |msin| then DigitValue(msin[2 * k + 1]) else 15
    {
      HighOctetValue(msin, k);
    }
    if PacksHigh(packed, msin) {
      assert forall k :: 0 <= k < |packed| ==> packed[k] as int == PackHigh(n)[k] as int;
    }
  }

  lemma HighOctetValue(msin: string, k: nat)
    requires AllDigits(msin) && 2 * k < |msin|
    ensures HighOctet(Nibbles(ImsiNibble, msin), k) as int
            == 16 * DigitValue(msin[2 * k]) + if 2 * k + 1 < |msin| then DigitValue(msin[2 * k + 1]) else 15
  {
    hide ImsiNibble;
    var n := Nibbles(ImsiNibble, msin);
    NibbleValue(msin[2 * k]);
    if 2 * k + 1 < |msin| {
      NibbleValue(msin[2 * k + 1]);
      assert n[2 * k + 1] == ImsiNibble(msin[2 * k + 1]);
    }
    assert n[2 * k] == ImsiNibble(msin[2 * k]);
    HalvesValue(n[2 * k], if 2 * k + 1 < |msin| then n[2 * k + 1] else 0x0F);
  }

  /**
   The terminal's side of section C.3 of TS 33.501: of the 64 octets derived from the shared secret and the ephemeral
   key, the first 16 are the encryption key, the next 16 the initial counter block and the last 32 the MAC key; the
   output is the ephemeral key, the encrypted MSIN, and the first 8 octets of its MAC.
   */
  predicate IsConcealment(p: Primitives, secret: Bytes, ephPub: Bytes, packed: Bytes, output: Bytes) {
    var okm, n := p.hkdf(secret, ephPub), |ephPub|;
    && |output| == n + |packed| + 8 && output[..n] == ephPub
    && (forall i :: 0 <= i < |packed| ==> output[n + i] == packed[i] ^ p.keystream(okm[..16], okm[16..32], i))
    && output[n + |packed|..] == p.hmac(okm[32..64], output[n..n + |packed|])[..8]
  }

  lemma CtrInvolution(p: Primitives, key: Bytes, icb: Bytes, text: Bytes)
    ensures p.Ctr(key, icb, p.Ctr(key, icb, text)) == text
  {
    var r := p.Ctr(key, icb, p.Ctr(key, icb, text));
    assert forall i :: 0 <= i < |text| ==> r[i] == text[i];
  }

  /** The parts of a concealment as the receiver takes them apart. */
  lemma ConcealmentParts(p: Primitives, secret: Bytes, ephPub: Bytes, packed: Bytes, output: Bytes)
    requires IsConcealment(p, secret, ephPub, packed, output)
    ensures var (encKey, icb, macKey) := SharedKeys(p, secret, ephPub);
            var enc := output[|ephPub|..|output| - 8];
            p.Ctr(encKey, icb, enc) == packed && p.Tag(macKey, enc) == output[|output| - 8..]
  {
    var (encKey, icb, macKey) := SharedKeys(p, secret, ephPub);
    var okm := p.hkdf(secret, ephPub);
    var enc := output[|ephPub|..|output| - 8];
    assert okm[32..] == okm[32..64] && |ephPub| + |packed| == |output| - 8;
    assert enc == p.Ctr(encKey, icb, packed);
    CtrInvolution(p, encKey, icb, packed);
  }

  /**
   With a key of the scheme loaded and both sides agreeing on the secret, de-concealment inverts concealment for
   every MSIN exactly when the curve library accepts the terminal's ephemeral key.
   */
  lemma DecryptInvertsConceal(p: Primitives, keys: KeyStore, scheme: int, keyId: int, ephPub: Bytes, secret: Bytes,
                              msin: string, packed: Bytes, output: Bytes)
    requires IsProfile(scheme, ephPub) && keyId in keys && keys[keyId].scheme == scheme
    requires p.ecdh(keys[keyId].priv, ephPub) == Some(secret) && AllDigits(msin) && PacksHigh(packed, msin)
    requires IsConcealment(p, secret, ephPub, packed, output)
    ensures Decrypt(p, keys, scheme, keyId, output) == Ok(msin) <==> p.acceptsKey(scheme, ephPub)
    ensures !p.acceptsKey(scheme, ephPub) ==> Decrypt(p, keys, scheme, keyId, output) == Err
  {
    hide MsinWith, IsConcealment;
    PacksHighIs(packed, msin);
    MsinRoundTrip(msin);
    ConcealmentParts(p, secret, ephPub, packed, output);
    ConcealmentSize(p, secret, ephPub, packed, output);
  }

  lemma ConcealmentSize(p: Primitives, secret: Bytes, ephPub: Bytes, packed: Bytes, output: Bytes)
    requires IsConcealment(p, secret, ephPub, packed, output)
    ensures |output| == |ephPub| + |packed| + 8 && output[..|ephPub|] == ephPub
  {
  }

  /** Output with the right MAC is the concealment of what it decrypts to. */
  lemma MacMakesConcealment(p: Primitives, secret: Bytes, ephPub: Bytes, output: Bytes) returns (packed: Bytes)
    requires |output| >= |ephPub| + 8 && output[..|ephPub|] == ephPub
    requires p.Tag(SharedKeys(p, secret, ephPub).2, output[|ephPub|..|output| - 8]) == output[|output| - 8..]
    ensures IsConcealment(p, secret, ephPub, packed, output)
    ensures var (encKey, icb, macKey) := SharedKeys(p, secret, ephPub);
            packed == p.Ctr(encKey, icb, output[|ephPub|..|output| - 8])
  {
    var (encKey, icb, macKey) := SharedKeys(p, secret, ephPub);
    var enc := output[|ephPub|..|output| - 8];
    var okm := p.hkdf(secret, ephPub);
    packed := p.Ctr(encKey, icb, enc);
    assert okm[32..] == okm[32..64] && |ephPub| + |packed| == |output| - 8;
    CtrInvolution(p, encKey, icb, enc);
    assert forall i :: 0 <= i < |packed| ==> output[|ephPub| + i] == enc[i];
  }

  /** Refusals are complete: anything accepted is a concealment, under a loaded key of the right scheme. */
  lemma AcceptedIsConcealed(p: Primitives, keys: KeyStore, scheme: int, keyId: int, output: Bytes)
    requires Decrypt(p, keys, scheme, keyId, output).Ok?
    ensures keyId in keys && keys[keyId].scheme == scheme
    ensures exists ephPub, secret, packed ::
              && IsProfile(scheme, ephPub) && p.acceptsKey(scheme, ephPub)
              && p.ecdh(keys[keyId].priv, ephPub) == Some(secret)
              && IsConcealment(p, secret, ephPub, packed, output)
              && Decrypt(p, keys, scheme, keyId, output) == Ok(MsinText(packed))
  {
    hide MsinWith, IsConcealment;
    var ephPub := output[..EphLen(scheme)];
    var secret := p.ecdh(keys[keyId].priv, ephPub).value;
    var packed := MacMakesConcealment(p, secret, ephPub, output);
    assert IsProfile(scheme, ephPub) && p.acceptsKey(scheme, ephPub);
  }

  // ---------------------------------------------------------------- SUPI and SUCI strings

  predicate HasPrefix(s: string, prefix: string) {
    |s| >= |prefix| && s[..|prefix|] == prefix
  }

  /** ParseSUPIWithKeys; keys may be absent. */
  function ParseSUPI(p: Primitives, supi: string, keys: Option<KeyStore>): Result<string> {
    if HasPrefix(supi, "imsi-") then Ok(supi[5..])
    else if HasPrefix(supi, "suci-") then ParseSUCI(p, supi, keys)
    else Err
  }

  function ParseSUCI(p: Primitives, suci: string, keys: Option<KeyStore>): Result<string> {
    ParseParts(p, SplitN(suci, '-', 8), keys)
  }

  function ParseParts(p: Primitives, parts: seq<string>, keys: Option<KeyStore>): Result<string> {
    if |parts| != 8 || Atoi(parts[5]) == None || Atoi(parts[6]) == None then Err
    else if Atoi(parts[5]) == Some(0) then Ok(parts[2] + parts[3] + parts[7])
    else if keys == None then Err
    else
      match DecodeHex(parts[7])
      case None => Err
      case Some(output) =>
        match Decrypt(p, keys.value, Atoi(parts[5]).value, Atoi(parts[6]).value, output)
        case Err => Err
        case Ok(msin) => Ok(parts[2] + parts[3] + msin)
  }

  /** suci-type-mcc-mnc-routing-scheme-key-output. */
  function SuciText(mcc: string, mnc: string, routing: string, scheme: int, keyId: int, output: string): string {
    "suci-0-" + mcc + "-" + mnc + "-" + routing + "-" + Itoa(scheme) + "-" + Itoa(keyId) + "-" + output
  }

  lemma SuciTextIsJoin(mcc: string, mnc: string, routing: string, scheme: int, keyId: int, output: string)
    ensures SuciText(mcc, mnc, routing, scheme, keyId, output)
            == Join(["suci", "0", mcc, mnc, routing, Itoa(scheme), Itoa(keyId), output], '-')
  {
    hide Join, Itoa;
    var parts := ["suci", "0", mcc, mnc, routing, Itoa(scheme), Itoa(keyId), output];
    var last2 := [Itoa(keyId)] + [output];
    var last3 := [Itoa(scheme)] + last2;
    var last4 := [routing] + last3;
    var last5 := [mnc] + last4;
    var last6 := [mcc] + last5;
    assert parts == ["suci"] + (["0"] + last6);
    JoinPeels(output, [], '-');
    JoinPeels(Itoa(keyId), [output], '-');
    JoinPeels(Itoa(scheme), last2, '-');
    JoinPeels(routing, last3, '-');
    JoinPeels(mnc, last4, '-');
    JoinPeels(mcc, last5, '-');
    JoinPeels("0", last6, '-');
    JoinPeels("suci", ["0"] + last6, '-');
  }

  lemma SuciFields(mcc: string, mnc: string, routing: string, scheme: int, keyId: int, output: string)
    requires '-' !in mcc && '-' !in mnc && '-' !in routing && 0 <= scheme <= 255 && 0 <= keyId <= 255
    ensures var parts := SplitN(SuciText(mcc, mnc, routing, scheme, keyId, output), '-', 8);
            && |parts| == 8 && parts[2] == mcc && parts[3] == mnc && parts[7] == output
            && Atoi(parts[5]) == Some(scheme) && Atoi(parts[6]) == Some(keyId)
    ensures HasPrefix(SuciText(mcc, mnc, routing, scheme, keyId, output), "suci-")
  {
    var parts := ["suci", "0", mcc, mnc, routing, Itoa(scheme), Itoa(keyId), output];
    hide SuciText, Join, SplitN, Itoa, Atoi;
    SuciTextIsJoin(mcc, mnc, routing, scheme, keyId, output);
    AtoiOfItoa(scheme);
    AtoiOfItoa(keyId);
    ItoaUnsigned(scheme);
    ItoaUnsigned(keyId);
    assert '-' !in "suci" && '-' !in "0";
    SplitNOfJoin(parts, '-');
    SuciPrefix(mcc, mnc, routing, scheme, keyId, output);
  }

  lemma ItoaUnsigned(n: nat)
    ensures '-' !in Itoa(n)
  {
    assert AllDigits(Itoa(n));
  }

  lemma SuciPrefix(mcc: string, mnc: string, routing: string, scheme: int, keyId: int, output: string)
    ensures HasPrefix(SuciText(mcc, mnc, routing, scheme, keyId, output), "suci-")
  {
    hide Itoa;
  }

  lemma ParsedAsParts(p: Primitives, s: string, keys: Option<KeyStore>)
    requires HasPrefix(s, "suci-")
    ensures ParseSUPI(p, s, keys) == ParseParts(p, SplitN(s, '-', 8), keys)
  {
    hide ParseParts, SplitN;
    assert s[0] == s[..5][0] == 's';
  }

  /** The whole string: the IMSI parsed from a concealed SUCI is MCC, MNC and MSIN. */
  lemma ConcealedSuciParsed(p: Primitives, keys: KeyStore, mcc: string, mnc: string, routing: string, scheme: int,
                            keyId: int, ephPub: Bytes, secret: Bytes, msin: string, packed: Bytes, output: Bytes)
    requires '-' !in mcc && '-' !in mnc && '-' !in routing && 0 <= keyId <= 255
    requires IsProfile(scheme, ephPub) && keyId in keys && keys[keyId].scheme == scheme
    requires p.ecdh(keys[keyId].priv, ephPub) == Some(secret) && AllDigits(msin) && PacksHigh(packed, msin)
    requires IsConcealment(p, secret, ephPub, packed, output) && p.acceptsKey(scheme, ephPub)
    ensures ParseSUPI(p, SuciText(mcc, mnc, routing, scheme, keyId, EncodeHex(output)), Some(keys))
            == Ok(mcc + mnc + msin)
  {
    hide IsConcealment, PacksHigh, Decrypt;
    DecryptInvertsConceal(p, keys, scheme, keyId, ephPub, secret, msin, packed, output);
    ConcealedTextParsed(p, keys, mcc, mnc, routing, scheme, keyId, output);
  }

  lemma ConcealedTextParsed(p: Primitives, keys: KeyStore, mcc: string, mnc: string, routing: string, scheme: int,
                            keyId: int, output: Bytes)
    requires '-' !in mcc && '-' !in mnc && '-' !in routing && 0 <= keyId <= 255 && 1 <= scheme <= 2
    requires Decrypt(p, keys, scheme, keyId, output).Ok?
    ensures ParseSUPI(p, SuciText(mcc, mnc, routing, scheme, keyId, EncodeHex(output)), Some(keys))
            == Ok(mcc + mnc + Decrypt(p, keys, scheme, keyId, output).value)
  {
    var hex := EncodeHex(output);
    DecodeOfEncodeHex(output);
    SuciFields(mcc, mnc, routing, scheme, keyId, hex);
    var text := SuciText(mcc, mnc, routing, scheme, keyId, hex);
    ParsedAsParts(p, text, Some(keys));
    PartsDecrypted(p, SplitN(text, '-', 8), keys, scheme, keyId, output);
  }

  lemma PartsDecrypted(p: Primitives, parts: seq<string>, keys: KeyStore, scheme: int, keyId: int, output: Bytes)
    requires |parts| == 8 && Atoi(parts[5]) == Some(scheme) && Atoi(parts[6]) == Some(keyId) && scheme != 0
    requires DecodeHex(parts[7]) == Some(output) && Decrypt(p, keys, scheme, keyId, output).Ok?
    ensures ParseParts(p, parts, Some(keys)) == Ok(parts[2] + parts[3] + Decrypt(p, keys, scheme, keyId, output).value)
  {
  }

  /** The null scheme and a plain SUPI need no keys. */
  lemma PlainSupiParsed(p: Primitives, keys: Option<KeyStore>, mcc: string, mnc: string, routing: string, keyId: int,
                        msin: string)
    requires '-' !in mcc && '-' !in mnc && '-' !in routing && 0 <= keyId <= 255
    ensures ParseSUPI(p, SuciText(mcc, mnc, routing, 0, keyId, msin), keys) == Ok(mcc + mnc + msin)
    ensures ParseSUPI(p, "imsi-" + (mcc + mnc + msin), keys) == Ok(mcc + mnc + msin)
  {
    SuciFields(mcc, mnc, routing, 0, keyId, msin);
    ParsedAsParts(p, SuciText(mcc, mnc, routing, 0, keyId, msin), keys);
    var t := "imsi-" + (mcc + mnc + msin);
    assert t[..5] == "imsi-" && t[5..] == mcc + mnc + msin;
  }
}

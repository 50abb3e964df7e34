/** PLMN identities and the User-Location-Information decoder (section 8.21 of TS 29.274). */
module Uli {
  import opened Bytes
  import opened Text
  import opened Tbcd

  // ---------------------------------------------------------------- PLMN

  /** The halves of an octet, and an octet of two halves. */
  function Low(b: bv8): bv8 {
    b & 0x0F
  }

  function High(b: bv8): bv8 {
    (b >> 4) & 0x0F
  }

  function Both(high: bv8, low: bv8): bv8 {
    (high << 4) | low
  }

  lemma HalvesOfBoth(high: bv8, low: bv8)
    requires high < 16 && low < 16
    ensures Low(Both(high, low)) == low && High(Both(high, low)) == high
  {
    NibbleHalves(high, low);
  }

  function EncodeWith(f: char -> bv8, mcc: string, mnc: string): (r: Bytes)
    ensures |r| == 3
  {
    var d := mcc + if |mnc| == 2 then mnc + "F" else mnc;
    if |d| < 6 then [0x00, 0xF1, 0x10]
    else [Both(f(d[1]), f(d[0])), Both(f(d[5]), f(d[2])), Both(f(d[4]), f(d[3]))]
  }

  /** encodePLMN of the Cx code: MCC and MNC digits as three octets, a two-digit MNC filled with 0xF. */
  function EncodePLMN(mcc: string, mnc: string): (r: Bytes)
    ensures |r| == 3
  {
    EncodeWith(GsupNibble, mcc, mnc)
  }

  /** fmt's %d of one nibble: nibbles above 9 print as two digits. */
  function NibbleText(n: bv8): string {
    NatText(Nat(n))
  }

  function DecodeWith(f: bv8 -> string, p: Bytes): (string, string)
    requires |p| == 3
  {
    var mnc3 := High(p[1]);
    var mcc := f(Low(p[0])) + f(High(p[0])) + f(Low(p[1]));
    var mnc := f(Low(p[2])) + f(High(p[2]));
    (mcc, if mnc3 == 0x0F then mnc else mnc + f(mnc3))
  }

  /** decodePLMN of the S6a code. */
  function DecodePLMN(p: Bytes): (string, string)
    requires |p| == 3
  {
    DecodeWith(NibbleText, p)
  }

  lemma DigitText(c: char)
    requires IsDigit(c)
    ensures GsupNibble(c) < 10 && NibbleText(GsupNibble(c)) == [c]
  {
    DigitNibble(c);
    assert Nat(GsupNibble(c)) < 10;
  }

  /** The three octets that six nibbles make, and what they decode to. */
  function Packed6(n: seq<bv8>): Bytes
    requires |n| == 6
  {
    [Both(n[1], n[0]), Both(n[5], n[2]), Both(n[4], n[3])]
  }

  lemma DecodeOfPacked6(f: bv8 -> string, n: seq<bv8>)
    requires |n| == 6 && forall i :: 0 <= i < 6 ==> n[i] < 16
    ensures DecodeWith(f, Packed6(n))
            == (f(n[0]) + f(n[1]) + f(n[2]), if n[5] == 0x0F then f(n[3]) + f(n[4]) else f(n[3]) + f(n[4]) + f(n[5]))
  {
    hide Low, High, Both;
    HalvesOfBoth(n[1], n[0]);
    HalvesOfBoth(n[5], n[2]);
    HalvesOfBoth(n[4], n[3]);
  }

  lemma SixDigits(enc: char -> bv8, dec: bv8 -> string, d: string, filled: bool)
    requires |d| == 6
    requires forall i :: 0 <= i < 5 ==> enc(d[i]) < 10 && dec(enc(d[i])) == [d[i]]
    requires if filled then enc(d[5]) == 0x0F else enc(d[5]) < 10 && dec(enc(d[5])) == [d[5]]
    ensures DecodeWith(dec, Packed6(Nibbles(enc, d))) == (d[..3], if filled then d[3..5] else d[3..])
  {
    hide Low, High, Both, DecodeWith, Packed6;
    DecodeOfPacked6(dec, Nibbles(enc, d));
    assert d[..3] == [d[0]] + [d[1]] + [d[2]];
    assert d[3..5] == [d[3]] + [d[4]];
    assert d[3..] == [d[3]] + [d[4]] + [d[5]];
  }

  lemma RoundTripWith(enc: char -> bv8, dec: bv8 -> string, mcc: string, mnc: string)
    requires AllDigits(mcc) && |mcc| == 3 && AllDigits(mnc) && 2 <= |mnc| <= 3
    requires (forall c :: IsDigit(c) ==> enc(c) < 10 && dec(enc(c)) == [c]) && enc('F') == 0x0F
    ensures DecodeWith(dec, EncodeWith(enc, mcc, mnc)) == (mcc, mnc)
  {
    hide Low, High, Both, DecodeWith;
    var d := mcc + if |mnc| == 2 then mnc + "F" else mnc;
    assert forall i :: 0 <= i < 5 ==> IsDigit(d[i]);
    SixDigits(enc, dec, d, |mnc| == 2);
    assert mcc == d[..3] && mnc == if |mnc| == 2 then d[3..5] else d[3..];
  }

  /** A digit, or the filler 15 past the last one. */
  function DigitOr15(s: string, i: nat): nat {
    if i < |s| && IsDigit(s[i]) then DigitValue(s[i]) else 15
  }

  /** In numbers: MCC digits 2 and 1, MNC digit 3 or 15 and MCC digit 3, MNC digits 2 and 1, high half first. */
  lemma PlmnOctets(mcc: string, mnc: string)
    requires AllDigits(mcc) && |mcc| == 3 && AllDigits(mnc) && 2 <= |mnc| <= 3
    ensures EncodePLMN(mcc, mnc)[0] as int == 16 * DigitOr15(mcc, 1) + DigitOr15(mcc, 0)
    ensures EncodePLMN(mcc, mnc)[1] as int == 16 * DigitOr15(mnc, 2) + DigitOr15(mcc, 2)
    ensures EncodePLMN(mcc, mnc)[2] as int == 16 * DigitOr15(mnc, 1) + DigitOr15(mnc, 0)
  {
    hide ImsiNibble;
    NibbleValue(mcc[0]);
    NibbleValue(mcc[1]);
    NibbleValue(mcc[2]);
    NibbleValue(mnc[0]);
    NibbleValue(mnc[1]);
    var third := if |mnc| == 2 then 0x0F else GsupNibble(mnc[2]);
    if |mnc| == 3 {
      NibbleValue(mnc[2]);
    }
    HalvesValue(GsupNibble(mcc[1]), GsupNibble(mcc[0]));
    HalvesValue(third, GsupNibble(mcc[2]));
    HalvesValue(GsupNibble(mnc[1]), GsupNibble(mnc[0]));
    var d := mcc + if |mnc| == 2 then mnc + "F" else mnc;
    assert d[3] == mnc[0] && d[4] == mnc[1] && GsupNibble(d[5]) == third;
  }

  /** Anything too short to hold an identity becomes one fixed string. */
  lemma PlmnTooShort(mcc: string, mnc: string)
    requires |mcc| + |mnc| < 6 && !(|mnc| == 2 && |mcc| == 3)
    ensures EncodePLMN(mcc, mnc) == [0x00, 0xF1, 0x10]
  {
  }

  /** Every MCC with a two- or three-digit MNC survives encoding and decoding. */
  lemma PlmnRoundTrip(mcc: string, mnc: string)
    requires AllDigits(mcc) && |mcc| == 3 && AllDigits(mnc) && 2 <= |mnc| <= 3
    ensures DecodePLMN(EncodePLMN(mcc, mnc)) == (mcc, mnc)
  {
    forall c | IsDigit(c)
      ensures GsupNibble(c) < 10 && NibbleText(GsupNibble(c)) == [c]
    {
      DigitText(c);
    }
    RoundTripWith(GsupNibble, NibbleText, mcc, mnc);
  }

  /** Octets whose nibbles are decimal digits, the MNC's third one possibly filler. */
  predicate IsPlmn(p: Bytes) {
    && |p| == 3
    && Low(p[0]) < 10 && High(p[0]) < 10 && Low(p[1]) < 10 && Low(p[2]) < 10 && High(p[2]) < 10
    && (High(p[1]) < 10 || High(p[1]) == 0x0F)
  }

  lemma NibbleOfText(n: bv8)
    requires n < 10
    ensures |NibbleText(n)| == 1 && GsupNibble(NibbleText(n)[0]) == n
  {
    hide LowByte;
    var c := NibbleText(n)[0];
    BelowTen(n);
    assert c == DigitChar(Nat(n));
    LastByte(1, n);
    assert (c as int) + 208 == 256 * 1 + Nat(n);
  }

  function Unpacked6(p: Bytes): (n: seq<bv8>)
    requires |p| == 3
    ensures |n| == 6
  {
    [Low(p[0]), High(p[0]), Low(p[1]), Low(p[2]), High(p[2]), High(p[1])]
  }

  lemma Halves(b: bv8)
    ensures Both(High(b), Low(b)) == b
  {
  }

  lemma PackOfUnpacked6(p: Bytes)
    requires |p| == 3
    ensures Packed6(Unpacked6(p)) == p
  {
    hide Low, High, Both;
    Halves(p[0]);
    Halves(p[1]);
    Halves(p[2]);
  }

  lemma ReencodeWith(enc: char -> bv8, dec: bv8 -> string, p: Bytes)
    requires IsPlmn(p)
    requires (forall n: bv8 :: n < 10 ==> |dec(n)| == 1 && enc(dec(n)[0]) == n) && enc('F') == 0x0F
    ensures EncodeWith(enc, DecodeWith(dec, p).0, DecodeWith(dec, p).1) == p
  {
    hide Low, High, Both;
    EncodeOfTexts(enc, dec, Unpacked6(p));
    PackOfUnpacked6(p);
  }

  /** And every such identity received is the one that would be sent for what it decodes to. */
  lemma PlmnReencode(p: Bytes)
    requires IsPlmn(p)
    ensures EncodePLMN(DecodePLMN(p).0, DecodePLMN(p).1) == p
  {
    forall n: bv8 | n < 10
      ensures |NibbleText(n)| == 1 && GsupNibble(NibbleText(n)[0]) == n
    {
      NibbleOfText(n);
    }
    ReencodeWith(GsupNibble, NibbleText, p);
  }

  lemma EncodeOfTexts(enc: char -> bv8, dec: bv8 -> string, n: seq<bv8>)
    requires |n| == 6 && forall i :: 0 <= i < 5 ==> |dec(n[i])| == 1 && enc(dec(n[i])[0]) == n[i]
    requires if n[5] == 0x0F then enc('F') == 0x0F else |dec(n[5])| == 1 && enc(dec(n[5])[0]) == n[5]
    ensures var t := dec(n[3]) + dec(n[4]);
            EncodeWith(enc, dec(n[0]) + dec(n[1]) + dec(n[2]), if n[5] == 0x0F then t else t + dec(n[5])) == Packed6(n)
  {
  }

  // ---------------------------------------------------------------- User-Location-Information

  datatype Fields = Fields(mcc: string, mnc: string, tac: string, eNodeBId: string, cellId: string, eci: string)

  const NO_FIELDS: Fields := Fields("", "", "", "", "", "")

  datatype Tai = Tai(plmn: Bytes, tac: nat)

  datatype Ecgi = Ecgi(plmn: Bytes, spare: bv8, eci: nat)

  /** What a sender puts in: any of the five location types, the first three being opaque to this decoder. */
  datatype Location = Location(cgi: Option<Bytes>, sai: Option<Bytes>, rai: Option<Bytes>,
                               tai: Option<Tai>, ecgi: Option<Ecgi>)
  {
    predicate Valid() {
      && (cgi.Some? ==> |cgi.value| == 7) && (sai.Some? ==> |sai.value| == 7) && (rai.Some? ==> |rai.value| == 7)
      && (tai.Some? ==> |tai.value.plmn| == 3 && tai.value.tac < 65536)
      && (ecgi.Some? ==> |ecgi.value.plmn| == 3 && ecgi.value.eci < 0x1000_0000)
    }

    /** The flags octet; other gives the bits this decoder does not look at. */
    function Flags(other: bv8): bv8 {
      (if cgi.Some? then 0x01 else 0) | (if sai.Some? then 0x02 else 0) | (if rai.Some? then 0x04 else 0)
      | (if tai.Some? then 0x08 else 0) | (if ecgi.Some? then 0x10 else 0) | (other & 0xE0)
    }

    function Print(other: bv8): Bytes {
      PrintWith(Flags(other))
    }

    function PrintWith(flags: bv8): Bytes {
      [flags] + (Opt(cgi) + Opt(sai) + Opt(rai))
      + (if tai.Some? then tai.value.plmn + Be16(tai.value.tac) else [])
      + (if ecgi.Some? then PrintEcgi(ecgi.value) else [])
    }

    /** The flags octet announces exactly the types that follow. */
    predicate Announces(flags: bv8) {
      && Has(flags, 0x01) == cgi.Some? && Has(flags, 0x02) == sai.Some? && Has(flags, 0x04) == rai.Some?
      && Has(flags, 0x08) == tai.Some? && Has(flags, 0x10) == ecgi.Some?
    }

    /** What should be read: TAI's PLMN if there is one, else ECGI's. */
    function Expected(): Fields
      requires Valid()
    {
      var f := if tai.Some? then
                 var p := DecodePLMN(tai.value.plmn);
                 NO_FIELDS.(mcc := p.0, mnc := p.1, tac := NatText(tai.value.tac))
               else NO_FIELDS;
      if ecgi.None? then f else
      var p := DecodePLMN(ecgi.value.plmn);
      var g := if tai.Some? then f else f.(mcc := p.0, mnc := p.1);
      var eci := ecgi.value.eci;
      g.(eci := NatText(eci), eNodeBId := NatText(eci / 256), cellId := NatText(eci % 256))
    }
  }

  function Opt(b: Option<Bytes>): Bytes {
    if b.Some? then b.value else []
  }

  /** The 28-bit ECI below four spare bits of any value. */
  function PrintEcgi(e: Ecgi): Bytes {
    e.plmn + WithSpare(e.spare, Be(e.eci, 4))
  }

  function WithSpare(spare: bv8, b: Bytes): Bytes
    requires |b| == 4
  {
    [(spare & 0xF0) | b[0]] + b[1..]
  }

  function ReadEci(b: Bytes): nat
    requires |b| == 4
  {
    0x100_0000 * Nat(b[0] & 0x0F) + 0x1_0000 * Nat(b[1]) + 0x100 * Nat(b[2]) + Nat(b[3])
  }

  predicate Has(flags: bv8, bit: bv8) {
    flags & bit != 0
  }

  /** Octets of CGI, SAI and RAI together. */
  function Skipped(flags: bv8): nat {
    (if Has(flags, 0x01) then 7 else 0) + (if Has(flags, 0x02) then 7 else 0) + (if Has(flags, 0x04) then 7 else 0)
  }

  function Needed(flags: bv8): nat {
    1 + Skipped(flags) + (if Has(flags, 0x08) then 5 else 0) + (if Has(flags, 0x10) then 7 else 0)
  }

  /** The decoder's result: None unless TAI or ECGI is flagged and everything flagged is there. */
  function ReadUli(b: Bytes): Option<Fields> {
    if |b| < 1 || |b| < Needed(b[0]) || !(Has(b[0], 0x08) || Has(b[0], 0x10)) then None
    else
      var pos := 1 + Skipped(b[0]);
      var f := if Has(b[0], 0x08) then ReadTai(b[pos..pos + 5]) else NO_FIELDS;
      var pos2 := if Has(b[0], 0x08) then pos + 5 else pos;
      Some(if Has(b[0], 0x10) then ReadEcgi(f, b[pos2..pos2 + 7]) else f)
  }

  function ReadTai(t: Bytes): Fields
    requires |t| == 5
  {
    var p := DecodePLMN(t[..3]);
    NO_FIELDS.(mcc := p.0, mnc := p.1, tac := NatText(Uint16(t[3..])))
  }

  function ReadEcgi(f: Fields, e: Bytes): Fields
    requires |e| == 7
  {
    var p, eci := DecodePLMN(e[..3]), ReadEci(e[3..]);
    var g := if f.mcc == "" then f.(mcc := p.0, mnc := p.1) else f;
    g.(eci := NatText(eci), eNodeBId := NatText(eci / 256), cellId := NatText(eci % 256))
  }

  /** Where the first octet announces them, the TAI and the ECGI stand after seven octets for each lower type. */
  function TaiAt(flags: bv8): nat {
    1 + (if flags & 0x01 != 0 then 7 else 0) + (if flags & 0x02 != 0 then 7 else 0) + if flags & 0x04 != 0 then 7 else 0
  }

  function EcgiAt(flags: bv8): nat {
    TaiAt(flags) + if flags & 0x08 != 0 then 5 else 0
  }

  /** The 28 bits of the ECI in the last four of an ECGI's seven octets. */
  function EciOf(e: Bytes): nat
    requires |e| == 7
  {
    0x100_0000 * (Nat(e[3]) % 16) + 0x1_0000 * Nat(e[4]) + 0x100 * Nat(e[5]) + Nat(e[6])
  }

  predicate IsTai(t: Bytes, f: Fields)
    requires |t| == 5
  {
    (f.mcc, f.mnc) == DecodePLMN([t[0], t[1], t[2]]) && f.tac == Itoa(256 * Nat(t[3]) + Nat(t[4]))
  }

  predicate IsEcgi(e: Bytes, f: Fields)
    requires |e| == 7
  {
    f.eci == Itoa(EciOf(e)) && f.eNodeBId == Itoa(EciOf(e) / 256) && f.cellId == Itoa(EciOf(e) % 256)
  }

  /** The fields by octets: tracking area code, ECI with its parts, and the identity of the first of TAI and ECGI. */
  predicate FieldsOf(b: Bytes, f: Fields)
    requires b != [] && |b| >= EcgiAt(b[0]) + if b[0] & 0x10 != 0 then 7 else 0
  {
    var t, e := TaiAt(b[0]), EcgiAt(b[0]);
    && (if b[0] & 0x08 != 0 then IsTai(b[t..t + 5], f) else f.tac == "")
    && (if b[0] & 0x10 != 0 then IsEcgi(b[e..e + 7], f) else f.eci == f.eNodeBId == f.cellId == "")
    && (b[0] & 0x18 == 0x10 ==> (f.mcc, f.mnc) == DecodePLMN(b[e..e + 3]))
  }

  lemma LowHalfIsRemainder(b: bv8)
    ensures Nat(b & 0x0F) == Nat(b) % 16
  {
    NatIsInt(b);
    NatIsInt(b & 0x0F);
  }

  lemma TaiByOctets(t: Bytes)
    requires |t| == 5
    ensures IsTai(t, ReadTai(t)) && ReadTai(t).mcc != ""
    ensures ReadTai(t).eci == ReadTai(t).eNodeBId == ReadTai(t).cellId == ""
  {
    hide Nat, NatText, DecodePLMN;
    assert t[..3] == [t[0], t[1], t[2]] && t[3..] == [t[3], t[4]];
    MccNotEmpty(t[..3]);
  }

  lemma EcgiByOctets(f: Fields, e: Bytes)
    requires |e| == 7
    ensures var g := ReadEcgi(f, e);
            && IsEcgi(e, g) && g.tac == f.tac
            && (g.mcc, g.mnc) == if f.mcc == "" then DecodePLMN(e[..3]) else (f.mcc, f.mnc)
  {
    hide Nat, NatText, DecodePLMN;
    assert e[3..] == [e[3], e[4], e[5], e[6]];
    LowHalfIsRemainder(e[3]);
  }

  lemma ReadByOctets(b: Bytes)
    ensures ReadUli(b).Some? <==>
              b != [] && b[0] & 0x18 != 0 && |b| >= EcgiAt(b[0]) + if b[0] & 0x10 != 0 then 7 else 0
    ensures ReadUli(b).Some? ==> FieldsOf(b, ReadUli(b).value)
  {
    hide DecodePLMN, ReadTai, ReadEcgi, IsTai, IsEcgi;
    if b != [] {
      EitherFlag(b[0]);
      if ReadUli(b).Some? {
        ReadPartsByOctets(b);
      }
    }
  }

  lemma FrontOfSlice(b: Bytes, e: nat)
    requires e + 7 <= |b|
    ensures b[e..e + 7][..3] == b[e..e + 3]
  {
  }

  lemma ReadPartsByOctets(b: Bytes)
    requires ReadUli(b).Some?
    ensures |b| >= EcgiAt(b[0]) + if b[0] & 0x10 != 0 then 7 else 0
    ensures FieldsOf(b, ReadUli(b).value)
  {
    hide DecodePLMN, ReadTai, ReadEcgi;
    var t, e := TaiAt(b[0]), EcgiAt(b[0]);
    EitherFlag(b[0]);
    if b[0] & 0x08 != 0 {
      TaiByOctets(b[t..t + 5]);
    }
    if b[0] & 0x10 != 0 {
      EcgiByOctets(if b[0] & 0x08 != 0 then ReadTai(b[t..t + 5]) else NO_FIELDS, b[e..e + 7]);
      FrontOfSlice(b, e);
    }
  }

  lemma EitherFlag(b: bv8)
    ensures b & 0x18 != 0 <==> b & 0x08 != 0 || b & 0x10 != 0
    ensures b & 0x18 == 0x10 <==> b & 0x08 == 0 && b & 0x10 != 0
  {
  }

  method ParseULI(b: Bytes) returns (r: Option<Fields>)
    ensures r == ReadUli(b)
    ensures r.Some? <==> b != [] && b[0] & 0x18 != 0 && |b| >= EcgiAt(b[0]) + if b[0] & 0x10 != 0 then 7 else 0
    ensures r.Some? ==> FieldsOf(b, r.value)
  {
    hide FieldsOf, DecodePLMN, ReadTai, ReadEcgi, NatText, EciOf;
    ReadByOctets(b);
    if |b| < 1 {
      return None;
    }
    var flags, pos, f := b[0], 1, NO_FIELDS;
    if Has(flags, 0x01) {
      if pos + 7 > |b| {
        return None;
      }
      pos := pos + 7;
    }
    if Has(flags, 0x02) {
      if pos + 7 > |b| {
        return None;
      }
      pos := pos + 7;
    }
    if Has(flags, 0x04) {
      if pos + 7 > |b| {
        return None;
      }
      pos := pos + 7;
    }
    assert pos == 1 + Skipped(flags);
    if Has(flags, 0x08) {
      if pos + 5 > |b| {
        return None;
      }
      f := ReadTai(b[pos..pos + 5]);
      TaiByOctets(b[pos..pos + 5]);
      pos := pos + 5;
    }
    if Has(flags, 0x10) {
      if pos + 7 > |b| {
        return None;
      }
      EcgiByOctets(f, b[pos..pos + 7]);
      f := ReadEcgi(f, b[pos..pos + 7]);
      pos := pos + 7;
    }
    if f.mcc == "" && f.tac == "" && f.eNodeBId == "" {
      return None;
    }
    return Some(f);
  }

  lemma FlagBits(l: Location, other: bv8)
    ensures l.Announces(l.Flags(other))
  {
  }

  /** Four bytes with a small first one read as the plain big-endian number. */
  lemma ReadEciIsBeInt(b: Bytes, x: bv8)
    requires |b| == 4 && x & 0x0F == b[0]
    ensures ReadEci([x] + b[1..]) == BeInt(b)
  {
    assert b[..3][..2] == b[..2] && b[..2][..1] == b[..1] && b[..1][..0] == [];
    assert BeInt(b[..1]) == Nat(b[0]);
    assert BeInt(b[..2]) == 256 * BeInt(b[..1]) + Nat(b[1]);
    assert BeInt(b[..3]) == 256 * BeInt(b[..2]) + Nat(b[2]);
  }

  lemma FirstByteSmall(b: Bytes)
    requires |b| == 4 && BeInt(b) < 0x1000_0000
    ensures Nat(b[0]) < 16
  {
    assert b[..3][..2] == b[..2] && b[..2][..1] == b[..1] && b[..1][..0] == [];
    assert BeInt(b[..1]) == Nat(b[0]);
    assert BeInt(b[..2]) == 256 * BeInt(b[..1]) + Nat(b[1]);
    assert BeInt(b[..3]) == 256 * BeInt(b[..2]) + Nat(b[2]);
  }

  lemma SpareIgnored(spare: bv8, b: Bytes)
    requires |b| == 4 && BeInt(b) < 0x1000_0000
    ensures |WithSpare(spare, b)| == 4 && ReadEci(WithSpare(spare, b)) == BeInt(b)
  {
    FirstByteSmall(b);
    SpareMasked(spare, b[0]);
    ReadEciIsBeInt(b, (spare & 0xF0) | b[0]);
  }

  lemma BeFour(n: nat)
    requires n < 0x1000_0000
    ensures BeInt(Be(n, 4)) == n
  {
    assert Pow256(2) == 65536;
    BeIntOfBe(n, 4);
  }

  lemma EciRoundTrip(e: Ecgi)
    requires e.eci < 0x1000_0000 && |e.plmn| == 3
    ensures |PrintEcgi(e)| == 7 && PrintEcgi(e)[..3] == e.plmn && ReadEci(PrintEcgi(e)[3..]) == e.eci
  {
    BeFour(e.eci);
    SpareIgnored(e.spare, Be(e.eci, 4));
    assert PrintEcgi(e)[3..] == WithSpare(e.spare, Be(e.eci, 4));
  }

  lemma SpareMasked(spare: bv8, b: bv8)
    requires Nat(b) < 16
    ensures ((spare & 0xF0) | b) & 0x0F == b
  {
    assert b < 16;
  }

  lemma TaiReadBack(t: Tai)
    requires |t.plmn| == 3 && t.tac < 65536
    ensures ReadTai(t.plmn + Be16(t.tac))
            == NO_FIELDS.(mcc := DecodePLMN(t.plmn).0, mnc := DecodePLMN(t.plmn).1, tac := NatText(t.tac))
  {
    Uint16OfBe16(t.tac);
    var s := t.plmn + Be16(t.tac);
    assert s[..3] == t.plmn && s[3..] == Be16(t.tac);
  }

  lemma MccNotEmpty(p: Bytes)
    requires |p| == 3
    ensures DecodePLMN(p).0 != ""
  {
  }

  lemma RoundTripFlags(l: Location, flags: bv8, tail: Bytes)
    requires l.Valid() && l.Announces(flags)
    ensures ReadUli(l.PrintWith(flags) + tail)
            == if l.tai.Some? || l.ecgi.Some? then Some(l.Expected()) else None
  {
    var skip := Opt(l.cgi) + Opt(l.sai) + Opt(l.rai);
    var t := if l.tai.Some? then l.tai.value.plmn + Be16(l.tai.value.tac) else [];
    var e := if l.ecgi.Some? then PrintEcgi(l.ecgi.value) else [];
    if l.ecgi.Some? {
      EciRoundTrip(l.ecgi.value);
    }
    PartsAsExpected(l, t, e);
    ReadParts(flags, skip, t, e, tail);
  }

  /** The decoder inverts the printer for every combination of location types that has a TAI or an ECGI. */
  lemma UliRoundTrip(l: Location, other: bv8, tail: Bytes)
    requires l.Valid()
    ensures ReadUli(l.Print(other) + tail)
            == if l.tai.Some? || l.ecgi.Some? then Some(l.Expected()) else None
  {
    FlagBits(l, other);
    RoundTripFlags(l, l.Flags(other), tail);
  }

  lemma PartsAsExpected(l: Location, t: Bytes, e: Bytes)
    requires l.Valid()
    requires l.tai.Some? ==> t == l.tai.value.plmn + Be16(l.tai.value.tac)
    requires l.ecgi.Some? ==> |e| == 7 && e[..3] == l.ecgi.value.plmn && ReadEci(e[3..]) == l.ecgi.value.eci
    ensures var f := if l.tai.Some? then ReadTai(t) else NO_FIELDS;
            l.Expected() == if l.ecgi.Some? then ReadEcgi(f, e) else f
  {
    if l.tai.Some? {
      TaiReadBack(l.tai.value);
      MccNotEmpty(l.tai.value.plmn);
    }
  }

  /** The decoder's offsets find the parts, whatever the octets it skips. */
  lemma ReadParts(flags: bv8, skip: Bytes, t: Bytes, e: Bytes, tail: Bytes)
    requires |skip| == Skipped(flags)
    requires |t| == (if Has(flags, 0x08) then 5 else 0) && |e| == (if Has(flags, 0x10) then 7 else 0)
    ensures var f := if Has(flags, 0x08) then ReadTai(t) else NO_FIELDS;
            ReadUli([flags] + skip + t + e + tail)
            == if !Has(flags, 0x08) && !Has(flags, 0x10) then None
               else Some(if Has(flags, 0x10) then ReadEcgi(f, e) else f)
  {
    hide ReadTai, ReadEcgi;
    var b := [flags] + skip + t + e + tail;
    var pos := 1 + |skip|;
    assert b[pos..pos + |t|] == t;
    assert b[pos + |t|..pos + |t| + |e|] == e;
  }

  /** Truncation: no proper prefix of a printed location is accepted. */
  lemma TruncatedRefused(l: Location, other: bv8, n: nat)
    requires l.Valid() && n < |l.Print(other)|
    ensures ReadUli(l.Print(other)[..n]) == None
  {
    FlagBits(l, other);
    if l.ecgi.Some? {
      EciRoundTrip(l.ecgi.value);
    }
    assert n > 0 ==> l.Print(other)[..n][0] == l.Flags(other);
  }

  /**
   In every accepted input that announces an ECGI, the printed ECI fits 28 bits and is 256 times the printed eNodeB id
   plus the printed cell id, the latter below 256.
   */
  lemma EciComposed(b: Bytes)
    requires ReadUli(b).Some? && Has(b[0], 0x10)
    ensures var f := ReadUli(b).value;
            && NatValue(f.eci) < 0x1000_0000 && NatValue(f.cellId) < 256
            && NatValue(f.eci) == 256 * NatValue(f.eNodeBId) + NatValue(f.cellId)
  {
    hide DecodePLMN, NatText, NatValue, ReadEci;
    var pos := 1 + Skipped(b[0]) + if Has(b[0], 0x08) then 5 else 0;
    var eci := ReadEci(b[pos..pos + 7][3..]);
    EciFits(b[pos..pos + 7][3..]);
    NatValueOfText(eci);
    NatValueOfText(eci / 256);
    NatValueOfText(eci % 256);
  }

  lemma EciFits(e: Bytes)
    requires |e| == 4
    ensures ReadEci(e) < 0x1000_0000
  {
    LowHalfSmall(e[0]);
  }

  lemma LowHalfSmall(b: bv8)
    ensures Nat(b & 0x0F) < 16
  {
    assert (b & 0x0F) & 0x80 == 0 && (b & 0x0F) & 0x40 == 0 && (b & 0x0F) & 0x20 == 0 && (b & 0x0F) & 0x10 == 0;
  }
}

/** GSUP messages (internal/gsup/message.go), IPA frames (ipa.go) and the SendAuthInfo result (handlers.go). */
module Gsup {
  import opened Bytes
  import opened Text
  import opened Tbcd
  import opened Vectors

  datatype IE = IE(tag: bv8, data: Bytes)

  datatype Msg = Msg(kind: bv8, ies: seq<IE>)

  const IE_IMSI: bv8 := 0x01
  const IE_AUTH_TUPLE: bv8 := 0x03
  const IE_RAND: bv8 := 0x20
  const IE_SRES: bv8 := 0x21
  const IE_KC: bv8 := 0x22
  const IE_IK: bv8 := 0x23
  const IE_CK: bv8 := 0x24
  const IE_AUTN: bv8 := 0x25
  const IE_XRES: bv8 := 0x27
  const IE_NUMBER_OF_VECTORS: bv8 := 0x29
  const MSG_SEND_AUTH_INFO_RES: bv8 := 0x0A

  /** One TLV; the length octet is byte(len(data)). */
  function EncodeIE(ie: IE): (b: Bytes)
    ensures |b| == 2 + |ie.data|
  {
    [ie.tag, LowByte(|ie.data|)] + ie.data
  }

  function EncodeIEs(ies: seq<IE>): Bytes {
    if ies == [] then [] else EncodeIE(ies[0]) + EncodeIEs(ies[1..])
  }

  function Encode(m: Msg): Bytes {
    [m.kind] + EncodeIEs(m.ies)
  }

  /** The elements of a body: a single trailing octet is ignored, a value running past the end is an error. */
  function ParseIEs(b: Bytes): Result<seq<IE>>
    decreases |b|
  {
    if |b| < 2 then Ok([])
    else if 2 + Nat(b[1]) > |b| then Err
    else Prepend([IE(b[0], b[2..2 + Nat(b[1])])], ParseIEs(b[2 + Nat(b[1])..]))
  }

  function Parse(b: Bytes): Result<Msg> {
    if b == [] then Err
    else
      match ParseIEs(b[1..])
      case Err => Err
      case Ok(ies) => Ok(Msg(b[0], ies))
  }

  function Prepend(ies: seq<IE>, r: Result<seq<IE>>): Result<seq<IE>> {
    match r
    case Err => Err
    case Ok(rest) => Ok(ies + rest)
  }

  lemma PrependTwice(ies: seq<IE>, ie: IE, r: Result<seq<IE>>)
    ensures Prepend(ies, Prepend([ie], r)) == Prepend(ies + [ie], r)
    ensures Prepend([], r) == r
  {
    if r.Ok? {
      assert ies + ([ie] + r.value) == (ies + [ie]) + r.value;
      assert [] + r.value == r.value;
    }
  }

  /** One turn of the decoding loop, seen from the suffix still to be read. */
  lemma ParseSuffix(b: Bytes, i: nat, l: nat)
    requires i + 1 < |b| && l == Nat(b[i + 1])
    ensures i + 2 + l > |b| ==> ParseIEs(b[i..]) == Err
    ensures i + 2 + l <= |b| ==>
              ParseIEs(b[i..]) == Prepend([IE(b[i], b[i + 2..i + 2 + l])], ParseIEs(b[i + 2 + l..]))
  {
    hide Nat;
    var s := b[i..];
    assert |s| >= 2 && s[0] == b[i] && s[1] == b[i + 1];
    if i + 2 + l <= |b| {
      assert s[2..2 + l] == b[i + 2..i + 2 + l] && s[2 + l..] == b[i + 2 + l..];
    }
  }

  method Decode(b: Bytes) returns (r: Result<Msg>)
    ensures r == Parse(b)
  {
    hide Nat;
    if |b| < 1 {
      return Err;
    }
    var ies: seq<IE> := [];
    var i := 1;
    PrependTwice([], IE(0, []), ParseIEs(b[1..]));
    while i < |b|
      invariant 1 <= i <= |b|
      invariant ParseIEs(b[1..]) == Prepend(ies, ParseIEs(b[i..]))
    {
      if i + 1 >= |b| {
        break;
      }
      var tag, l := b[i], Nat(b[i + 1]);
      ParseSuffix(b, i, l);
      i := i + 2;
      if i + l > |b| {
        return Err;
      }
      PrependTwice(ies, IE(tag, b[i..i + l]), ParseIEs(b[i + l..]));
      ies := ies + [IE(tag, b[i..i + l])];
      i := i + l;
    }
    assert ies + [] == ies;
    return Ok(Msg(b[0], ies));
  }

  method Get(m: Msg, tag: bv8) returns (r: Option<IE>)
    ensures r == First(m.ies, tag)
    ensures r.None? ==> forall i :: 0 <= i < |m.ies| ==> m.ies[i].tag != tag
    ensures r.Some? ==> exists i :: 0 <= i < |m.ies| && m.ies[i] == r.value && r.value.tag == tag
                                    && forall j :: 0 <= j < i ==> m.ies[j].tag != tag
  {
    for i := 0 to |m.ies|
      invariant First(m.ies, tag) == First(m.ies[i..], tag)
      invariant forall j :: 0 <= j < i ==> m.ies[j].tag != tag
    {
      if m.ies[i].tag == tag {
        return Some(m.ies[i]);
      }
    }
    return None;
  }

  function First(ies: seq<IE>, tag: bv8): Option<IE> {
    if ies == [] then None else if ies[0].tag == tag then Some(ies[0]) else First(ies[1..], tag)
  }

  method GetAll(m: Msg, tag: bv8) returns (out: seq<IE>)
    ensures out == All(m.ies, tag)
  {
    out := [];
    for i := 0 to |m.ies|
      invariant out == All(m.ies[..i], tag)
    {
      assert m.ies[..i + 1][..i] == m.ies[..i];
      if m.ies[i].tag == tag {
        out := out + [m.ies[i]];
      }
    }
    assert m.ies[..|m.ies|] == m.ies;
  }

  function All(ies: seq<IE>, tag: bv8): seq<IE> {
    if ies == [] then []
    else All(ies[..|ies| - 1], tag) + if ies[|ies| - 1].tag == tag then [ies[|ies| - 1]] else []
  }

  /** GetAll keeps the order: it reads two halves one after the other, and one element by its tag. */
  lemma {:induction false} AllIsFilter(a: seq<IE>, b: seq<IE>, ie: IE, tag: bv8)
    ensures All(a + b, tag) == All(a, tag) + All(b, tag)
    ensures All([ie], tag) == if ie.tag == tag then [ie] else []
    decreases |b|
  {
    assert [ie][..0] == [];
    if b == [] {
      assert a + b == a;
    } else {
      AllIsFilter(a, b[..|b| - 1], ie, tag);
      assert (a + b)[..|a + b| - 1] == a + b[..|b| - 1];
    }
  }

  predicate Encodable(ies: seq<IE>) {
    forall i {:trigger ies[i]} :: 0 <= i < |ies| ==> |ies[i].data| <= 255
  }

  /** One element followed by anything: the element is read and the rest is left. */
  lemma ParseOne(ie: IE, rest: Bytes)
    requires |ie.data| <= 255
    ensures ParseIEs(EncodeIE(ie) + rest) == Prepend([ie], ParseIEs(rest))
  {
    hide Nat, LowByte;
    LowByteAsInt(|ie.data|);
    var b := EncodeIE(ie) + rest;
    var l := |ie.data|;
    assert b[1] == LowByte(l) && b[0] == ie.tag;
    assert b[2..2 + l] == ie.data && b[2 + l..] == rest;
  }

  lemma {:induction false} ParseOfEncodeIEs(ies: seq<IE>, tail: Bytes)
    requires Encodable(ies) && |tail| <= 1
    ensures ParseIEs(EncodeIEs(ies) + tail) == Ok(ies)
  {
    hide Nat, EncodeIE;
    if ies == [] {
      assert EncodeIEs(ies) + tail == tail;
    } else {
      var rest := EncodeIEs(ies[1..]) + tail;
      ParseOfEncodeIEs(ies[1..], tail);
      ParseOne(ies[0], rest);
      assert EncodeIEs(ies) + tail == EncodeIE(ies[0]) + rest;
      assert [ies[0]] + ies[1..] == ies;
    }
  }

  lemma {:induction false} ParsedAreEncodable(b: Bytes)
    ensures ParseIEs(b).Ok? ==> Encodable(ParseIEs(b).value)
    decreases |b|
  {
    if |b| >= 2 && 2 + Nat(b[1]) <= |b| {
      ParsedAreEncodable(b[2 + Nat(b[1])..]);
    }
  }

  /** Decode inverts Builder exactly on messages whose elements hold at most 255 octets. */
  lemma DecodeInvertsBuilder(m: Msg)
    ensures Parse(Encode(m)) == Ok(m) <==> Encodable(m.ies)
  {
    assert Encode(m)[1..] == EncodeIEs(m.ies);
    if Encodable(m.ies) {
      ParseOfEncodeIEs(m.ies, []);
      assert EncodeIEs(m.ies) + [] == EncodeIEs(m.ies);
    } else {
      ParsedAreEncodable(EncodeIEs(m.ies));
    }
  }

  /** b is the encoding of the elements and at most one more octet. */
  predicate Reencodes(b: Bytes, ies: seq<IE>) {
    var e := EncodeIEs(ies);
    |e| <= |b| <= |e| + 1 && b[..|e|] == e
  }

  lemma {:induction false} EncodeOfParseIEs(b: Bytes)
    requires ParseIEs(b).Ok?
    ensures Reencodes(b, ParseIEs(b).value)
    decreases |b|
  {
    hide Nat, Reencodes, EncodeIEs;
    if |b| < 2 {
      NothingReencodes(b);
    }
    if |b| >= 2 {
      var l := Nat(b[1]);
      EncodeOfParseIEs(b[2 + l..]);
      ReencodesStep(b, l, ParseIEs(b[2 + l..]).value);
    }
  }

  lemma NothingReencodes(b: Bytes)
    requires |b| < 2
    ensures Reencodes(b, [])
  {
  }

  lemma ReencodesStep(b: Bytes, l: nat, rest: seq<IE>)
    requires |b| >= 2 && l == Nat(b[1]) && 2 + l <= |b| && Reencodes(b[2 + l..], rest)
    ensures Reencodes(b, [IE(b[0], b[2..2 + l])] + rest)
  {
    var ie := IE(b[0], b[2..2 + l]);
    ReEncodeOne(b, l);
    EncodeCons(ie, rest);
    var x, y := EncodeIE(ie), EncodeIEs(rest);
    assert b[..|x|] == x && b[|x|..] == b[2 + l..];
    PrefixOfParts(b, x, y);
  }

  lemma ReEncodeOne(b: Bytes, l: nat)
    requires |b| >= 2 && l == Nat(b[1]) && 2 + l <= |b|
    ensures EncodeIE(IE(b[0], b[2..2 + l])) == b[..2 + l]
  {
    hide Nat, LowByte;
    IntAsByte(b[1]);
  }

  lemma EncodeCons(ie: IE, rest: seq<IE>)
    ensures EncodeIEs([ie] + rest) == EncodeIE(ie) + EncodeIEs(rest)
  {
    assert ([ie] + rest)[1..] == rest;
  }

  lemma PrefixOfParts(b: Bytes, x: Bytes, y: Bytes)
    requires |x| + |y| <= |b| && b[..|x|] == x && b[|x|..][..|y|] == y
    ensures b[..|x + y|] == x + y
  {
  }

  /** Re-encoding a decoded message gives the input back but for at most one trailing octet. */
  lemma BuilderInvertsDecode(b: Bytes)
    requires Parse(b).Ok?
    ensures var e := Encode(Parse(b).value);
            |e| <= |b| <= |e| + 1 && b[..|e|] == e
  {
    EncodeOfParseIEs(b[1..]);
    PrefixOfParts(b, [b[0]], EncodeIEs(ParseIEs(b[1..]).value));
  }

  /** Accepted input is exactly an encoding followed by at most one octet. */
  lemma DecodeAcceptsExactly(b: Bytes)
    ensures Parse(b).Ok? <==> exists m: Msg, tail: Bytes :: Encodable(m.ies) && |tail| <= 1 && b == Encode(m) + tail
  {
    hide EncodeIEs, ParseIEs;
    if Parse(b).Ok? {
      BuilderInvertsDecode(b);
      ParsedAreEncodable(b[1..]);
      var m := Parse(b).value;
      var tail := b[|Encode(m)|..];
      assert b == Encode(m) + tail;
    }
    if m: Msg, tail: Bytes :| Encodable(m.ies) && |tail| <= 1 && b == Encode(m) + tail {
      ParseOfEncodeIEs(m.ies, tail);
      assert b[1..] == EncodeIEs(m.ies) + tail;
    }
  }

  lemma {:induction false} EncodeIEsSnoc(ies: seq<IE>, ie: IE)
    ensures EncodeIEs(ies + [ie]) == EncodeIEs(ies) + EncodeIE(ie)
  {
    hide EncodeIE;
    if ies == [] {
      assert [] + [ie] == [ie] && [ie][1..] == [];
    } else {
      EncodeIEsSnoc(ies[1..], ie);
      assert (ies + [ie])[1..] == ies[1..] + [ie];
      var x, y, z := EncodeIE(ies[0]), EncodeIEs(ies[1..]), EncodeIE(ie);
      assert x + (y + z) == (x + y) + z;
    }
  }

  lemma OneOctet()
    ensures LowByte(1) == 0x01
  {
  }

  /** The message builder: its buffer always encodes the elements added so far. */
  class Builder {
    var buf: Bytes
    ghost var msg: Msg

    ghost predicate Valid()
      reads this
    {
      buf == Encode(msg)
    }

    constructor NewMsg(kind: bv8)
      ensures Valid() && msg == Msg(kind, []) && buf == [kind]
    {
      buf := [kind];
      msg := Msg(kind, []);
    }

    method Add(tag: bv8, data: Bytes)
      requires Valid()
      modifies this
      ensures Valid() && msg == old(msg).(ies := old(msg).ies + [IE(tag, data)])
      ensures buf == old(buf) + [tag, LowByte(|data|)] + data
    {
      hide LowByte, EncodeIEs;
      buf := buf + [tag, LowByte(|data|)];
      buf := buf + data;
      EncodeIEsSnoc(msg.ies, IE(tag, data));
      msg := msg.(ies := msg.ies + [IE(tag, data)]);
      assert buf == old(buf) + EncodeIE(IE(tag, data));
    }

    method AddByte(tag: bv8, val: bv8)
      requires Valid()
      modifies this
      ensures Valid() && msg == old(msg).(ies := old(msg).ies + [IE(tag, [val])])
      ensures buf == old(buf) + [tag, 0x01, val]
    {
      OneOctet();
      Add(tag, [val]);
    }
  }

  // ---------------------------------------------------------------- IPA framing

  datatype IpaMsg = IpaMsg(proto: bv8, ext: bv8, payload: Bytes)

  const PROTO_OSMO: bv8 := 0xFE
  const PROTO_OSMO_LEGACY: bv8 := 0xEE
  const EXT_GSUP: bv8 := 0x05

  /**
   Two length octets, the protocol, and as many octets as the length says: of the GSUP protocols the first one is the
   extension, of any other all are payload. An error exactly when octets are missing.
   */
  predicate IsFrame(s: Bytes, r: Result<(IpaMsg, Bytes)>) {
    if |s| < 3 then r == Err
    else
      var n := 256 * Nat(s[0]) + Nat(s[1]);
      if |s| < 3 + n then r == Err
      else if n > 0 && (s[2] == 0xFE || s[2] == 0xEE) then r == Ok((IpaMsg(s[2], s[3], s[4..3 + n]), s[3 + n..]))
      else r == Ok((IpaMsg(s[2], 0, s[3..3 + n]), s[3 + n..]))
  }

  /** ipaRead on the bytes received so far: a frame and what follows it, or an error when it is incomplete. */
  method IpaRead(stream: Bytes) returns (r: Result<(IpaMsg, Bytes)>)
    ensures r == ReadFrame(stream)
    ensures IsFrame(stream, r)
  {
    hide Nat;
    if |stream| < 3 {
      return Err;
    }
    var length := Uint16(stream[..2]);
    var proto := stream[2];
    if length == 0 {
      assert stream[3..3] == [];
      return Ok((IpaMsg(proto, 0, []), stream[3..]));
    }
    if |stream| < 3 + length {
      return Err;
    }
    var body := stream[3..3 + length];
    var msg := IpaMsg(proto, 0, []);
    if proto == PROTO_OSMO || proto == PROTO_OSMO_LEGACY {
      msg := msg.(ext := body[0], payload := body[1..]);
    } else {
      msg := msg.(payload := body);
    }
    return Ok((msg, stream[3 + length..]));
  }

  function ReadFrame(stream: Bytes): Result<(IpaMsg, Bytes)> {
    if |stream| < 3 then Err else
    var length := Uint16(stream[..2]);
    if |stream| < 3 + length then Err else
    var rest, body := stream[3 + length..], stream[3..3 + length];
    if length > 0 && (stream[2] == PROTO_OSMO || stream[2] == PROTO_OSMO_LEGACY)
    then Ok((IpaMsg(stream[2], body[0], body[1..]), rest))
    else Ok((IpaMsg(stream[2], 0, body), rest))
  }

  function Frame(proto: bv8, payload: Bytes): Bytes {
    Be16(1 + |payload|) + [proto, EXT_GSUP] + payload
  }

  lemma FrameOctets(proto: bv8, payload: Bytes)
    ensures Frame(proto, payload) == [LowByte((1 + |payload|) / 256), LowByte(1 + |payload|), proto, 0x05] + payload
  {
    hide LowByte;
  }

  /** ipaWriteGSUP: the frame is filled by offset. */
  method IpaWriteGSUP(proto: bv8, payload: Bytes) returns (r: Bytes)
    ensures r == Frame(proto, payload)
    ensures r == [LowByte((1 + |payload|) / 256), LowByte(1 + |payload|), proto, 0x05] + payload
  {
    hide LowByte, Be16;
    FrameOctets(proto, payload);
    var totalBody := 1 + |payload|;
    var frame := new bv8[3 + totalBody];
    var header := Be16(totalBody);
    frame[0], frame[1] := header[0], header[1];
    frame[2] := proto;
    frame[3] := EXT_GSUP;
    for i := 0 to |payload|
      invariant frame[0] == header[0] && frame[1] == header[1] && frame[2] == proto && frame[3] == EXT_GSUP
      invariant forall k :: 0 <= k < i ==> frame[4 + k] == payload[k]
    {
      frame[4 + i] := payload[i];
    }
    r := frame[..];
  }

  /** A GSUP frame is read back, with the stream left at the next frame, exactly when its length fits 16 bits. */
  lemma FrameRoundTrip(proto: bv8, payload: Bytes, next: Bytes)
    requires proto == 0xFE || proto == 0xEE
    ensures ReadFrame(Frame(proto, payload) + next) == Ok((IpaMsg(proto, 0x05, payload), next))
            <==> 1 + |payload| < 65536
  {
    hide Nat, LowByte, Be16, Uint16;
    var n := 1 + |payload|;
    var s := Frame(proto, payload) + next;
    assert s[..2] == Be16(n);
    Uint16OfBe16(n);
    if n < 65536 {
      assert s[3..3 + n] == [EXT_GSUP] + payload && s[3 + n..] == next;
      assert s[2] == proto;
    }
  }

  // ---------------------------------------------------------------- SendAuthInfo result

  /** Kc of TS 55.205: the exclusive or of the four halves of CK and IK. */
  function Kc(ck: Bytes, ik: Bytes): Bytes
    requires |ck| == 16 && |ik| == 16
  {
    Xor(Xor(ck[..8], ck[8..]), Xor(ik[..8], ik[8..]))
  }

  method Derive2GKc(ck: Bytes, ik: Bytes) returns (kc: Bytes)
    requires |ck| == 16 && |ik| == 16
    ensures kc == Kc(ck, ik)
  {
    var out := new bv8[8];
    for i := 0 to 8
      invariant forall k :: 0 <= k < i ==> out[k] == Kc(ck, ik)[k]
    {
      assert Kc(ck, ik)[i] == (ck[i] ^ ck[i + 8]) ^ (ik[i] ^ ik[i + 8]);
      out[i] := ck[i] ^ ck[i + 8] ^ ik[i] ^ ik[i + 8];
    }
    kc := out[..];
  }

  predicate WellSized(v: EapAkaVector) {
    |v.xres| == 8 && |v.autn| == 16 && |v.ck| == 16 && |v.ik| == 16
  }

  function TupleIEs(v: EapAkaVector): (ies: seq<IE>)
    requires WellSized(v)
    ensures Encodable(ies)
  {
    [IE(IE_RAND, v.rand), IE(IE_SRES, v.xres[..4]), IE(IE_KC, Kc(v.ck, v.ik)), IE(IE_IK, v.ik), IE(IE_CK, v.ck),
     IE(IE_AUTN, v.autn), IE(IE_XRES, v.xres)]
  }

  /** The parsed tuple has seven elements, which hold the seven values of v under their tags. */
  ghost predicate TupleHolds(ies: seq<IE>, v: EapAkaVector)
    requires WellSized(v)
  {
    && |ies| == 7
    && First(ies, 0x20) == Some(IE(0x20, v.rand)) && First(ies, 0x21) == Some(IE(0x21, v.xres[..4]))
    && First(ies, 0x22).Some? && IsKc(First(ies, 0x22).value.data, v.ck, v.ik)
    && First(ies, 0x23) == Some(IE(0x23, v.ik)) && First(ies, 0x24) == Some(IE(0x24, v.ck))
    && First(ies, 0x25) == Some(IE(0x25, v.autn)) && First(ies, 0x27) == Some(IE(0x27, v.xres))
  }

  /** TS 55.205: every octet of Kc is the exclusive or of those of both halves of CK and IK. */
  predicate IsKc(kc: Bytes, ck: Bytes, ik: Bytes)
    requires |ck| == 16 && |ik| == 16
  {
    |kc| == 8 && forall j :: 0 <= j < 8 ==> kc[j] == ck[j] ^ ck[j + 8] ^ ik[j] ^ ik[j + 8]
  }

  lemma KcIsKc(ck: Bytes, ik: Bytes)
    requires |ck| == 16 && |ik| == 16
    ensures IsKc(Kc(ck, ik), ck, ik)
  {
    forall j | 0 <= j < 8
      ensures Kc(ck, ik)[j] == ck[j] ^ ck[j + 8] ^ ik[j] ^ ik[j + 8]
    {
      assert Kc(ck, ik)[j] == (ck[j] ^ ck[j + 8]) ^ (ik[j] ^ ik[j + 8]);
    }
  }

  /** In a list of seven elements with different tags each one is found under its tag. */
  lemma FirstAt(ies: seq<IE>, n: nat)
    requires n < |ies| && forall i :: 0 <= i < n ==> ies[i].tag != ies[n].tag
    ensures First(ies, ies[n].tag) == Some(ies[n])
  {
    if n > 0 {
      FirstAt(ies[1..], n - 1);
    }
  }

  lemma TupleIEsHold(v: EapAkaVector)
    requires WellSized(v)
    ensures TupleHolds(TupleIEs(v), v)
  {
    hide First, Kc;
    var ies := TupleIEs(v);
    KcIsKc(v.ck, v.ik);
    FirstAt(ies, 0);
    FirstAt(ies, 1);
    FirstAt(ies, 2);
    FirstAt(ies, 3);
    FirstAt(ies, 4);
    FirstAt(ies, 5);
    FirstAt(ies, 6);
  }

  /** n is the requested octet of element 0x29 when it is 1 to 5, 5 when it is more, and 1 for zero or none. */
  ghost predicate Asks(req: Msg, n: nat) {
    var ie := First(req.ies, 0x29);
    n == if ie.None? || ie.value.data == [] then 1
         else if Nat(ie.value.data[0]) > 5 then 5
         else if Nat(ie.value.data[0]) < 1 then 1
         else Nat(ie.value.data[0])
  }

  /** The number of vectors to send. */
  method NumVectors(req: Msg) returns (n: nat)
    ensures 1 <= n <= 5 && Asks(req, n)
  {
    n := 1;
    var ie := Get(req, IE_NUMBER_OF_VECTORS);
    if ie.Some? && |ie.value.data| > 0 {
      n := Nat(ie.value.data[0]);
      if n < 1 {
        n := 1;
      }
      if n > 5 {
        n := 5;
      }
    }
  }

  method BuildTuple(v: EapAkaVector) returns (b: Bytes)
    requires WellSized(v)
    ensures b == EncodeIEs(TupleIEs(v))
  {
    var kc := Derive2GKc(v.ck, v.ik);
    var tuple := new Builder.NewMsg(0x00);
    tuple.Add(IE_RAND, v.rand);
    tuple.Add(IE_SRES, v.xres[0..4]);
    tuple.Add(IE_KC, kc);
    tuple.Add(IE_IK, v.ik);
    tuple.Add(IE_CK, v.ck);
    tuple.Add(IE_AUTN, v.autn);
    tuple.Add(IE_XRES, v.xres);
    assert tuple.msg.ies == TupleIEs(v);
    b := tuple.buf[1..];
  }

  function TupleIE(v: EapAkaVector): IE
    requires WellSized(v)
  {
    IE(IE_AUTH_TUPLE, EncodeIEs(TupleIEs(v)))
  }

  function Tuples(vs: seq<EapAkaVector>): seq<IE>
    requires forall v :: v in vs ==> WellSized(v)
  {
    seq(|vs|, i requires 0 <= i < |vs| => TupleIE(vs[i]))
  }

  function SendAuthInfoRes(imsi: string, vs: seq<EapAkaVector>): Msg
    requires forall v :: v in vs ==> WellSized(v)
  {
    Msg(MSG_SEND_AUTH_INFO_RES, [IE(IE_IMSI, Packed(imsi))] + Tuples(vs))
  }

  /** One vector's tuple appended to a response. */
  method AddVector(resp: Builder, v: EapAkaVector)
    requires resp.Valid() && WellSized(v)
    modifies resp
    ensures resp.Valid() && resp.msg == old(resp.msg).(ies := old(resp.msg).ies + [TupleIE(v)])
  {
    var tuple := BuildTuple(v);
    resp.Add(IE_AUTH_TUPLE, tuple);
  }

  /** The response of handleAIR for vectors already generated. */
  method BuildSendAuthInfo(imsi: string, vs: seq<EapAkaVector>) returns (payload: Bytes)
    requires forall v :: v in vs ==> WellSized(v)
    ensures payload == Encode(SendAuthInfoRes(imsi, vs))
  {
    hide TupleIEs, Encode, EncodeIEs;
    var resp := new Builder.NewMsg(MSG_SEND_AUTH_INFO_RES);
    var id := EncodeIMSI(imsi);
    resp.Add(IE_IMSI, id);
    for i := 0 to |vs|
      invariant resp.Valid() && resp.msg == SendAuthInfoRes(imsi, vs[..i])
    {
      AddVector(resp, vs[i]);
      assert Tuples(vs[..i + 1]) == Tuples(vs[..i]) + [TupleIE(vs[i])];
    }
    assert vs[..|vs|] == vs;
    payload := resp.buf;
  }

  lemma TupleSize(v: EapAkaVector)
    requires WellSized(v)
    ensures |EncodeIEs(TupleIEs(v))| == 98
  {
    var t := TupleIEs(v);
    assert |EncodeIEs(t[7..])| == 0;
    assert t[6..][1..] == t[7..] && |EncodeIEs(t[6..])| == 10;
    assert t[5..][1..] == t[6..] && |EncodeIEs(t[5..])| == 28;
    assert t[4..][1..] == t[5..] && |EncodeIEs(t[4..])| == 46;
    assert t[3..][1..] == t[4..] && |EncodeIEs(t[3..])| == 64;
    assert t[2..][1..] == t[3..] && |EncodeIEs(t[2..])| == 74;
    assert t[1..][1..] == t[2..] && |EncodeIEs(t[1..])| == 80;
    assert t[0..] == t;
  }

  lemma {:induction false} TuplesSize(vs: seq<EapAkaVector>)
    requires forall v :: v in vs ==> WellSized(v)
    ensures |EncodeIEs(Tuples(vs))| == 100 * |vs|
    ensures Encodable(Tuples(vs))
  {
    if vs != [] {
      TupleSize(vs[0]);
      TuplesSize(vs[1..]);
      assert Tuples(vs)[1..] == Tuples(vs[1..]);
      assert Tuples(vs) == [TupleIE(vs[0])] + Tuples(vs[1..]);
    }
  }

  lemma {:induction false} AllTuples(ies: seq<IE>, vs: seq<EapAkaVector>)
    requires forall v :: v in vs ==> WellSized(v)
    requires All(ies, IE_AUTH_TUPLE) == []
    ensures All(ies + Tuples(vs), IE_AUTH_TUPLE) == Tuples(vs)
  {
    hide TupleIEs, EncodeIEs;
    if vs == [] {
      assert ies + Tuples(vs) == ies;
    } else {
      var n := |vs| - 1;
      AllTuples(ies, vs[..n]);
      var t := Tuples(vs);
      assert t == Tuples(vs[..n]) + [TupleIE(vs[n])];
      assert (ies + t)[..|ies| + n] == ies + Tuples(vs[..n]);
    }
  }

  lemma TupleReadBack(v: EapAkaVector)
    requires WellSized(v)
    ensures ParseIEs(TupleIE(v).data) == Ok(TupleIEs(v))
  {
    ParseOfEncodeIEs(TupleIEs(v), []);
    assert TupleIE(v).data + [] == TupleIE(v).data;
  }

  lemma ImsiShort(imsi: string)
    requires |imsi| <= 510
    ensures |Packed(imsi)| <= 255
  {
  }

  lemma FirstIsFirst(ie: IE, rest: seq<IE>)
    ensures First([ie] + rest, ie.tag) == Some(ie)
  {
  }

  lemma EncodableCons(ie: IE, rest: seq<IE>)
    requires |ie.data| <= 255 && Encodable(rest)
    ensures Encodable([ie] + rest)
  {
  }

  lemma SendAuthInfoIEs(imsi: string, vs: seq<EapAkaVector>)
    requires |imsi| <= 510 && forall v :: v in vs ==> WellSized(v)
    ensures var ies := SendAuthInfoRes(imsi, vs).ies;
            && First(ies, IE_IMSI) == Some(IE(IE_IMSI, Packed(imsi)))
            && All(ies, IE_AUTH_TUPLE) == Tuples(vs) && Encodable(ies)
            && |EncodeIEs(ies)| == 2 + |Packed(imsi)| + 100 * |vs|
  {
    hide TupleIEs, Tuples, TupleIE, Packed, First, EncodeIEs, Encodable;
    var id := IE(IE_IMSI, Packed(imsi));
    ImsiShort(imsi);
    TuplesSize(vs);
    FirstIsFirst(id, Tuples(vs));
    EncodeCons(id, Tuples(vs));
    EncodableCons(id, Tuples(vs));
    assert All([id][..0], IE_AUTH_TUPLE) == [];
    AllTuples([id], vs);
  }

  /**
   End to end: for up to five vectors the framed answer is one IPA frame, decodes to a SendAuthInfo result for the IMSI
   that was asked for, and holds exactly the vectors' tuples, in which RAND, SRES, Kc, IK, CK, AUTN and XRES stand under
   their tags.
   */
  lemma SendAuthInfoReadBack(imsi: string, vs: seq<EapAkaVector>, proto: bv8, next: Bytes)
    requires AllDigits(imsi) && |imsi| <= 510
    requires 1 <= |vs| <= 5 && forall v :: v in vs ==> WellSized(v)
    requires proto == 0xFE || proto == 0xEE
    ensures var res := SendAuthInfoRes(imsi, vs);
            && ReadFrame(Frame(proto, Encode(res)) + next) == Ok((IpaMsg(proto, 0x05, Encode(res)), next))
            && Parse(Encode(res)) == Ok(res) && res.kind == 0x0A
            && First(res.ies, 0x01).Some? && Unpack(ImsiChars, First(res.ies, 0x01).value.data) == imsi
            && |All(res.ies, 0x03)| == |vs|
            && forall i :: 0 <= i < |vs| ==>
                 var tuple := ParseIEs(All(res.ies, 0x03)[i].data);
                 tuple == Ok(TupleIEs(vs[i])) && TupleHolds(tuple.value, vs[i])
  {
    hide First, All, TupleIEs, EncodeIEs, TupleHolds;
    var res := SendAuthInfoRes(imsi, vs);
    SendAuthInfoIEs(imsi, vs);
    ImsiRoundTrip(imsi);
    FrameRoundTrip(proto, Encode(res), next);
    DecodeInvertsBuilder(res);
    forall i | 0 <= i < |vs|
      ensures ParseIEs(TupleIE(vs[i]).data) == Ok(TupleIEs(vs[i])) && TupleHolds(TupleIEs(vs[i]), vs[i])
    {
      TupleReadBack(vs[i]);
      TupleIEsHold(vs[i]);
    }
  }
}

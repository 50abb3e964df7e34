/** parseIDResp of internal/gsup/ipa.go: the unit name in an IPA CCM ID_RESP. */
module IdResp {
  import opened Bytes

  const UNIT_NAME: bv8 := 0x01

  /** A tag whose length octet is zero makes the Go slice expression end before it starts. */
  datatype Outcome = Name(value: Bytes) | Panics

  datatype Tag = Tag(tag: bv8, value: Bytes)

  /** The length octet counts the tag octet too. */
  function PrintTag(t: Tag): Bytes {
    [LowByte(1 + |t.value|), t.tag] + t.value
  }

  function PrintTags(tags: seq<Tag>): Bytes {
    if tags == [] then [] else PrintTag(tags[0]) + PrintTags(tags[1..])
  }

  function ReadName(b: Bytes): Outcome
    decreases |b|
  {
    if |b| < 2 then Name([])
    else
      var l := Nat(b[0]);
      if 1 + l > |b| then Name([])
      else if l == 0 then Panics
      else if b[1] == UNIT_NAME then Name(b[2..1 + l])
      else ReadName(b[1 + l..])
  }

  method ParseIDResp(payload: Bytes) returns (r: Outcome)
    ensures r == if payload == [] then Name([]) else ReadName(payload[1..])
  {
    var i := 1;
    while i < |payload|
      invariant payload != [] ==> 1 <= i <= |payload| && ReadName(payload[1..]) == ReadName(payload[i..])
    {
      if i + 1 >= |payload| {
        break;
      }
      var tagLen, tag := Nat(payload[i]), payload[i + 1];
      ghost var rest := payload[i..];
      assert rest[0] == payload[i] && rest[1] == payload[i + 1];
      i := i + 2;
      if i + tagLen - 1 > |payload| {
        break;
      }
      if tagLen == 0 {
        return Panics;
      }
      var val := payload[i..i + tagLen - 1];
      i := i + tagLen - 1;
      assert val == rest[2..1 + tagLen] && payload[i..] == rest[1 + tagLen..];
      if tag == UNIT_NAME {
        return Name(val);
      }
    }
    return Name([]);
  }

  predicate Printable(tags: seq<Tag>) {
    forall t :: t in tags ==> |t.value| <= 254
  }

  predicate Nameless(tags: seq<Tag>) {
    forall t :: t in tags ==> t.tag != UNIT_NAME
  }

  lemma ReadOne(t: Tag, rest: Bytes)
    requires |t.value| <= 254
    ensures ReadName(PrintTag(t) + rest) == if t.tag == UNIT_NAME then Name(t.value) else ReadName(rest)
  {
    hide Nat, LowByte;
    LowByteAsInt(1 + |t.value|);
    var b := PrintTag(t) + rest;
    assert b[2..2 + |t.value|] == t.value && b[2 + |t.value|..] == rest;
  }

  lemma {:induction false} SkipNameless(tags: seq<Tag>, rest: Bytes)
    requires Printable(tags) && Nameless(tags)
    ensures ReadName(PrintTags(tags) + rest) == ReadName(rest)
  {
    if tags == [] {
      assert [] + rest == rest;
    } else {
      var tail := PrintTags(tags[1..]) + rest;
      assert PrintTags(tags) + rest == PrintTag(tags[0]) + tail;
      ReadOne(tags[0], tail);
      SkipNameless(tags[1..], rest);
    }
  }

  /** The first unit name is found behind any other tags, whatever follows it. */
  lemma FirstNameRead(tags: seq<Tag>, name: Bytes, rest: Bytes)
    requires Printable(tags) && (forall t :: t in tags ==> t.tag != 0x01) && |name| <= 254
    ensures ReadName(PrintTags(tags) + ([LowByte(1 + |name|), 0x01] + name + rest)) == Name(name)
  {
    SkipNameless(tags, PrintTag(Tag(UNIT_NAME, name)) + rest);
    ReadOne(Tag(UNIT_NAME, name), rest);
  }

  /** b consists of whole tags other than unit names followed by a zero length octet and at least one more. */
  predicate StopsBehind(b: Bytes, tags: seq<Tag>, rest: Bytes) {
    Printable(tags) && Nameless(tags) && rest != [] && b == PrintTags(tags) + ([0 as bv8] + rest)
  }

  ghost predicate ReachesZeroLength(b: Bytes) {
    exists tags, rest :: StopsBehind(b, tags, rest)
  }

  lemma OneTagFurther(b: Bytes, l: nat, tags: seq<Tag>, rest: Bytes)
    requires |b| >= 2 && l == Nat(b[0]) && 1 <= l && 1 + l <= |b| && b[1] != UNIT_NAME
    requires StopsBehind(b[1 + l..], tags, rest)
    ensures StopsBehind(b, [Tag(b[1], b[2..1 + l])] + tags, rest)
  {
    hide Nat, LowByte, PrintTag;
    var t := Tag(b[1], b[2..1 + l]);
    PrintOfRead(b, l);
    assert ([t] + tags)[1..] == tags;
    assert PrintTag(t) + (PrintTags(tags) + ([0] + rest)) == (PrintTag(t) + PrintTags(tags)) + ([0] + rest);
  }

  lemma ZeroLength(rest: Bytes)
    requires rest != []
    ensures ReadName([0] + rest) == Panics
  {
    assert Nat(0) == 0;
  }

  lemma PrintOfRead(b: Bytes, l: nat)
    requires |b| >= 2 && l == Nat(b[0]) && 1 <= l && 1 + l <= |b|
    ensures b == PrintTag(Tag(b[1], b[2..1 + l])) + b[1 + l..]
  {
    hide Nat, LowByte;
    IntAsByte(b[0]);
  }

  lemma ZeroByte(b: bv8)
    requires Nat(b) == 0
    ensures b == 0
  {
    IntAsByte(b);
    assert LowByte(0) == 0;
  }

  lemma {:induction false} PanicReaches(b: Bytes)
    requires ReadName(b) == Panics
    ensures ReachesZeroLength(b)
    decreases |b|
  {
    hide Nat, LowByte, PrintTags, StopsBehind;
    var l := Nat(b[0]);
    if l == 0 {
      ZeroByte(b[0]);
      StopsHere(b);
    } else {
      PanicReaches(b[1 + l..]);
      var tags, rest :| StopsBehind(b[1 + l..], tags, rest);
      OneTagFurther(b, l, tags, rest);
    }
  }

  lemma StopsHere(b: Bytes)
    requires |b| >= 2 && b[0] == 0
    ensures StopsBehind(b, [], b[1..])
  {
  }

  /** It goes wrong exactly when a zero length octet is reached before any unit name. */
  lemma PanicsIff(b: Bytes)
    ensures ReadName(b) == Panics <==> ReachesZeroLength(b)
  {
    if ReadName(b) == Panics {
      PanicReaches(b);
    }
    if tags, rest :| StopsBehind(b, tags, rest) {
      SkipNameless(tags, [0] + rest);
      ZeroLength(rest);
    }
  }
}

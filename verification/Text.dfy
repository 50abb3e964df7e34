/** The Go string functions the modelled code calls: strconv, strings and encoding/hex. */
module Text {
  import opened Bytes

  // ---------------------------------------------------------------- decimal numbers

  predicate IsDigit(c: char) {
    '0' <= c <= '9'
  }

  predicate AllDigits(s: string) {
    forall i {:trigger s[i]} :: 0 <= i < |s| ==> IsDigit(s[i])
  }

  function DigitChar(d: nat): char
    requires d < 10
  {
    (d + 48) as char
  }

  function DigitValue(c: char): nat
    requires IsDigit(c)
  {
    (c as nat) - 48
  }

  function NatText(n: nat): (s: string)
    ensures |s| > 0 && AllDigits(s)
  {
    if n < 10 then [DigitChar(n)] else NatText(n / 10) + [DigitChar(n % 10)]
  }

  function NatValue(s: string): nat
    requires AllDigits(s)
  {
    if s == "" then 0 else 10 * NatValue(s[..|s| - 1]) + DigitValue(s[|s| - 1])
  }

  /** strconv.Itoa, and fmt's %d. */
  function Itoa(n: int): (s: string)
    ensures |s| > 0
  {
    if n < 0 then "-" + NatText(-n) else NatText(n)
  }

  const MAX_INT64: int := 0x7FFF_FFFF_FFFF_FFFF

  predicate IsInt64(n: int) {
    -MAX_INT64 - 1 <= n <= MAX_INT64
  }

  /** strconv.Atoi: an optional sign, at least one digit, in the range of int64. */
  function Atoi(s: string): Option<int> {
    if s == "" then None else
    var signed := s[0] == '+' || s[0] == '-';
    var digits := if signed then s[1..] else s;
    if digits == "" || !AllDigits(digits) then None else
    var m: int := NatValue(digits);
    var n := if s[0] == '-' then -m else m;
    if IsInt64(n) then Some(n) else None
  }

  /** Digits with an optional sign are read, within int64, and nothing else. */
  lemma AtoiIs(digits: string)
    requires digits != "" && AllDigits(digits)
    ensures Atoi(digits) == Atoi("+" + digits)
            == if NatValue(digits) < 0x8000_0000_0000_0000 then Some(NatValue(digits)) else None
    ensures var m: int := NatValue(digits);
            Atoi("-" + digits) == if m <= 0x8000_0000_0000_0000 then Some(-m) else None
    ensures Atoi("") == Atoi("+") == Atoi("-") == None
  {
    assert ("+" + digits)[1..] == digits && ("-" + digits)[1..] == digits;
    assert IsDigit(digits[0]);
  }

  lemma {:induction false} NatValueOfText(n: nat)
    ensures NatValue(NatText(n)) == n
  {
    if n >= 10 {
      NatValueOfText(n / 10);
      assert NatText(n)[..|NatText(n)| - 1] == NatText(n / 10);
    }
  }

  lemma AtoiOfItoa(n: int)
    requires IsInt64(n)
    ensures Atoi(Itoa(n)) == Some(n)
  {
    var m := if n < 0 then -n else n;
    NatValueOfText(m);
    assert IsDigit(NatText(m)[0]);
    assert ("-" + NatText(m))[1..] == NatText(m);
  }

  /** Digits stand highest first: one more digit is appended on the right. */
  lemma ItoaAppends(n: nat, d: nat)
    requires d < 10
    ensures Itoa(d) == [(48 + d) as char]
    ensures n > 0 ==> Itoa(10 * n + d) == Itoa(n) + [(48 + d) as char]
  {
    assert (10 * n + d) / 10 == n && (10 * n + d) % 10 == d;
  }

  lemma ItoaChars(n: int, c: char)
    requires c in Itoa(n)
    ensures IsDigit(c) || c == '-'
  {
    var m := if n < 0 then -n else n;
    assert AllDigits(NatText(m));
  }

  // ---------------------------------------------------------------- separators

  /** Parts are joined in order, with one separator before each but the first. */
  lemma JoinPeels(p: string, parts: seq<string>, sep: char)
    ensures Join([], sep) == "" && Join([p], sep) == p
    ensures parts != [] ==> Join([p] + parts, sep) == p + [sep] + Join(parts, sep)
  {
    assert ([p] + parts)[1..] == parts;
  }

  /** Index of the first sep in s, or |s|. */
  function IndexOf(s: string, sep: char): (k: nat)
    ensures k <= |s|
    ensures sep !in s[..k]
    ensures k < |s| ==> s[k] == sep
  {
    if s == "" || s[0] == sep then 0
    else
      var k := IndexOf(s[1..], sep) + 1;
      assert s[..k] == [s[0]] + s[1..][..k - 1];
      k
  }

  /** strings.Split on a one-character separator. */
  function Split(s: string, sep: char): (parts: seq<string>)
    ensures |parts| > 0
    decreases |s|
  {
    var k := IndexOf(s, sep);
    if k == |s| then [s] else [s[..k]] + Split(s[k + 1..], sep)
  }

  /** strings.SplitN with n > 0: at most n parts, the last one unsplit. */
  function SplitN(s: string, sep: char, n: nat): (parts: seq<string>)
    requires n > 0
    ensures 0 < |parts| <= n
    decreases n
  {
    var k := IndexOf(s, sep);
    if n == 1 || k == |s| then [s] else [s[..k]] + SplitN(s[k + 1..], sep, n - 1)
  }

  /** strings.Join with a one-character separator. */
  function Join(parts: seq<string>, sep: char): string {
    if |parts| == 0 then ""
    else if |parts| == 1 then parts[0]
    else parts[0] + [sep] + Join(parts[1..], sep)
  }

  lemma IndexOfFirst(a: string, sep: char, rest: string)
    requires sep !in a
    ensures IndexOf(a, sep) == |a|
    ensures IndexOf(a + [sep] + rest, sep) == |a|
  {
    var s := a + [sep] + rest;
    assert s[|a|] == sep;
    assert forall i :: 0 <= i < |a| ==> s[i] == a[i] && a[i] in a;
  }

  lemma SplitStep(head: string, sep: char, rest: string)
    requires sep !in head
    ensures Split(head, sep) == [head] && Split(head + [sep] + rest, sep) == [head] + Split(rest, sep)
  {
    IndexOfFirst(head, sep, rest);
    var s := head + [sep] + rest;
    assert s[..|head|] == head && s[|head| + 1..] == rest;
  }

  /** Splitting inverts joining for parts without the separator. */
  lemma {:induction false} SplitOfJoin(parts: seq<string>, sep: char)
    requires parts != []
    requires forall p :: p in parts ==> sep !in p
    ensures Split(Join(parts, sep), sep) == parts
    decreases |parts|
  {
    hide Split, Join, IndexOf;
    var head, tail := parts[0], parts[1..];
    assert parts == [head] + tail;
    JoinPeels(head, tail, sep);
    if tail == [] {
      SplitStep(head, sep, "");
      assert parts == [head];
    } else {
      SplitOfJoin(tail, sep);
      SplitStep(head, sep, Join(tail, sep));
    }
  }

  /** The same for SplitN, whose last part may hold separators. */
  lemma {:induction false} SplitNOfJoin(parts: seq<string>, sep: char)
    requires parts != []
    requires forall i :: 0 <= i < |parts| - 1 ==> sep !in parts[i]
    ensures SplitN(Join(parts, sep), sep, |parts|) == parts
    decreases |parts|
  {
    hide SplitN, Join, IndexOf;
    var head, tail := parts[0], parts[1..];
    assert parts == [head] + tail;
    JoinPeels(head, tail, sep);
    if tail == [] {
      SplitNOne(head, sep);
      assert parts == [head];
    } else {
      assert forall i :: 0 <= i < |tail| - 1 ==> tail[i] == parts[i + 1];
      SplitNOfJoin(tail, sep);
      SplitNStep(head, sep, Join(tail, sep), |tail|);
    }
  }

  lemma SplitNOne(s: string, sep: char)
    ensures SplitN(s, sep, 1) == [s]
  {
  }

  lemma SplitNStep(head: string, sep: char, rest: string, n: nat)
    requires sep !in head && n > 0
    ensures SplitN(head + [sep] + rest, sep, n + 1) == [head] + SplitN(rest, sep, n)
  {
    IndexOfFirst(head, sep, rest);
    var s := head + [sep] + rest;
    assert s[..|head|] == head && s[|head| + 1..] == rest;
  }

  // ---------------------------------------------------------------- white space

  /** unicode.IsSpace. */
  predicate IsSpace(c: char) {
    var n := c as int;
    9 <= n <= 13 || n == 32 || n == 0x85 || n == 0xA0 || n == 0x1680 || 0x2000 <= n <= 0x200A
    || n == 0x2028 || n == 0x2029 || n == 0x202F || n == 0x205F || n == 0x3000
  }

  /** The white space of Unicode, by code point. */
  const WHITE_SPACE: set<int> := {
    0x09, 0x0A, 0x0B, 0x0C, 0x0D, 0x20, 0x85, 0xA0, 0x1680, 0x2000, 0x2001, 0x2002, 0x2003, 0x2004, 0x2005, 0x2006,
    0x2007, 0x2008, 0x2009, 0x200A, 0x2028, 0x2029, 0x202F, 0x205F, 0x3000}

  lemma SpacesOfUnicode(c: char)
    ensures IsSpace(c) <==> c as int in WHITE_SPACE
  {
  }

  predicate AllSpace(s: string) {
    forall i :: 0 <= i < |s| ==> IsSpace(s[i])
  }

  /** strings.TrimSpace. */
  function TrimSpace(s: string): string {
    if s == "" then ""
    else if IsSpace(s[0]) then TrimSpace(s[1..])
    else if IsSpace(s[|s| - 1]) then TrimSpace(s[..|s| - 1])
    else s
  }

  /** t is s without front and back, which are white space, and does not start or end with any. */
  ghost predicate Trims(s: string, front: string, t: string, back: string) {
    && s == front + t + back && AllSpace(front) && AllSpace(back)
    && (t != "" ==> !IsSpace(t[0]) && !IsSpace(t[|t| - 1]))
  }

  lemma TrimsNothing(s: string)
    requires s != "" ==> !IsSpace(s[0]) && !IsSpace(s[|s| - 1])
    ensures Trims(s, "", s, "")
  {
    hide IsSpace;
  }

  lemma TrimsOneMore(c: char, s: string, front: string, t: string, back: string)
    requires IsSpace(c) && Trims(s, front, t, back)
    ensures Trims([c] + s, [c] + front, t, back)
    ensures Trims(s + [c], front, t, back + [c])
  {
    hide IsSpace;
    assert [c] + (front + t + back) == ([c] + front) + t + back;
    assert (front + t + back) + [c] == front + t + (back + [c]);
  }

  /** Trimming takes off white space at both ends, all of it and nothing else. */
  lemma {:induction false} TrimSpaceIs(s: string) returns (front: string, back: string)
    ensures Trims(s, front, TrimSpace(s), back)
    decreases |s|
  {
    hide IsSpace, Trims;
    if s == "" || (!IsSpace(s[0]) && !IsSpace(s[|s| - 1])) {
      TrimsNothing(s);
      front, back := "", "";
    } else if IsSpace(s[0]) {
      front, back := TrimSpaceIs(s[1..]);
      TrimsOneMore(s[0], s[1..], front, TrimSpace(s[1..]), back);
      assert s == [s[0]] + s[1..];
      front := [s[0]] + front;
    } else {
      var c, rest := s[|s| - 1], s[..|s| - 1];
      front, back := TrimSpaceIs(rest);
      TrimsOneMore(c, rest, front, TrimSpace(rest), back);
      assert s == rest + [c];
      back := back + [c];
    }
  }

  /** Length of the leading run of characters that are not white space. */
  function WordLength(s: string): (k: nat)
    ensures k <= |s|
    ensures forall i :: 0 <= i < k ==> !IsSpace(s[i])
    ensures k < |s| ==> IsSpace(s[k])
  {
    if s == "" || IsSpace(s[0]) then 0 else WordLength(s[1..]) + 1
  }

  /** strings.Fields: the maximal runs of characters that are not white space. */
  function Fields(s: string): (words: seq<string>)
    decreases |s|
  {
    if s == "" then []
    else if IsSpace(s[0]) then Fields(s[1..])
    else [s[..WordLength(s)]] + Fields(s[WordLength(s)..])
  }

  predicate IsWord(w: string) {
    w != "" && forall i :: 0 <= i < |w| ==> !IsSpace(w[i])
  }

  predicate AreWords(words: seq<string>) {
    forall i {:trigger words[i]} :: 0 <= i < |words| ==> IsWord(words[i])
  }

  lemma WordLengthIs(w: string, rest: string)
    requires IsWord(w)
    requires rest == "" || IsSpace(rest[0])
    ensures WordLength(w + rest) == |w|
  {
    var s := w + rest;
    assert forall i :: 0 <= i < |w| ==> s[i] == w[i];
    assert rest != "" ==> s[|w|] == rest[0];
  }

  /** The words of a line are read from the left, whatever white space stands before and between them. */
  lemma {:induction false} FieldsPeels(pad: string, w: string, rest: string)
    requires AllSpace(pad) && IsWord(w) && (rest == "" || IsSpace(rest[0]))
    ensures Fields(pad) == []
    ensures Fields(pad + w + rest) == [w] + Fields(rest)
    decreases |pad|
  {
    var s := pad + w + rest;
    if pad == "" {
      WordLengthIs(w, rest);
      assert s == w + rest && s[0] == w[0] && s[..|w|] == w && s[|w|..] == rest;
    } else {
      FieldsPeels(pad[1..], w, rest);
      assert s[0] == pad[0] && s[1..] == pad[1..] + w + rest;
    }
  }

  /** Reading back a line of words joined by single blanks. */
  lemma {:induction false} FieldsOfJoin(words: seq<string>)
    requires AreWords(words)
    ensures Fields(Join(words, ' ')) == words
    decreases |words|
  {
    if words != [] {
      var w, tail := words[0], words[1..];
      var rest := if tail == [] then "" else " " + Join(tail, ' ');
      var s := Join(words, ' ');
      assert s == w + rest;
      assert s[0] == w[0];
      WordLengthIs(w, rest);
      assert s[..|w|] == w && s[|w|..] == rest;
      FieldsOfJoin(tail);
      if tail != [] {
        assert rest[1..] == Join(tail, ' ');
      }
    }
  }

  lemma {:induction false} FieldsAreWords(s: string)
    ensures AreWords(Fields(s))
    decreases |s|
  {
    if s == "" {
    } else if IsSpace(s[0]) {
      FieldsAreWords(s[1..]);
    } else {
      assert WordLength(s) > 0;
      FieldsAreWords(s[WordLength(s)..]);
    }
  }

  // ---------------------------------------------------------------- hexadecimal

  function HexDigit(n: bv8): char
    requires n < 16
  {
    if n < 10 then (Nat(n) + 48) as char else (Nat(n) + 87) as char
  }

  function HexValue(c: char): Option<bv8> {
    if '0' <= c <= '9' then Some(LowByte((c as nat) - 48))
    else if 'a' <= c <= 'f' then Some(LowByte((c as nat) - 87))
    else if 'A' <= c <= 'F' then Some(LowByte((c as nat) - 55))
    else None
  }

  /** hex.EncodeToString. */
  function EncodeHex(b: Bytes): string {
    if b == [] then "" else HexPair(b[0]) + EncodeHex(b[1..])
  }

  function HexPair(b: bv8): (s: string)
    ensures |s| == 2
  {
    [HexDigit(b >> 4), HexDigit(b & 0x0F)]
  }

  function PairValue(c: char, d: char): Option<bv8> {
    if HexValue(c) == None || HexValue(d) == None then None
    else Some((HexValue(c).value << 4) | HexValue(d).value)
  }

  /** hex.DecodeString: an even number of hexadecimal digits of either case. */
  function DecodeHex(s: string): Option<Bytes>
    decreases |s|
  {
    if s == "" then Some([])
    else if |s| == 1 || PairValue(s[0], s[1]) == None then None
    else
      match DecodeHex(s[2..])
      case None => None
      case Some(rest) => Some([PairValue(s[0], s[1]).value] + rest)
  }

  const HEX_DIGITS: string := "0123456789abcdef"

  /** Each byte gives two lower-case digits, the high half first. */
  lemma {:induction false} EncodeHexIs(b: Bytes)
    ensures |EncodeHex(b)| == 2 * |b|
    ensures forall i :: 0 <= i < |b| ==>
              && EncodeHex(b)[2 * i] == HEX_DIGITS[b[i] as int / 16]
              && EncodeHex(b)[2 * i + 1] == HEX_DIGITS[b[i] as int % 16]
  {
    if b != [] {
      var rest := EncodeHex(b[1..]);
      EncodeHexIs(b[1..]);
      HexPairIs(b[0]);
      forall i | 0 <= i < |b|
        ensures EncodeHex(b)[2 * i] == HEX_DIGITS[b[i] as int / 16]
        ensures EncodeHex(b)[2 * i + 1] == HEX_DIGITS[b[i] as int % 16]
      {
        if i > 0 {
          assert EncodeHex(b)[2 * i] == rest[2 * (i - 1)] && EncodeHex(b)[2 * i + 1] == rest[2 * (i - 1) + 1];
          assert b[1..][i - 1] == b[i];
        }
      }
    }
  }

  lemma HexPairIs(b: bv8)
    ensures HexPair(b) == [HEX_DIGITS[b as int / 16], HEX_DIGITS[b as int % 16]]
  {
    NatIsInt(b >> 4);
    NatIsInt(b & 0x0F);
    assert (b >> 4) as int == b as int / 16 && (b & 0x0F) as int == b as int % 16;
  }

  /** Capitals read like small letters, and nothing but hexadecimal digits is read. */
  lemma HexCases(c: char)
    ensures 'a' <= c <= 'f' ==> HexValue(((c as int) - 32) as char) == HexValue(c)
    ensures HexValue(c).None? <==> !('0' <= c <= '9' || 'a' <= c <= 'f' || 'A' <= c <= 'F')
  {
  }

  lemma HexValueOfDigit(n: bv8)
    requires n < 16
    ensures HexValue(HexDigit(n)) == Some(n)
  {
    IntAsByte(n);
    assert n < 10 ==> Nat(n) < 10;
    assert Nat(n) < 16;
  }

  lemma PairRoundTrip(b: bv8)
    ensures PairValue(HexPair(b)[0], HexPair(b)[1]) == Some(b)
  {
    HexValueOfDigit(b >> 4);
    HexValueOfDigit(b & 0x0F);
  }

  lemma {:induction false} DecodeOfEncodeHex(b: Bytes)
    ensures DecodeHex(EncodeHex(b)) == Some(b)
  {
    if b != [] {
      var s, pair := EncodeHex(b), HexPair(b[0]);
      PairRoundTrip(b[0]);
      DecodeOfEncodeHex(b[1..]);
      assert s == pair + EncodeHex(b[1..]);
      assert s[0] == pair[0] && s[1] == pair[1] && s[2..] == EncodeHex(b[1..]);
      assert [b[0]] + b[1..] == b;
    }
  }
}

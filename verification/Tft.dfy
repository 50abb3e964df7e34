/** The TFT rewrite of internal/diameter/gx/ccr.go on IPFilterRules (section 4.3.1 of RFC 6733). */
module Tft {
  import opened Bytes
  import opened Text

  function LowerChar(c: char): char {
    if 'A' <= c <= 'Z' then ((c as int) + 32) as char else c
  }

  /** strings.ToLower on ASCII text. */
  function Lower(s: string): (r: string)
    ensures |r| == |s|
  {
    seq(|s|, i requires 0 <= i < |s| => LowerChar(s[i]))
  }

  /** strings.EqualFold against a keyword. */
  predicate Is(token: string, keyword: string) {
    Lower(token) == keyword
  }

  predicate IsOption(token: string) {
    Lower(token) in {"frag", "ipoptions", "tcpoptions", "established", "setup", "tcpflags", "icmptypes"}
  }

  /** Two ASCII characters that differ at most in case, the second not being a capital. */
  predicate SameLetter(c: char, lower: char) {
    c == lower || ('a' <= lower <= 'z' && c as int == lower as int - 32)
  }

  predicate Fold(token: string, keyword: string) {
    |token| == |keyword| && forall i :: 0 <= i < |token| ==> SameLetter(token[i], keyword[i])
  }

  predicate NoCapitals(s: string) {
    forall i :: 0 <= i < |s| ==> !('A' <= s[i] <= 'Z')
  }

  /** Keywords are recognised in any mixture of cases and nothing else is. */
  lemma IsFolds(token: string, keyword: string)
    requires NoCapitals(keyword)
    ensures Is(token, keyword) <==> Fold(token, keyword)
  {
    if Is(token, keyword) {
      forall i | 0 <= i < |token|
        ensures SameLetter(token[i], keyword[i])
      {
        assert Lower(token)[i] == LowerChar(token[i]);
      }
    }
    if Fold(token, keyword) {
      forall i | 0 <= i < |token|
        ensures Lower(token)[i] == keyword[i]
      {
        assert SameLetter(token[i], keyword[i]);
      }
    }
  }

  /** The options of section 4.3.1 of RFC 6733 that the code knows, in any case. */
  lemma OptionWords(token: string)
    ensures IsOption(token) <==>
              || Fold(token, "frag") || Fold(token, "ipoptions") || Fold(token, "tcpoptions")
              || Fold(token, "established") || Fold(token, "setup") || Fold(token, "tcpflags")
              || Fold(token, "icmptypes")
  {
    hide Lower, Fold;
    IsFolds(token, "frag");
    IsFolds(token, "ipoptions");
    IsFolds(token, "tcpoptions");
    IsFolds(token, "established");
    IsFolds(token, "setup");
    IsFolds(token, "tcpflags");
    IsFolds(token, "icmptypes");
  }

  datatype Direction = In | Out

  /** A rule as its reader sees it: the addresses with their ports, and the options, as token lists. */
  datatype Rule = Rule(dir: Direction, proto: string, src: seq<string>, dst: seq<string>, options: seq<string>)

  /** Index of the first "to" at or after i, or |t|. */
  function FindTo(t: seq<string>, i: nat): (k: nat)
    requires i <= |t|
    ensures i <= k <= |t|
    ensures forall j :: i <= j < k ==> !Is(t[j], "to")
    ensures k < |t| ==> Is(t[k], "to")
    decreases |t| - i
  {
    if i == |t| || Is(t[i], "to") then i else FindTo(t, i + 1)
  }

  /** Index of the first option keyword at or after i, or |t|. */
  function FindOption(t: seq<string>, i: nat): (k: nat)
    requires i <= |t|
    ensures i <= k <= |t|
    ensures forall j :: i <= j < k ==> !IsOption(t[j])
    ensures k < |t| ==> IsOption(t[k])
    decreases |t| - i
  {
    if i == |t| || IsOption(t[i]) then i else FindOption(t, i + 1)
  }

  /** "permit in|out proto from src [ports] to dst [ports] [options]". */
  function ParseRule(t: seq<string>): (r: Option<Rule>)
  {
    if |t| < 7 || !Is(t[0], "permit") || !(Is(t[1], "in") || Is(t[1], "out")) || !Is(t[3], "from") then None
    else
      var to := FindTo(t, 5);
      if to >= |t| - 1 then None
      else
        var opt := FindOption(t, to + 2);
        Some(Rule(if Is(t[1], "in") then In else Out, t[2], t[4..to], t[to + 1..opt], t[opt..]))
  }

  function Print(r: Rule): seq<string> {
    ["permit", if r.dir == In then "in" else "out", r.proto, "from"] + r.src + ["to"] + r.dst + r.options
  }

  /** The other direction of the same flow. */
  function Swap(r: Rule): Rule {
    Rule(if r.dir == In then Out else In, r.proto, r.dst, r.src, r.options)
  }

  const FLIP: string := "flip-permit-in"

  predicate ShouldRewrite(tft: string, mode: string) {
    var tokens := Fields(tft);
    mode == FLIP && |tokens| >= 2 && Is(tokens[0], "permit") && Is(tokens[1], "in")
  }

  /** Rewritten text, and whether anything was rewritten. */
  function Handled(tft: string, mode: string): (string, bool) {
    var r := ParseRule(Fields(tft));
    if mode == FLIP && r.Some? && r.value.dir == In then (Join(Print(Swap(r.value)), ' '), true) else (tft, false)
  }

  /** The first "to" past the source's first token stands at to, with something after it. */
  predicate ToAt(t: seq<string>, to: nat) {
    5 <= to < |t| - 1 && Is(t[to], "to") && forall j :: 5 <= j < to ==> !Is(t[j], "to")
  }

  /** The first option past the destination's first token stands at opt, which is the end when there is none. */
  predicate OptionsAt(t: seq<string>, to: nat, opt: nat) {
    to + 2 <= opt <= |t| && (opt < |t| ==> IsOption(t[opt])) && forall j :: to + 2 <= j < opt ==> !IsOption(t[j])
  }

  ghost predicate PermitIn(t: seq<string>) {
    |t| >= 7 && Is(t[0], "permit") && Is(t[1], "in") && Is(t[3], "from") && exists to: nat :: ToAt(t, to)
  }

  /** out is the "permit out" rule with what followed "to" as its source and what followed "from" as its destination. */
  ghost predicate Exchanged(t: seq<string>, out: seq<string>) {
    exists to: nat, opt: nat :: ToAt(t, to) && OptionsAt(t, to, opt)
      && out == ["permit", "out", t[2], "from"] + t[to + 1..opt] + ["to"] + t[4..to] + t[opt..]
  }

  lemma HandledExactly(tft: string, mode: string)
    ensures mode != "flip-permit-in" ==> Handled(tft, mode) == (tft, false)
    ensures mode == "flip-permit-in" ==> (Handled(tft, mode).1 <==> PermitIn(Fields(tft)))
    ensures Handled(tft, mode).1 ==>
              exists out :: Exchanged(Fields(tft), out) && Handled(tft, mode).0 == Join(out, ' ')
  {
    hide Is, IsOption, Fields;
    var t := Fields(tft);
    Keywords();
    if |t| >= 7 {
      var to := FindTo(t, 5);
      if k: nat :| ToAt(t, k) {
        FindToIs(t, 5, k);
      }
      if to < |t| - 1 {
        assert ToAt(t, to);
        var opt := FindOption(t, to + 2);
        assert OptionsAt(t, to, opt);
        if Handled(tft, mode).1 {
          var out := Print(Swap(ParseRule(t).value));
          assert out == ["permit", "out", t[2], "from"] + t[to + 1..opt] + ["to"] + t[4..to] + t[opt..];
          assert Exchanged(t, out);
        }
      }
    }
  }

  method ApplyTFTHandling(tft: string, mode: string) returns (text: string, rewritten: bool)
    ensures (text, rewritten) == Handled(tft, mode)
    ensures mode != "flip-permit-in" ==> text == tft && !rewritten
    ensures mode == "flip-permit-in" ==> (rewritten <==> PermitIn(Fields(tft)))
    ensures rewritten ==> exists out :: Exchanged(Fields(tft), out) && text == Join(out, ' ')
    ensures !rewritten ==> text == tft
  {
    HandledExactly(tft, mode);
    if !ShouldRewrite(tft, mode) {
      return tft, false;
    }
    var tokens := Fields(tft);
    if |tokens| < 7 || !Is(tokens[0], "permit") || !Is(tokens[1], "in") || !Is(tokens[3], "from") {
      return tft, false;
    }
    var toIdx := -1;
    for i := 5 to |tokens|
      invariant toIdx == -1 && FindTo(tokens, 5) == FindTo(tokens, i)
    {
      if Is(tokens[i], "to") {
        toIdx := i;
        break;
      }
    }
    if toIdx == -1 || toIdx == 4 || toIdx == |tokens| - 1 {
      return tft, false;
    }
    var optionIdx := |tokens|;
    for i := toIdx + 2 to |tokens|
      invariant optionIdx == |tokens| && FindOption(tokens, toIdx + 2) == FindOption(tokens, i)
    {
      if IsOption(tokens[i]) {
        optionIdx := i;
        break;
      }
    }
    if optionIdx == toIdx + 1 {
      return tft, false;
    }
    var src, dst := tokens[4..toIdx], tokens[toIdx + 1..optionIdx];
    var out := ["permit", "out", tokens[2], "from"];
    out := out + dst;
    out := out + ["to"];
    out := out + src;
    out := out + tokens[optionIdx..];
    assert out == Print(Swap(ParseRule(tokens).value));
    return Join(out, ' '), true;
  }

  // ---------------------------------------------------------------- meaning

  datatype Endpoint = Endpoint(address: int, port: int)

  datatype Packet = Packet(uplink: bool, proto: int, src: Endpoint, dst: Endpoint, headers: Bytes)

  function Reverse(p: Packet): Packet {
    p.(uplink := !p.uplink, src := p.dst, dst := p.src)
  }

  /** How a filter reads protocol, address-and-port lists and options; left arbitrary. */
  datatype Semantics = Semantics(
    proto: (string, int) -> bool,
    endpoint: (seq<string>, Endpoint) -> bool,
    options: (seq<string>, Bytes) -> bool)

  predicate RuleMatches(m: Semantics, r: Rule, p: Packet) {
    && p.uplink == (r.dir == In)
    && m.proto(r.proto, p.proto) && m.endpoint(r.src, p.src) && m.endpoint(r.dst, p.dst)
    && m.options(r.options, p.headers)
  }

  predicate TextMatches(m: Semantics, tft: string, p: Packet) {
    var r := ParseRule(Fields(tft));
    r.Some? && RuleMatches(m, r.value, p)
  }

  /** What a source or destination list read from a rule looks like, so that it may change places. */
  predicate Swappable(r: Rule) {
    && (forall i :: 1 <= i < |r.dst| ==> !Is(r.dst[i], "to"))
    && (forall i :: 1 <= i < |r.src| ==> !IsOption(r.src[i]))
  }

  lemma FindToIs(t: seq<string>, i: nat, k: nat)
    requires i <= k < |t| && Is(t[k], "to") && forall j :: i <= j < k ==> !Is(t[j], "to")
    ensures FindTo(t, i) == k
  {
  }

  lemma FindOptionIs(t: seq<string>, i: nat, k: nat)
    requires i <= k <= |t| && (k < |t| ==> IsOption(t[k])) && forall j :: i <= j < k ==> !IsOption(t[j])
    ensures FindOption(t, i) == k
  {
  }

  predicate IsParsed(r: Rule) {
    && |r.src| > 0 && |r.dst| > 0
    && (forall i :: 1 <= i < |r.src| ==> !Is(r.src[i], "to"))
    && (forall i :: 1 <= i < |r.dst| ==> !IsOption(r.dst[i]))
    && (r.options != [] ==> IsOption(r.options[0]))
  }

  lemma ParsedShape(t: seq<string>)
    requires ParseRule(t).Some?
    ensures IsParsed(ParseRule(t).value)
  {
  }

  lemma Keywords()
    ensures Is("permit", "permit") && Is("from", "from") && Is("to", "to") && Is("in", "in") && Is("out", "out")
    ensures !Is("out", "in")
  {
    assert Lower("permit") == "permit" && Lower("from") == "from" && Lower("to") == "to";
    assert Lower("in") == "in" && Lower("out") == "out";
  }

  lemma PrintedTo(r: Rule)
    requires IsParsed(r)
    ensures |Print(r)| == 5 + |r.src| + |r.dst| + |r.options| && FindTo(Print(r), 5) == 4 + |r.src|
  {
    Keywords();
    hide Is, Lower, IsOption;
    var t, to := Print(r), 4 + |r.src|;
    assert t[to] == "to";
    assert forall i :: 1 <= i < |r.src| ==> t[4 + i] == r.src[i];
    FindToIs(t, 5, to);
  }

  lemma PrintedOptions(r: Rule)
    requires IsParsed(r)
    ensures |Print(r)| == 5 + |r.src| + |r.dst| + |r.options|
    ensures FindOption(Print(r), 6 + |r.src|) == 5 + |r.src| + |r.dst|
  {
    hide Is, Lower, IsOption;
    var t, first, opt := Print(r), 5 + |r.src|, 5 + |r.src| + |r.dst|;
    assert forall i :: 1 <= i < |r.dst| ==> t[first + i] == r.dst[i];
    assert r.options != [] ==> t[opt] == r.options[0];
    FindOptionIs(t, first + 1, opt);
  }

  /** Reading a printed rule of the parsed shape gives the rule back. */
  lemma ParseOfPrint(r: Rule)
    requires IsParsed(r)
    ensures ParseRule(Print(r)) == Some(r)
  {
    Keywords();
    hide Is, Lower, IsOption, FindTo, FindOption;
    PrintedTo(r);
    PrintedOptions(r);
    var t, to, opt := Print(r), 4 + |r.src|, 5 + |r.src| + |r.dst|;
    assert t[4..to] == r.src && t[to + 1..opt] == r.dst && t[opt..] == r.options;
  }

  lemma SwapReadBack(r: Rule)
    requires IsParsed(r)
    ensures ParseRule(Print(Swap(r))) == Some(Swap(r)) <==> Swappable(r)
  {
    if Swappable(r) {
      ParseOfPrint(Swap(r));
    } else if ParseRule(Print(Swap(r))) == Some(Swap(r)) {
      ParsedShape(Print(Swap(r)));
      assert false;
    }
  }

  lemma TokensReadBack(tft: string, mode: string)
    requires Handled(tft, mode).1
    ensures Fields(Handled(tft, mode).0) == Print(Swap(ParseRule(Fields(tft)).value))
  {
    hide Is, Lower, IsOption, Fields, Join;
    var t := Fields(tft);
    FieldsAreWords(tft);
    var out := Print(Swap(ParseRule(t).value));
    forall i | 0 <= i < |out|
      ensures IsWord(out[i])
    {
      assert out[i] in t || out[i] in ["permit", "out", "from", "to"];
    }
    FieldsOfJoin(out);
  }

  /** The rewritten text reads as the swapped rule exactly when the lists may change places. */
  lemma RewriteReadsAsSwap(tft: string, mode: string)
    requires Handled(tft, mode).1
    ensures var r := ParseRule(Fields(tft)).value;
            ParseRule(Fields(Handled(tft, mode).0)) == Some(Swap(r)) <==> Swappable(r)
  {
    TokensReadBack(tft, mode);
    ParsedShape(Fields(tft));
    SwapReadBack(ParseRule(Fields(tft)).value);
  }

  /** Meaning: under every reading of addresses and options, the out rule matches what the in rule matches reversed. */
  lemma RewritePreservesMeaning(tft: string, mode: string, m: Semantics, p: Packet)
    requires Handled(tft, mode).1 && Swappable(ParseRule(Fields(tft)).value)
    ensures TextMatches(m, Handled(tft, mode).0, p) <==> TextMatches(m, tft, Reverse(p))
  {
    RewriteReadsAsSwap(tft, mode);
  }

  /** Otherwise some reading tells the two apart: the exchanged lists are cut at another token. */
  lemma RewriteChangesMeaning(tft: string, mode: string) returns (m: Semantics, p: Packet)
    requires Handled(tft, mode).1 && !Swappable(ParseRule(Fields(tft)).value)
    ensures TextMatches(m, Handled(tft, mode).0, p) != TextMatches(m, tft, Reverse(p))
  {
    var r := ParseRule(Fields(tft)).value;
    RewriteReadsAsSwap(tft, mode);
    var x, y := Endpoint(1, 0), Endpoint(2, 0);
    m := Semantics((s, n) => s == r.proto,
                   (l, e) => if e == x then l == r.src else l == r.dst,
                   (o, b) => o == r.options);
    p := Packet(false, 0, y, x, []);
  }

  /** A second pass changes nothing, and what is not rewritten is returned as it came. */
  lemma RewriteIdempotent(tft: string, mode: string)
    ensures Handled(Handled(tft, mode).0, mode) == (Handled(tft, mode).0, false)
    ensures !Handled(tft, mode).1 ==> Handled(tft, mode).0 == tft
  {
    if Handled(tft, mode).1 {
      TokensReadBack(tft, mode);
      Keywords();
    }
  }

  /** Rules in the grammar's own shape are rewritten to the swapped rule, and this keeps their meaning. */
  lemma WellFormedRewritten(r: Rule)
    requires IsParsed(r) && Swappable(r) && r.dir == In && AreWords(Print(r))
    ensures Handled(Join(Print(r), ' '), FLIP) == (Join(Print(Swap(r)), ' '), true)
    ensures ParseRule(Fields(Join(Print(Swap(r)), ' '))) == Some(Swap(r))
  {
    FieldsOfJoin(Print(r));
    ParseOfPrint(r);
    RewriteReadsAsSwap(Join(Print(r), ' '), FLIP);
  }
}

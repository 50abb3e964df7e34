/**
 Input strings of the key derivation functions (Annex B.2 of TS 33.220):
 S = FC || P0 || L0 || P1 || L1 || ..., each Li being two bytes. HMAC-SHA-256 is the parameter H.
 */
module KdfStrings {
  import opened Bytes

  type Hmac = (Bytes, Bytes) -> HmacSum

  type HmacSum = b: Bytes | |b| == 32 witness seq(32, _ => 0)

  /** FC followed by every parameter and its 16-bit length. */
  function KdfString(fc: bv8, params: seq<Bytes>): Bytes {
    if params == [] then [fc]
    else KdfString(fc, params[..|params| - 1]) + params[|params| - 1] + Be16(|params[|params| - 1]|)
  }

  /** The four derivations the HSS performs, with the parameters that vary. */
  datatype KdfInput =
    | CkIkPrime(anid: Bytes, sqnXorAk: Bytes)
    | Kausf(snn: Bytes, sqnXorAk: Bytes)
    | XresStar(snn: Bytes, rand: Bytes, xres: Bytes)
    | Kasme(plmn: Bytes, sqnXorAk: Bytes)
  {
    function Fc(): bv8 {
      match this
      case CkIkPrime(_, _) => 0x20
      case Kausf(_, _) => 0x6A
      case XresStar(_, _, _) => 0x6B
      case Kasme(_, _) => 0x10
    }

    function Params(): seq<Bytes> {
      match this
      case CkIkPrime(anid, sxa) => [anid, sxa]
      case Kausf(snn, sxa) => [snn, sxa]
      case XresStar(snn, rand, xres) => [snn, rand, xres]
      case Kasme(plmn, sxa) => [plmn, sxa]
    }

    function Text(): Bytes {
      KdfString(Fc(), Params())
    }

    predicate Short() {
      forall p :: p in Params() ==> |p| < 65536
    }
  }

  /** Reads count parameters back from the right end; None when the lengths do not fit. */
  function ParseKdf(s: Bytes, count: nat): Option<(bv8, seq<Bytes>)>
    decreases count
  {
    if count == 0 then
      if |s| == 1 then Some((s[0], [])) else None
    else if |s| < 2 then None
    else
      var body := s[..|s| - 2];
      var l := Uint16(s[|s| - 2..]);
      if l > |body| then None
      else
        match ParseKdf(body[..|body| - l], count - 1)
        case None => None
        case Some((fc, rest)) => Some((fc, rest + [body[|body| - l..]]))
  }

  lemma ParseLast(head: Bytes, p: Bytes, length: Bytes, count: nat)
    requires |length| == 2 && Uint16(length) == |p|
    ensures ParseKdf(head + p + length, count + 1)
            == match ParseKdf(head, count) case None => None case Some((fc, rest)) => Some((fc, rest + [p]))
  {
    hide Uint16;
    var s := head + p + length;
    assert s[|s| - 2..] == length;
    var body := s[..|s| - 2];
    assert body == head + p;
    assert body[..|body| - |p|] == head && body[|body| - |p|..] == p;
  }

  /** Parsing inverts building whenever every length fits its two bytes. */
  lemma {:induction false} ParseInvertsKdf(fc: bv8, params: seq<Bytes>)
    requires forall p :: p in params ==> |p| < 65536
    ensures ParseKdf(KdfString(fc, params), |params|) == Some((fc, params))
  {
    hide Nat, LowByte, Uint16;
    if params != [] {
      var n := |params| - 1;
      var p, init := params[n], params[..n];
      ParseInvertsKdf(fc, init);
      Uint16OfBe16(|p|);
      ParseLast(KdfString(fc, init), p, Be16(|p|), n);
      assert init + [p] == params;
    }
  }

  lemma {:induction false} FirstByteIsFc(fc: bv8, params: seq<Bytes>)
    ensures |KdfString(fc, params)| >= 1 && KdfString(fc, params)[0] == fc
  {
    hide Be16;
    if params != [] {
      FirstByteIsFc(fc, params[..|params| - 1]);
    }
  }

  /** The strings are unambiguous: equal strings come from one kind and equal parameters. */
  lemma KdfInjective(a: KdfInput, b: KdfInput)
    requires a.Short() && b.Short()
    ensures a.Text() == b.Text() <==> a == b
  {
    hide KdfString, ParseKdf;
    if a.Text() == b.Text() {
      FirstByteIsFc(a.Fc(), a.Params());
      FirstByteIsFc(b.Fc(), b.Params());
      assert a.Fc() == b.Fc() && |a.Params()| == |b.Params()|;
      ParseInvertsKdf(a.Fc(), a.Params());
      ParseInvertsKdf(b.Fc(), b.Params());
      var p, q := a.Params(), b.Params();
      assert p == q;
      assert p[0] == q[0] && p[1] == q[1] && p[|p| - 1] == q[|q| - 1];
    }
  }

  lemma TwoParams(fc: bv8, p: Bytes, q: Bytes)
    ensures KdfString(fc, [p, q]) == [fc] + p + Be16(|p|) + q + Be16(|q|)
  {
    assert [p, q][..1] == [p] && [p][..0] == [];
    assert KdfString(fc, [p]) == [fc] + p + Be16(|p|);
  }

  lemma ThreeParams(fc: bv8, p: Bytes, q: Bytes, r: Bytes)
    ensures KdfString(fc, [p, q, r]) == [fc] + p + Be16(|p|) + q + Be16(|q|) + r + Be16(|r|)
  {
    assert [p, q, r][..2] == [p, q];
    TwoParams(fc, p, q);
  }

  /** The four strings written out: the FC values of TS 33.402, TS 33.501 and TS 33.401, and the parameters in order. */
  lemma TextsWritten(p: Bytes, q: Bytes, r: Bytes)
    ensures CkIkPrime(p, q).Text() == [0x20] + p + Be16(|p|) + q + Be16(|q|)
    ensures Kausf(p, q).Text() == [0x6A] + p + Be16(|p|) + q + Be16(|q|)
    ensures XresStar(p, q, r).Text() == [0x6B] + p + Be16(|p|) + q + Be16(|q|) + r + Be16(|r|)
    ensures Kasme(p, q).Text() == [0x10] + p + Be16(|p|) + q + Be16(|q|)
  {
    hide KdfString, Be16;
    TwoParams(0x20, p, q);
    TwoParams(0x6A, p, q);
    ThreeParams(0x6B, p, q, r);
    TwoParams(0x10, p, q);
  }

  lemma SmallLengths()
    ensures Be16(3) == [0x00, 0x03] && Be16(6) == [0x00, 0x06]
  {
  }

  method AppendKdfParam(dst: Bytes, p: Bytes) returns (r: Bytes)
    ensures r == dst + p + Be16(|p|)
  {
    r := dst + p;
    r := r + Be16(|p|);
  }

  /** KASME of Annex A.2 of TS 33.401. */
  method DeriveKasme(H: Hmac, ck: Block, ik: Block, plmn: Bytes, sqnXorAk: Bytes) returns (kasme: Bytes)
    requires |plmn| == 3 && |sqnXorAk| == 6
    ensures kasme == H(ck + ik, Kasme(plmn, sqnXorAk).Text())
    ensures kasme == H(ck + ik, [0x10] + plmn + [0x00, 0x03] + sqnXorAk + [0x00, 0x06])
  {
    hide KdfString, Be16;
    SmallLengths();
    var s: Bytes := [0x10];
    s := s + plmn;
    s := s + [0x00, 0x03];
    s := s + sqnXorAk;
    s := s + [0x00, 0x06];
    TwoParams(0x10, plmn, sqnXorAk);
    assert s == Kasme(plmn, sqnXorAk).Text();
    kasme := H(ck + ik, s);
  }

  /** CK' and IK' of EAP-AKA'; the length checks are the only error cases. */
  method DeriveEapAkaPrimeKeys(H: Hmac, ck: Bytes, ik: Bytes, anid: Bytes, sqnXorAk: Bytes)
    returns (r: Result<(Bytes, Bytes)>)
    ensures r.Ok? <==> |ck| == 16 && |ik| == 16 && anid != [] && |sqnXorAk| == 6
    ensures r.Ok? ==> r.value.0 + r.value.1 == H(ck + ik, CkIkPrime(anid, sqnXorAk).Text())
    ensures r.Ok? ==> r.value.0 + r.value.1 == H(ck + ik, [0x20] + anid + Be16(|anid|) + sqnXorAk + [0x00, 0x06])
    ensures r.Ok? ==> |r.value.0| == 16
  {
    hide KdfString, Be16;
    SmallLengths();
    if |ck| != 16 || |ik| != 16 || anid == [] || |sqnXorAk| != 6 {
      return Err;
    }
    var s := AppendKdfParam([0x20], anid);
    s := AppendKdfParam(s, sqnXorAk);
    TwoParams(0x20, anid, sqnXorAk);
    assert s == CkIkPrime(anid, sqnXorAk).Text();
    var out := H(ck + ik, s);
    assert out == out[..16] + out[16..];
    return Ok((out[..16], out[16..]));
  }

  /** KAUSF and XRES* of Annexes A.2 and A.4 of TS 33.501 on top of a quintuplet. */
  method Derive5GKeys(H: Hmac, ck: Bytes, ik: Bytes, snn: Bytes, autn: Bytes, rand: Bytes, xres: Bytes)
    returns (kausf: Bytes, xresStar: Bytes)
    requires |autn| >= 6
    ensures kausf == H(ck + ik, Kausf(snn, autn[..6]).Text())
    ensures xresStar == H(ck + ik, XresStar(snn, rand, xres).Text())[16..]
    ensures kausf == H(ck + ik, [0x6A] + snn + Be16(|snn|) + autn[..6] + [0x00, 0x06])
    ensures xresStar == H(ck + ik, [0x6B] + snn + Be16(|snn|) + rand + Be16(|rand|) + xres + Be16(|xres|))[16..]
  {
    hide KdfString, Be16;
    SmallLengths();
    var input: Bytes := [0x6A];
    input := AppendKdfParam(input, snn);
    var sqnXorAk := autn[..6];
    input := AppendKdfParam(input, sqnXorAk);
    TwoParams(0x6A, snn, sqnXorAk);
    assert input == Kausf(snn, sqnXorAk).Text();
    kausf := H(ck + ik, input);

    input := AppendKdfParam([0x6B], snn);
    input := AppendKdfParam(input, rand);
    input := AppendKdfParam(input, xres);
    ThreeParams(0x6B, snn, rand, xres);
    assert input == XresStar(snn, rand, xres).Text();
    var full := H(ck + ik, input);
    xresStar := full[16..];
  }
}

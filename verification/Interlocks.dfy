/**
 The CSV interlock of internal/api/interlocks.go: a LIKE test over a comma-wrapped column stands in for
 membership of an id in the list that the readers parse.
 */
module Interlocks {
  import opened Bytes
  import opened Text

  /** SQL LIKE: '%' matches any run of characters and '_' any one. */
  predicate Like(s: string, pattern: string)
    decreases |pattern|, |s|
  {
    if pattern == "" then s == ""
    else if pattern[0] == '%' then Like(s, pattern[1..]) || (s != "" && Like(s[1..], pattern))
    else s != "" && (pattern[0] == '_' || pattern[0] == s[0]) && Like(s[1..], pattern[1..])
  }

  /** The deletion guard: (',' || COALESCE(column, '') || ',') LIKE '%,id,%'. */
  predicate CsvContainsId(column: Option<string>, id: int) {
    var csv := match column case None => "" case Some(s) => s;
    Like("," + csv + ",", "%," + Itoa(id) + ",%")
  }

  /** splitTrim followed by Atoi, dropping what does not parse. */
  function ReadIds(parts: seq<string>): seq<int> {
    if parts == [] then []
    else
      var rest := ReadIds(parts[..|parts| - 1]);
      match Atoi(TrimSpace(parts[|parts| - 1]))
      case None => rest
      case Some(id) => rest + [id]
  }

  method SplitTrim(s: string) returns (out: seq<string>)
    ensures ReadIds(out) == ReadIds(Split(s, ','))
    ensures forall p :: p in out ==> p != "" && TrimSpace(p) == p
  {
    hide TrimSpace, Split;
    var parts := Split(s, ',');
    out := [];
    for i := 0 to |parts|
      invariant ReadIds(out) == ReadIds(parts[..i])
      invariant forall p :: p in out ==> p != "" && TrimSpace(p) == p
    {
      assert parts[..i + 1][..i] == parts[..i];
      var t := TrimSpace(parts[i]);
      TrimIdempotent(parts[i]);
      if t != "" {
        assert (out + [t])[..|out|] == out;
        out := out + [t];
      }
    }
    assert parts[..|parts|] == parts;
  }

  lemma NothingToRead()
    ensures ReadIds(Split("", ',')) == []
  {
    assert Split("", ',') == [""] && [""][..0] == [];
  }

  /** resolveChargingRules up to the store lookup: nothing for an absent or empty list. */
  method ResolveRuleIds(list: Option<string>) returns (ids: seq<int>)
    ensures ids == if list == None then [] else ReadIds(Split(list.value, ','))
  {
    hide TrimSpace, Split, Atoi;
    if list == None || list.value == "" {
      NothingToRead();
      return [];
    }
    ids := [];
    var parts := SplitTrim(list.value);
    for i := 0 to |parts|
      invariant ids == ReadIds(parts[..i])
    {
      assert parts[..i + 1][..i] == parts[..i];
      assert parts[i] in parts;
      var id := Atoi(parts[i]);
      if id.Some? {
        ids := ids + [id.value];
      }
    }
    assert parts[..|parts|] == parts;
  }

  lemma {:induction false} TrimIdempotent(s: string)
    ensures TrimSpace(TrimSpace(s)) == TrimSpace(s)
    decreases |s|
  {
    if s == "" {
    } else if IsSpace(s[0]) {
      TrimIdempotent(s[1..]);
    } else if IsSpace(s[|s| - 1]) {
      TrimIdempotent(s[..|s| - 1]);
    }
  }

  ghost predicate Contains(s: string, t: string) {
    exists i :: 0 <= i <= |s| - |t| && At(s, i, t)
  }

  predicate At(s: string, i: nat, t: string) {
    i + |t| <= |s| && s[i..i + |t|] == t
  }

  lemma {:induction false} PercentMatchesAll(s: string)
    ensures Like(s, "%")
  {
    if s != "" {
      PercentMatchesAll(s[1..]);
    }
  }

  predicate IsLiteral(t: string) {
    '%' !in t && '_' !in t
  }

  lemma {:induction false} LikeLiteralPrefix(s: string, t: string)
    requires IsLiteral(t)
    ensures Like(s, t + "%") <==> At(s, 0, t)
    decreases |t|
  {
    if t == "" {
      assert t + "%" == "%";
      PercentMatchesAll(s);
    } else {
      assert (t + "%")[1..] == t[1..] + "%";
      assert t[0] in t;
      assert forall c :: c in t[1..] ==> c in t;
      if s != "" {
        LikeLiteralPrefix(s[1..], t[1..]);
        if At(s, 0, t) {
          assert s[1..][..|t| - 1] == t[1..];
        }
        if s[0] == t[0] && At(s[1..], 0, t[1..]) {
          assert s[..|t|] == [s[0]] + s[1..][..|t| - 1];
        }
      }
    }
  }

  /** A pattern with a literal between two percent signs is a substring test. */
  lemma {:induction false} LikeIsContains(s: string, t: string)
    requires IsLiteral(t) && t != ""
    ensures Like(s, "%" + t + "%") <==> Contains(s, t)
    decreases |s|
  {
    var pattern := "%" + t + "%";
    assert pattern[1..] == t + "%";
    LikeLiteralPrefix(s, t);
    if s != "" {
      LikeIsContains(s[1..], t);
      if Contains(s[1..], t) {
        var i :| 0 <= i <= |s[1..]| - |t| && At(s[1..], i, t);
        assert s[1..][i..i + |t|] == s[i + 1..i + 1 + |t|];
        assert At(s, i + 1, t);
      }
      if Contains(s, t) && !At(s, 0, t) {
        var i :| 0 <= i <= |s| - |t| && At(s, i, t);
        assert i != 0;
        assert s[1..][i - 1..i - 1 + |t|] == s[i..i + |t|];
        assert At(s[1..], i - 1, t);
      }
    }
  }

  /** Wrapped in commas, a token occurs in the wrapped list exactly when it is one of its parts. */
  lemma {:induction false} WrappedOccurrence(csv: string, token: string)
    requires ',' !in token
    ensures Contains("," + csv + ",", "," + token + ",") <==> token in Split(csv, ',')
    decreases |csv|
  {
    var k := IndexOf(csv, ',');
    var head := csv[..k];
    var tail := if k == |csv| then "," else "," + csv[k + 1..] + ",";
    var s, t := "," + csv + ",", "," + token + ",";
    assert s == "," + head + tail;
    HeadOccurrence(head, tail, token);
    if k < |csv| {
      WrappedOccurrence(csv[k + 1..], token);
      ContainsSplit("," + head, tail, t);
    } else {
      assert csv[..k] == csv;
      assert !Contains(tail, t);
      ContainsSplit("," + head, tail, t);
    }
  }

  /** At the front, the token must be the whole first part. */
  lemma HeadOccurrence(head: string, tail: string, token: string)
    requires ',' !in head && ',' !in token
    requires tail != "" && tail[0] == ','
    ensures At("," + head + tail, 0, "," + token + ",") <==> token == head
  {
    var s, t := "," + head + tail, "," + token + ",";
    assert s[1 + |head|] == ',';
    assert forall i :: 0 <= i < |head| ==> s[1 + i] == head[i] && head[i] in head;
    if At(s, 0, t) {
      assert forall i :: 0 <= i < |t| ==> s[i] == t[i];
      assert forall i :: 0 <= i < |token| ==> t[1 + i] == token[i] && token[i] in token;
      assert t[1 + |token|] == ',';
      assert |token| == |head|;
      assert token == s[1..1 + |head|] == head;
    }
  }

  lemma SliceOfTail(front: string, tail: string, i: nat, k: nat)
    requires |front| <= i && i + k <= |front| + |tail|
    ensures (front + tail)[i..i + k] == tail[i - |front|..i - |front| + k]
  {
    assert (front + tail)[|front|..] == tail;
  }

  lemma ContainedInTail(front: string, tail: string, t: string)
    requires Contains(tail, t)
    ensures Contains(front + tail, t)
  {
    var i :| 0 <= i <= |tail| - |t| && At(tail, i, t);
    SliceOfTail(front, tail, i + |front|, |t|);
    assert At(front + tail, i + |front|, t);
  }

  /** Any other occurrence starts at a comma, hence in the tail. */
  lemma ContainsSplit(front: string, tail: string, t: string)
    requires front != "" && ',' !in front[1..]
    requires t != "" && t[0] == ','
    ensures Contains(front + tail, t) <==> At(front + tail, 0, t) || Contains(tail, t)
  {
    var s, n := front + tail, |front|;
    forall j | 0 < j < n
      ensures s[j] != ','
    {
      assert s[j] == front[1..][j - 1];
      assert front[1..][j - 1] in front[1..];
    }
    if Contains(s, t) && !At(s, 0, t) {
      var i :| 0 <= i <= |s| - |t| && At(s, i, t);
      assert s[i..i + |t|][0] == t[0];
      assert s[i] == ',' && i != 0;
      assert i >= n;
      SliceOfTail(front, tail, i, |t|);
      assert At(tail, i - n, t);
    }
    if Contains(tail, t) {
      ContainedInTail(front, tail, t);
    }
    if At(s, 0, t) {
      assert 0 <= 0 <= |s| - |t|;
    }
  }

  /** For every column value, the guard holds exactly when some part of the list is spelled as Itoa spells the id. */
  lemma GuardIsExactSpelling(csv: string, id: int)
    ensures CsvContainsId(Some(csv), id) <==> Itoa(id) in Split(csv, ',')
    ensures !CsvContainsId(None, id)
  {
    var token := Itoa(id);
    forall c | c in token
      ensures c != ',' && c != '%' && c != '_'
    {
      ItoaChars(id, c);
    }
    var t := "," + token + ",";
    forall s: string
      ensures Like("," + s + ",", "%," + token + ",%") <==> token in Split(s, ',')
    {
      assert "%," + token + ",%" == "%" + t + "%";
      LikeIsContains("," + s + ",", t);
      WrappedOccurrence(s, token);
    }
    assert Split("", ',') == [""];
  }

  lemma {:induction false} ReadIdsMembers(parts: seq<string>, id: int)
    ensures id in ReadIds(parts) <==> exists p :: p in parts && Atoi(TrimSpace(p)) == Some(id)
  {
    if parts != [] {
      var last := parts[|parts| - 1];
      ReadIdsMembers(parts[..|parts| - 1], id);
      assert parts == parts[..|parts| - 1] + [last];
      if Atoi(TrimSpace(last)) == Some(id) {
        assert last in parts;
      }
    }
  }

  lemma ItoaTrimmed(id: int)
    ensures TrimSpace(Itoa(id)) == Itoa(id)
  {
    var s := Itoa(id);
    ItoaChars(id, s[0]);
    ItoaChars(id, s[|s| - 1]);
  }

  /** The guard never blocks a deletion that no reader would notice. */
  lemma GuardImpliesRead(csv: string, id: int)
    requires IsInt64(id) && CsvContainsId(Some(csv), id)
    ensures id in ReadIds(Split(csv, ','))
  {
    GuardIsExactSpelling(csv, id);
    ReadIdsMembers(Split(csv, ','), id);
    AtoiOfItoa(id);
    ItoaTrimmed(id);
  }

  /** A part that reads as an id although the list does not spell that id as Itoa does. */
  ghost predicate Misspelled(parts: seq<string>, p: string) {
    p in parts && Atoi(TrimSpace(p)).Some? && Itoa(Atoi(TrimSpace(p)).value) !in parts
  }

  lemma AtoiInRange(s: string)
    ensures Atoi(s).Some? ==> IsInt64(Atoi(s).value)
  {
  }

  /** The guard agrees with the readers on every id exactly when no part of the list is misspelled. */
  lemma GuardExactIff(csv: string)
    ensures (forall id :: IsInt64(id) ==> (CsvContainsId(Some(csv), id) <==> id in ReadIds(Split(csv, ','))))
            <==> !exists p :: Misspelled(Split(csv, ','), p)
  {
    var parts := Split(csv, ',');
    if p :| Misspelled(parts, p) {
      var id := Atoi(TrimSpace(p)).value;
      AtoiInRange(TrimSpace(p));
      GuardIsExactSpelling(csv, id);
      ReadIdsMembers(parts, id);
    } else {
      forall id | IsInt64(id)
        ensures CsvContainsId(Some(csv), id) <==> id in ReadIds(parts)
      {
        GuardIsExactSpelling(csv, id);
        ReadIdsMembers(parts, id);
        if id in ReadIds(parts) {
          var p :| p in parts && Atoi(TrimSpace(p)) == Some(id);
          assert !Misspelled(parts, p);
        } else if CsvContainsId(Some(csv), id) {
          GuardImpliesRead(csv, id);
        }
      }
    }
  }

  /** The list a client writes: decimal ids joined by commas, without blanks. */
  function CsvOf(ids: seq<int>): string {
    Join(Texts(ids), ',')
  }

  function Texts(ids: seq<int>): (r: seq<string>)
    ensures |r| == |ids|
    ensures forall i {:trigger r[i]} :: 0 <= i < |ids| ==> r[i] == Itoa(ids[i])
  {
    seq(|ids|, i requires 0 <= i < |ids| => Itoa(ids[i]))
  }

  lemma {:induction false} ReadIdsOfTexts(ids: seq<int>)
    requires forall id :: id in ids ==> IsInt64(id)
    ensures ReadIds(Texts(ids)) == ids
  {
    hide TrimSpace, Atoi, Itoa;
    if ids != [] {
      var n := |ids| - 1;
      assert Texts(ids)[..n] == Texts(ids[..n]);
      ReadIdsOfTexts(ids[..n]);
      assert ids[n] in ids;
      AtoiOfItoa(ids[n]);
      ItoaTrimmed(ids[n]);
    }
  }

  lemma EmptyList(id: int)
    requires IsInt64(id)
    ensures CsvOf([]) == "" && ReadIds(Split("", ',')) == [] && Itoa(id) !in Split("", ',')
  {
    assert Split("", ',') == [""] && [""][..0] == [];
    AtoiOfItoa(id);
  }

  /** On such a list, even an empty one, the readers get exactly the ids, and the guard tests membership among them. */
  lemma GuardExactOnWrittenLists(ids: seq<int>, id: int)
    requires IsInt64(id) && forall x :: x in ids ==> IsInt64(x)
    ensures ReadIds(Split(CsvOf(ids), ',')) == ids
    ensures CsvContainsId(Some(CsvOf(ids)), id) <==> id in ids
  {
    var parts := Texts(ids);
    forall p | p in parts
      ensures ',' !in p
    {
      var i :| 0 <= i < |ids| && p == parts[i];
      forall c | c in p
        ensures c != ','
      {
        ItoaChars(ids[i], c);
      }
    }
    GuardIsExactSpelling(CsvOf(ids), id);
    if ids == [] {
      EmptyList(id);
      return;
    }
    SplitOfJoin(parts, ',');
    ReadIdsOfTexts(ids);
    AtoiOfItoa(id);
    if Itoa(id) in parts {
      var i :| 0 <= i < |ids| && parts[i] == Itoa(id);
      assert ids[i] in ids;
      AtoiOfItoa(ids[i]);
    }
    if id in ids {
      var i :| 0 <= i < |ids| && ids[i] == id;
      assert parts[i] == Itoa(id);
    }
  }

  /** A blank after the comma is enough: readers see id 2, the guard does not. */
  lemma BlankHidesId()
    ensures 2 in ReadIds(Split("1, 2", ',')) && !CsvContainsId(Some("1, 2"), 2)
  {
    var parts := ["1", " 2"];
    assert Join(parts, ',') == "1, 2";
    SplitOfJoin(parts, ',');
    assert TrimSpace(" 2") == "2" by {
      assert " 2"[1..] == "2";
    }
    assert Itoa(2) == "2";
    AtoiOfItoa(2);
    ReadIdsMembers(parts, 2);
    assert " 2" in parts;
    GuardIsExactSpelling("1, 2", 2);
  }
}

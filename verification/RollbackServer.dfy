/** The audited database as the API server uses it: the write callbacks with their log, and rollbackOperation. */
module RollbackServer {
  import opened Bytes
  import opened Rollback

  /** Go's order of strings. */
  predicate Before(a: string, b: string) {
    b != "" && (a == "" || a[0] < b[0] || (a[0] == b[0] && Before(a[1..], b[1..])))
  }

  lemma {:induction false} BeforeIsTotal(a: string, b: string)
    ensures Before(a, b) || a == b || Before(b, a)
    ensures Before(a, b) ==> a != b && !Before(b, a)
  {
    if a != "" && b != "" && a[0] == b[0] {
      BeforeIsTotal(a[1..], b[1..]);
      assert a == [a[0]] + a[1..] && b == [b[0]] + b[1..];
    }
  }

  lemma {:induction false} BeforeChains(a: string, b: string, c: string)
    requires Before(a, b) && Before(b, c)
    ensures Before(a, c)
  {
    if a != "" && a[0] == b[0] == c[0] {
      BeforeChains(a[1..], b[1..], c[1..]);
    }
  }

  predicate Sorted(keys: seq<string>) {
    forall i, j :: 0 <= i < j < |keys| ==> Before(keys[i], keys[j])
  }

  predicate First(k: string, keys: set<string>) {
    k in keys && forall j :: j in keys && j != k ==> Before(k, j)
  }

  lemma {:induction false} FirstExists(keys: set<string>) returns (k: string)
    requires keys != {}
    ensures First(k, keys)
    decreases |keys|
  {
    k :| k in keys;
    var rest := keys - {k};
    if rest != {} {
      var f := FirstExists(rest);
      BeforeIsTotal(k, f);
      if Before(k, f) {
        forall j | j in rest && j != f
          ensures Before(k, j)
        {
          BeforeChains(k, f, j);
        }
      } else {
        k := f;
      }
    }
  }

  lemma SortedSnoc(keys: seq<string>, k: string)
    requires Sorted(keys) && forall c :: c in keys ==> Before(c, k)
    ensures Sorted(keys + [k])
  {
  }

  lemma FirstTaken(keys: seq<string>, rest: set<string>, k: string)
    requires First(k, rest) && forall c, d :: c in keys && d in rest ==> Before(c, d)
    ensures forall c, d :: c in keys + [k] && d in rest - {k} ==> Before(c, d)
  {
  }

  /** The columns of a row in order, each once. */
  method SortedKeys(m: Row) returns (keys: seq<string>)
    ensures Sorted(keys) && forall c :: c in keys <==> c in m
  {
    keys := [];
    var rest := m.Keys;
    while rest != {}
      invariant Sorted(keys) && rest <= m.Keys
      invariant forall c :: c in keys <==> c in m.Keys - rest
      invariant forall c, d :: c in keys && d in rest ==> Before(c, d)
      decreases |rest|
    {
      ghost var first := FirstExists(rest);
      var k :| k in rest && First(k, rest);
      SortedSnoc(keys, k);
      FirstTaken(keys, rest, k);
      keys, rest := keys + [k], rest - {k};
    }
  }

  lemma SortedDistinct(keys: seq<string>)
    requires Sorted(keys)
    ensures forall i, j :: 0 <= i < j < |keys| ==> keys[i] != keys[j]
  {
    forall i, j | 0 <= i < j < |keys|
      ensures keys[i] != keys[j]
    {
      BeforeIsTotal(keys[i], keys[j]);
    }
  }

  /** The loop of buildSetClause: the columns to set, in order, and the values for them, the key left out. */
  method BuildSetClause(m: Row, pk: string) returns (columns: seq<string>, values: seq<Value>)
    ensures |columns| == |values| && Sorted(columns)
    ensures forall c :: c in columns <==> c in m && c != pk
    ensures forall i, j :: 0 <= i < j < |columns| ==> columns[i] != columns[j]
    ensures forall i :: 0 <= i < |columns| ==> columns[i] in m && values[i] == ThroughJson(m[columns[i]])
  {
    hide Before;
    var keys := SortedKeys(m);
    columns, values := [], [];
    for n := 0 to |keys|
      invariant |columns| == |values| && Sorted(columns)
      invariant forall c :: c in columns <==> c in keys[..n] && c != pk
      invariant forall i :: 0 <= i < |columns| ==> columns[i] in m && values[i] == ThroughJson(m[columns[i]])
    {
      var k := keys[n];
      assert k in keys && keys[..n + 1] == keys[..n] + [k];
      if k != pk {
        SortedSnoc(columns, k);
        columns, values := columns + [k], values + [ThroughJson(m[k])];
      }
    }
    assert keys[..|keys|] == keys;
    SortedDistinct(columns);
  }

  /** buildInsertClause: every column of the row, in order, and the values for them. */
  method BuildInsertClause(m: Row) returns (columns: seq<string>, values: seq<Value>)
    ensures |columns| == |values| && Sorted(columns)
    ensures forall c :: c in columns <==> c in m
    ensures forall i, j :: 0 <= i < j < |columns| ==> columns[i] != columns[j]
    ensures forall i :: 0 <= i < |columns| ==> columns[i] in m && values[i] == ThroughJson(m[columns[i]])
  {
    hide Before;
    var keys := SortedKeys(m);
    columns, values := [], [];
    for n := 0 to |keys|
      invariant |columns| == |values| && columns == keys[..n]
      invariant forall i :: 0 <= i < |columns| ==> columns[i] in m && values[i] == ThroughJson(m[columns[i]])
    {
      assert keys[n] in keys;
      columns, values := columns + [keys[n]], values + [ThroughJson(m[keys[n]])];
    }
    SortedDistinct(columns);
  }

  /** SQL's column assignments applied to a row one after the other. */
  method Assign(row: Row, columns: seq<string>, values: seq<Value>) returns (r: Row)
    requires |columns| == |values|
    ensures r.Keys == row.Keys + set c | c in columns
    ensures forall c :: c in row && c !in columns ==> r[c] == row[c]
    ensures forall c :: c in columns ==> exists i :: 0 <= i < |columns| && columns[i] == c && r[c] == values[i]
  {
    r := row;
    for i := 0 to |columns|
      invariant r.Keys == row.Keys + set c | c in columns[..i]
      invariant forall c :: c in row && c !in columns[..i] ==> r[c] == row[c]
      invariant forall c :: c in columns[..i] ==> exists j :: 0 <= j < i && columns[j] == c && r[c] == values[j]
    {
      assert columns[..i + 1] == columns[..i] + [columns[i]];
      r := r[columns[i] := values[i]];
    }
    assert columns[..|columns|] == columns;
  }

  /** The row an UPDATE leaves. */
  method SetRow(row: Row, before: Row, pk: string) returns (r: Row)
    ensures r == SetBack(row, before, pk)
  {
    var columns, values := BuildSetClause(before, pk);
    r := Assign(row, columns, values);
  }

  /** The row an INSERT makes. */
  method NewRow(before: Row) returns (r: Row)
    ensures r == FromJson(before)
  {
    var columns, values := BuildInsertClause(before);
    r := Assign(map[], columns, values);
  }

  class Server {
    const schema: Schema
    var tables: Tables
    var log: seq<Entry>
    var nextId: nat

    /** The log holds the entries of the newest ids, in order, a hundred at most. */
    predicate Valid()
      reads this
    {
      && WellFormed(schema, tables) && |log| <= MAX_LOG_ROWS && |log| <= nextId
      && forall i {:trigger log[i]} :: 0 <= i < |log| ==> log[i].id == nextId - |log| + i
    }

    constructor (schema: Schema, tables: Tables)
      requires WellFormed(schema, tables)
      ensures Valid() && this.schema == schema && this.tables == tables && log == []
    {
      this.schema, this.tables, log, nextId := schema, tables, [], 0;
    }

    /** writeLog: insert, then prune to the newest rows. */
    method WriteLog(e: Entry)
      requires Valid() && e.id == nextId
      modifies this`log, this`nextId
      ensures Valid() && log == Newest(old(log) + [e], 100) && nextId == old(nextId) + 1
    {
      log := log + [e];
      nextId := nextId + 1;
      if |log| > MAX_LOG_ROWS {
        log := log[|log| - MAX_LOG_ROWS..];
      }
    }

    /** One audited write: the before hook, the write, the after hook. */
    method Write(op: Op)
      requires Valid() && Allowed(schema, tables, op)
      modifies this
      ensures Valid() && tables == Do(schema, old(tables), op) && nextId == old(nextId) + 1
      ensures log == Newest(old(log) + [EntryFor(schema, old(tables), op, old(nextId))], 100)
    {
      var e := EntryFor(schema, tables, op, nextId);
      DoWellFormed(schema, tables, op);
      match op {
        case Create(t, id, row) => tables := tables[t := tables[t][id := row]];
        case Update(t, id, row) => tables := tables[t := tables[t][id := row]];
        case Delete(t, id) => tables := tables[t := tables[t] - {id}];
      }
      WriteLog(e);
    }

    /** The entry with an id, if the log still holds it. */
    method Find(id: nat) returns (e: Option<Entry>)
      requires Valid()
      ensures e.Some? <==> nextId - |log| <= id < nextId
      ensures e.Some? ==> e.value == log[id - (nextId - |log|)]
    {
      for i := 0 to |log|
        invariant !(nextId - |log| <= id < nextId - |log| + i)
      {
        if log[i].id == id {
          return Some(log[i]);
        }
      }
      return None;
    }

    /** rollbackOperation: not found, or the statement for the entry; the log is left as it is. */
    method Rollback(id: nat) returns (status: Option<Status>)
      requires Valid()
      modifies this`tables
      ensures status.Some? <==> nextId - |log| <= id < nextId
      ensures status.None? ==> tables == old(tables)
      ensures status.Some? ==> (status.value, tables) == Undo(schema, old(tables), log[id - (nextId - |log|)])
    {
      var found := Find(id);
      if found.None? {
        return None;
      }
      var s := Execute(found.value);
      return Some(s);
    }

    method Execute(e: Entry) returns (status: Status)
      modifies this`tables
      ensures (status, tables) == Undo(schema, old(tables), e)
    {
      var pk := if e.pk == "" then "id" else e.pk;
      match e.operation {
        case "create" =>
          if e.after.None? {
            return Unprocessable;
          }
          if e.table !in tables {
            return Failed;
          }
          tables := tables[e.table := tables[e.table] - {e.itemId}];
          return RolledBack;
        case "update" =>
          if e.before.None? {
            return Unprocessable;
          }
          status := ExecuteUpdate(e, e.before.value, pk);
        case "delete" =>
          if e.before.None? {
            return Unprocessable;
          }
          status := ExecuteInsert(e, e.before.value, pk);
        case _ =>
          return Unprocessable;
      }
    }

    method ExecuteUpdate(e: Entry, before: Row, pk: string) returns (status: Status)
      requires e.operation == "update" && e.before == Some(before) && pk == Key(e)
      modifies this`tables
      ensures (status, tables) == Undo(schema, old(tables), e)
    {
      if e.table !in tables || e.table !in schema || !(before.Keys <= schema[e.table].columns)
         || before.Keys <= {pk} {
        return Failed;
      }
      if e.itemId in tables[e.table] {
        var row := SetRow(tables[e.table][e.itemId], before, pk);
        tables := tables[e.table := tables[e.table][e.itemId := row]];
      }
      return RolledBack;
    }

    method ExecuteInsert(e: Entry, before: Row, pk: string) returns (status: Status)
      requires e.operation == "delete" && e.before == Some(before) && pk == Key(e)
      modifies this`tables
      ensures (status, tables) == Undo(schema, old(tables), e)
    {
      if e.table !in tables || e.table !in schema || before.Keys != schema[e.table].columns
         || pk !in before || !before[pk].Int? {
        return Failed;
      }
      var row := NewRow(before);
      var id := row[pk].n;
      if id in tables[e.table] {
        return Failed;
      }
      tables := tables[e.table := tables[e.table][id := row]];
      return RolledBack;
    }
  }
}

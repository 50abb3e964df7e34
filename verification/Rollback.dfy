/**
 The operation log of internal/api/audit.go and its rollback in operation_log.go. Audited creates, updates and deletes
 of single rows record whole rows as JSON; a rollback reads them back, numbers passing through float64.
 */
module Rollback {
  import opened Arith
  import opened Bytes

  // ---------------------------------------------------------------- numbers through JSON

  const TWO_TO_53: int := 0x20_0000_0000_0000
  const TWO_TO_63: int := 0x8000_0000_0000_0000

  /** Distance of neighbouring float64 values at n: 53 significant bits. */
  function Ulp(n: nat): (u: int)
    ensures u >= 1
  {
    if n < TWO_TO_53 then 1 else 2 * Ulp(n / 2)
  }

  /** n lies among the float64 values with that distance. */
  lemma {:induction false} UlpBounds(n: nat)
    ensures n < Ulp(n) * TWO_TO_53
    ensures Ulp(n) == 1 || Ulp(n) * TWO_TO_53 <= 2 * n
  {
    if n >= TWO_TO_53 {
      UlpBounds(n / 2);
    }
  }

  /** Round to the nearest float64, ties to the even significand. */
  function RoundNat(n: nat): int {
    var u := Ulp(n);
    Nearest(n / u, n % u, u)
  }

  /** The multiple of u nearest to q u + r. */
  function Nearest(q: int, r: int, u: int): int {
    if 2 * r < u || (2 * r == u && q % 2 == 0) then q * u else (q + 1) * u
  }

  function RoundFloat(n: int): int {
    if n >= 0 then RoundNat(n) else -RoundNat(-n)
  }

  /** n is a float64 value. */
  predicate Representable(n: int) {
    var m := if n >= 0 then n else -n;
    m % Ulp(m) == 0
  }

  lemma NearestIsNearest(q: int, r: int, u: int)
    requires u >= 1 && 0 <= r < u
    ensures Nearest(q, r, u) % u == 0
    ensures -u <= 2 * (Nearest(q, r, u) - (q * u + r)) <= u
    ensures Nearest(q, r, u) == q * u + r <==> r == 0
    ensures 2 * r == u ==> Nearest(q, r, u) == (if q % 2 == 0 then q else q + 1) * u
  {
    assert (q + 1) * u == q * u + u;
    DivModUnique(q * u, u, q, 0);
    DivModUnique((q + 1) * u, u, q + 1, 0);
  }

  lemma RoundNatNearest(n: nat)
    ensures RoundNat(n) % Ulp(n) == 0
    ensures -Ulp(n) <= 2 * (RoundNat(n) - n) <= Ulp(n)
    ensures RoundNat(n) == n <==> n % Ulp(n) == 0
    ensures var q := n / Ulp(n);
            2 * (n % Ulp(n)) == Ulp(n) ==> RoundNat(n) == (if q % 2 == 0 then q else q + 1) * Ulp(n)
  {
    DivideAndRemainder(n, Ulp(n));
    NearestIsNearest(n / Ulp(n), n % Ulp(n), Ulp(n));
  }

  lemma DivideAndRemainder(n: int, u: int)
    requires u >= 1
    ensures n == n / u * u + n % u && 0 <= n % u < u
  {
  }

  /** Exactly the float64 integers survive, in particular everything up to 2^53. */
  lemma RoundExactIff(n: int)
    ensures RoundFloat(n) == n <==> Representable(n)
    ensures -TWO_TO_53 <= n <= TWO_TO_53 ==> Representable(n)
  {
    RoundNatNearest(if n >= 0 then n else -n);
    assert Ulp(TWO_TO_53) == 2 * Ulp(TWO_TO_53 / 2) == 2;
  }

  /** The column kinds of the data model; a timestamp is its RFC 3339 text, which the database reads back as it. */
  datatype Value = Null | Int(n: int) | Text(s: string) | Bool(b: bool) | Timestamp(rfc3339: string)

  /** int64(f); 2^63 itself, to which the largest int64 values round, becomes the smallest. */
  function ToInt64(f: int): int {
    if -TWO_TO_63 <= f < TWO_TO_63 then f else -TWO_TO_63
  }

  /** What a column value is after being marshalled, unmarshalled and passed through normalizeJSON. */
  function ThroughJson(v: Value): Value {
    if v.Int? then Int(ToInt64(RoundFloat(v.n))) else v
  }

  /** An int64, or anything else. */
  predicate Fits(v: Value) {
    v.Int? ==> -TWO_TO_63 <= v.n < TWO_TO_63
  }

  predicate Exact(v: Value) {
    v.Int? ==> Representable(v.n)
  }

  lemma ThroughJsonExactIff(v: Value)
    requires Fits(v)
    ensures ThroughJson(v) == v <==> Exact(v)
  {
    if v.Int? {
      RoundExactIff(v.n);
      TopRepresentable();
    }
  }

  lemma TopRepresentable()
    ensures Representable(-TWO_TO_63)
  {
    assert Ulp(0x80_0000_0000_0000) == 8 by {
      assert Ulp(0x40_0000_0000_0000) == 4 by {
        assert Ulp(0x20_0000_0000_0000) == 2;
      }
    }
    assert Ulp(0x400_0000_0000_0000) == 64 by {
      assert Ulp(0x200_0000_0000_0000) == 32 by {
        assert Ulp(0x100_0000_0000_0000) == 16;
      }
    }
    assert Ulp(0x2000_0000_0000_0000) == 512 by {
      assert Ulp(0x1000_0000_0000_0000) == 256 by {
        assert Ulp(0x800_0000_0000_0000) == 128;
      }
    }
    assert Ulp(0x4000_0000_0000_0000) == 1024;
    assert Ulp(TWO_TO_63) == 2048;
  }

  /** What comes back is an int64 again, whatever was sent. */
  lemma ThroughJsonFits(v: Value)
    ensures Fits(ThroughJson(v))
  {
  }

  // ---------------------------------------------------------------- tables and the log

  type Row = map<string, Value>
  type Table = map<int, Row>
  type Tables = map<string, Table>

  /** A table's primary key column and all its columns. */
  datatype Layout = Layout(pk: string, columns: set<string>)

  type Schema = map<string, Layout>

  /** A logged change; before and after are whole rows, absent when there was none. */
  datatype Entry = Entry(id: nat, itemId: int, operation: string, table: string, pk: string, before: Option<Row>,
                         after: Option<Row>)

  /** Deleting a row that is not there is no error and is logged without a before-state. */
  datatype Op = Create(table: string, id: int, row: Row) | Update(table: string, id: int, row: Row)
              | Delete(table: string, id: int)

  predicate RowOf(l: Layout, id: int, row: Row) {
    && row.Keys == l.columns && l.pk in l.columns && row[l.pk] == Int(id)
    && forall c :: c in row ==> Fits(row[c])
  }

  /** Every table has its layout, at least one column beside the key, and rows under their own key. */
  predicate WellFormed(schema: Schema, tables: Tables) {
    && tables.Keys == schema.Keys
    && (forall t :: t in schema ==>
          schema[t].pk != "" && schema[t].pk in schema[t].columns && schema[t].columns != {schema[t].pk})
    && forall t, id :: t in tables && id in tables[t] ==> RowOf(schema[t], id, tables[t][id])
  }

  predicate Allowed(schema: Schema, tables: Tables, op: Op) {
    && op.table in schema && op.table in tables && op.id != 0
    && match op
       case Create(t, id, row) => id !in tables[t] && RowOf(schema[t], id, row)
       case Update(t, id, row) => id in tables[t] && RowOf(schema[t], id, row)
       case Delete(t, id) => true
  }

  function Put(tables: Tables, t: string, id: int, row: Row): Tables
    requires t in tables
  {
    tables[t := tables[t][id := row]]
  }

  function Drop(tables: Tables, t: string, id: int): Tables
    requires t in tables
  {
    tables[t := tables[t] - {id}]
  }

  function Do(schema: Schema, tables: Tables, op: Op): Tables
    requires Allowed(schema, tables, op)
  {
    match op
    case Create(t, id, row) => Put(tables, t, id, row)
    case Update(t, id, row) => Put(tables, t, id, row)
    case Delete(t, id) => Drop(tables, t, id)
  }

  function Current(tables: Tables, t: string, id: int): Option<Row> {
    if t in tables && id in tables[t] then Some(tables[t][id]) else None
  }

  /** What the callbacks record: the row before, fetched by the before hook, and the row after. */
  function EntryFor(schema: Schema, tables: Tables, op: Op, id: nat): Entry
    requires Allowed(schema, tables, op)
  {
    var pk := schema[op.table].pk;
    match op
    case Create(t, k, row) => Entry(id, k, "create", t, pk, None, Some(row))
    case Update(t, k, row) => Entry(id, k, "update", t, pk, Current(tables, t, k), Some(row))
    case Delete(t, k) => Entry(id, k, "delete", t, pk, Current(tables, t, k), None)
  }

  const MAX_LOG_ROWS := 100

  /** The newest entries a log keeps. */
  function Newest(log: seq<Entry>, n: nat): seq<Entry> {
    if |log| <= n then log else log[|log| - n..]
  }

  // ---------------------------------------------------------------- rolling back

  datatype Status = RolledBack | Unprocessable | Failed

  function Key(e: Entry): string {
    if e.pk == "" then "id" else e.pk
  }

  /** The row with the columns of before other than pk set back. */
  function SetBack(row: Row, before: Row, pk: string): Row {
    map c | c in row.Keys + (before.Keys - {pk}) :: if c in before && c != pk then ThroughJson(before[c]) else row[c]
  }

  function FromJson(before: Row): Row {
    map c | c in before :: ThroughJson(before[c])
  }

  /** The statement a rollback executes and its outcome; columns must exist, and an INSERT needs a free key. */
  function Undo(schema: Schema, tables: Tables, e: Entry): (Status, Tables)
  {
    if e.operation == "create" then
      if e.after.None? then (Unprocessable, tables)
      else if e.table !in tables then (Failed, tables)
      else (RolledBack, Drop(tables, e.table, e.itemId))
    else if e.operation == "update" then
      if e.before.None? then (Unprocessable, tables)
      else if e.table !in tables || e.table !in schema || !(e.before.value.Keys <= schema[e.table].columns)
              || e.before.value.Keys <= {Key(e)} then (Failed, tables)
      else if e.itemId !in tables[e.table] then (RolledBack, tables)
      else (RolledBack, Put(tables, e.table, e.itemId, SetBack(tables[e.table][e.itemId], e.before.value, Key(e))))
    else if e.operation == "delete" then
      if e.before.None? then (Unprocessable, tables)
      else if e.table !in tables || e.table !in schema || e.before.value.Keys != schema[e.table].columns
              || Key(e) !in e.before.value || !e.before.value[Key(e)].Int? then (Failed, tables)
      else
        var row := FromJson(e.before.value);
        var id := row[Key(e)].n;
        if id in tables[e.table] then (Failed, tables) else (RolledBack, Put(tables, e.table, id, row))
    else (Unprocessable, tables)
  }

  /** The columns whose values a rollback of op sends through JSON: all but the key for an update, all for a delete. */
  predicate Recoverable(schema: Schema, tables: Tables, op: Op)
    requires Allowed(schema, tables, op)
  {
    match op
    case Create(_, _, _) => true
    case Update(t, id, _) => forall c :: c in tables[t][id] && c != schema[t].pk ==> Exact(tables[t][id][c])
    case Delete(t, id) => id in tables[t] ==> forall c :: c in tables[t][id] ==> Exact(tables[t][id][c])
  }

  lemma UpdateUndone(schema: Schema, tables: Tables, t: string, id: int, row: Row)
    requires WellFormed(schema, tables) && Allowed(schema, tables, Update(t, id, row))
    ensures var old_, pk := tables[t][id], schema[t].pk;
            SetBack(row, old_, pk) == old_ <==> forall c :: c in old_ && c != pk ==> Exact(old_[c])
  {
    var old_, pk := tables[t][id], schema[t].pk;
    assert RowOf(schema[t], id, old_);
    forall c | c in old_
      ensures ThroughJson(old_[c]) == old_[c] <==> Exact(old_[c])
    {
      ThroughJsonExactIff(old_[c]);
    }
    if SetBack(row, old_, pk) == old_ {
      forall c | c in old_ && c != pk
        ensures Exact(old_[c])
      {
        assert SetBack(row, old_, pk)[c] == ThroughJson(old_[c]);
      }
    }
  }

  lemma DeleteUndone(l: Layout, id: int, row: Row)
    requires RowOf(l, id, row)
    ensures FromJson(row) == row <==> forall c :: c in row ==> Exact(row[c])
  {
    forall c | c in row
      ensures ThroughJson(row[c]) == row[c] <==> Exact(row[c])
    {
      ThroughJsonExactIff(row[c]);
    }
    if FromJson(row) == row {
      forall c | c in row
        ensures Exact(row[c])
      {
        assert FromJson(row)[c] == ThroughJson(row[c]);
      }
    }
  }

  lemma PutPut(tables: Tables, t: string, id: int, a: Row, b: Row)
    requires t in tables && id in tables[t]
    ensures Put(Put(tables, t, id, a), t, id, b) == tables <==> b == tables[t][id]
  {
    var end := Put(Put(tables, t, id, a), t, id, b);
    assert end[t] == tables[t][id := b];
    if b == tables[t][id] {
      assert end[t] == tables[t];
    } else {
      assert end[t][id] != tables[t][id];
    }
  }

  lemma PutDrop(tables: Tables, t: string, id: int, row: Row)
    requires t in tables && id !in tables[t]
    ensures Drop(Put(tables, t, id, row), t, id) == tables
  {
    assert tables[t][id := row] - {id} == tables[t];
  }

  lemma DropPut(tables: Tables, t: string, id: int, k: int, row: Row)
    requires t in tables && id in tables[t]
    ensures Drop(tables, t, id) != tables
    ensures Put(Drop(tables, t, id), t, k, row) == tables <==> k == id && row == tables[t][id]
  {
    var end := Put(Drop(tables, t, id), t, k, row);
    assert id !in Drop(tables, t, id)[t];
    if k == id && row == tables[t][id] {
      assert end[t] == tables[t];
    } else if k == id {
      assert end[t][id] != tables[t][id];
    } else {
      assert id !in end[t];
    }
  }

  lemma DropNothing(tables: Tables, t: string, id: int)
    requires t in tables && id !in tables[t]
    ensures Drop(tables, t, id) == tables
  {
    assert tables[t] - {id} == tables[t];
  }

  lemma DeleteRolledBack(schema: Schema, tables: Tables, t: string, id: int, logId: nat)
    requires WellFormed(schema, tables) && Allowed(schema, tables, Delete(t, id))
    ensures var op := Delete(t, id);
            Undo(schema, Do(schema, tables, op), EntryFor(schema, tables, op, logId)).1 == tables
            <==> Recoverable(schema, tables, op)
    ensures var op := Delete(t, id);
            var status := Undo(schema, Do(schema, tables, op), EntryFor(schema, tables, op, logId)).0;
            if id !in tables[t] then status == Unprocessable
            else Recoverable(schema, tables, op) ==> status == RolledBack
  {
    if id in tables[t] {
      var row := tables[t][id];
      var e := EntryFor(schema, tables, Delete(t, id), logId);
      DeleteUndone(schema[t], id, row);
      assert RowOf(schema[t], id, row) && Key(e) == schema[t].pk;
      assert FromJson(row)[schema[t].pk].Int?;
      DropPut(tables, t, id, FromJson(row)[schema[t].pk].n, FromJson(row));
    } else {
      DropNothing(tables, t, id);
    }
  }

  /**
   Rolling back the operation just logged restores every table exactly if and only if the values it sends through JSON
   are float64 integers; a create is always undone, an update and a delete when the row's columns qualify.
   */
  lemma RollbackUndoes(schema: Schema, tables: Tables, op: Op, logId: nat)
    requires WellFormed(schema, tables) && Allowed(schema, tables, op)
    ensures Undo(schema, Do(schema, tables, op), EntryFor(schema, tables, op, logId)).1 == tables
            <==> Recoverable(schema, tables, op)
    ensures var status := Undo(schema, Do(schema, tables, op), EntryFor(schema, tables, op, logId)).0;
            if op.Delete? && op.id !in tables[op.table] then status == Unprocessable
            else op.Create? || op.Update? || Recoverable(schema, tables, op) ==> status == RolledBack
  {
    match op
    case Create(t, id, row) => PutDrop(tables, t, id, row);
    case Update(t, id, row) =>
      var e := EntryFor(schema, tables, op, logId);
      assert RowOf(schema[t], id, tables[t][id]) && Key(e) == schema[t].pk;
      UpdateUndone(schema, tables, t, id, row);
      PutPut(tables, t, id, row, SetBack(row, tables[t][id], schema[t].pk));
    case Delete(t, id) => DeleteRolledBack(schema, tables, t, id, logId);
  }

  /**
   An UPDATE needs a column to set and every one of them in the table; an INSERT needs exactly the table's columns and
   an integer key that no row has after its way through JSON.
   */
  predicate StatementRuns(columns: set<string>, rows: Table, e: Entry)
    requires e.before.Some?
  {
    var before, pk := e.before.value, if e.pk == "" then "id" else e.pk;
    if e.operation == "update" then
      before.Keys <= columns && exists c :: c in before && c != pk
    else
      before.Keys == columns && pk in before && before[pk].Int? && ToInt64(RoundFloat(before[pk].n)) !in rows
  }

  lemma SomeOtherColumn(before: Row, pk: string)
    ensures before.Keys <= {pk} <==> !exists c :: c in before && c != pk
  {
  }

  /**
   How a rollback ends, for any entry: unprocessable exactly for an unknown operation or a missing state, which is the
   one after a creation and the one before an update or a deletion; and only a rollback that succeeded changes a table.
   */
  lemma UndoStatus(schema: Schema, tables: Tables, e: Entry)
    ensures Undo(schema, tables, e).0 == Unprocessable <==>
              if e.operation == "create" then e.after.None?
              else e.operation in {"update", "delete"} ==> e.before.None?
    ensures Undo(schema, tables, e).0 == RolledBack <==>
              && e.table in tables
              && if e.operation == "create" then e.after.Some?
                 else e.operation in {"update", "delete"} && e.before.Some? && e.table in schema
                      && StatementRuns(schema[e.table].columns, tables[e.table], e)
    ensures Undo(schema, tables, e).0 != RolledBack ==> Undo(schema, tables, e).1 == tables
    ensures forall t :: t in tables && t != e.table ==>
              t in Undo(schema, tables, e).1 && Undo(schema, tables, e).1[t] == tables[t]
  {
    if e.before.Some? {
      SomeOtherColumn(e.before.value, Key(e));
    }
  }

  lemma DoWellFormed(schema: Schema, tables: Tables, op: Op)
    requires WellFormed(schema, tables) && Allowed(schema, tables, op)
    ensures WellFormed(schema, Do(schema, tables, op))
  {
    var after := Do(schema, tables, op);
    forall t, id | t in after && id in after[t]
      ensures RowOf(schema[t], id, after[t][id])
    {
      if t != op.table || id != op.id {
        assert id in tables[t] && after[t][id] == tables[t][id];
      }
    }
  }

  // ---------------------------------------------------------------- whole runs

  /** The tables after ops, or None when one was not allowed. */
  function After(schema: Schema, tables: Tables, ops: seq<Op>): Option<Tables> {
    if ops == [] then Some(tables)
    else
      var before, last := After(schema, tables, ops[..|ops| - 1]), ops[|ops| - 1];
      if before.None? || !Allowed(schema, before.value, last) then None else Some(Do(schema, before.value, last))
  }

  function Entries(schema: Schema, tables: Tables, ops: seq<Op>, firstId: nat): (es: seq<Entry>)
    requires After(schema, tables, ops).Some?
    ensures |es| == |ops|
  {
    if ops == [] then []
    else
      var init, last := ops[..|ops| - 1], ops[|ops| - 1];
      Entries(schema, tables, init, firstId)
      + [EntryFor(schema, After(schema, tables, init).value, last, firstId + |init|)]
  }

  /** The log after ops, each written and pruned in turn. */
  function LogAfter(schema: Schema, tables: Tables, log: seq<Entry>, ops: seq<Op>, firstId: nat): seq<Entry>
    requires After(schema, tables, ops).Some?
  {
    if ops == [] then log
    else
      var init, last := ops[..|ops| - 1], ops[|ops| - 1];
      Newest(LogAfter(schema, tables, log, init, firstId)
             + [EntryFor(schema, After(schema, tables, init).value, last, firstId + |init|)], MAX_LOG_ROWS)
  }

  lemma NewestOfFew(log: seq<Entry>)
    requires |log| <= MAX_LOG_ROWS
    ensures Newest(log, MAX_LOG_ROWS) == log
  {
  }

  lemma NewestOfNewest(log: seq<Entry>, e: Entry, n: nat)
    ensures Newest(Newest(log, n) + [e], n) == Newest(log + [e], n)
  {
  }

  /** Pruning after every write leaves precisely the newest hundred of all entries. */
  lemma {:induction false} LogIsNewest(schema: Schema, tables: Tables, log: seq<Entry>, ops: seq<Op>, firstId: nat)
    requires After(schema, tables, ops).Some? && |log| <= MAX_LOG_ROWS
    ensures LogAfter(schema, tables, log, ops, firstId)
            == Newest(log + Entries(schema, tables, ops, firstId), MAX_LOG_ROWS)
  {
    hide EntryFor, Newest, Allowed, Do;
    if ops == [] {
      assert log + [] == log;
      NewestOfFew(log);
    } else {
      var init, last := ops[..|ops| - 1], ops[|ops| - 1];
      var e := EntryFor(schema, After(schema, tables, init).value, last, firstId + |init|);
      LogIsNewest(schema, tables, log, init, firstId);
      var es := Entries(schema, tables, init, firstId);
      NewestOfNewest(log + es, e, MAX_LOG_ROWS);
      assert log + (es + [e]) == log + es + [e];
    }
  }

  /** Rolling back es, the newest first. */
  function UndoAll(schema: Schema, tables: Tables, es: seq<Entry>): Tables {
    if es == [] then tables else UndoAll(schema, Undo(schema, tables, es[|es| - 1]).1, es[..|es| - 1])
  }

  /** Each of the last k operations can be recovered where it was done. */
  ghost predicate LastRecoverable(schema: Schema, tables: Tables, ops: seq<Op>, k: nat)
    requires k <= |ops| && After(schema, tables, ops).Some?
  {
    k == 0
    || (Recoverable(schema, After(schema, tables, ops[..|ops| - 1]).value, ops[|ops| - 1])
        && LastRecoverable(schema, tables, ops[..|ops| - 1], k - 1))
  }

  lemma {:induction false} AfterWellFormed(schema: Schema, tables: Tables, ops: seq<Op>)
    requires WellFormed(schema, tables) && After(schema, tables, ops).Some?
    ensures WellFormed(schema, After(schema, tables, ops).value)
  {
    if ops != [] {
      AfterWellFormed(schema, tables, ops[..|ops| - 1]);
      DoWellFormed(schema, After(schema, tables, ops[..|ops| - 1]).value, ops[|ops| - 1]);
    }
  }

  lemma UndoNothing(schema: Schema, tables: Tables)
    ensures UndoAll(schema, tables, []) == tables
  {
  }

  lemma UndoNewest(schema: Schema, tables: Tables, before: Tables, es: seq<Entry>, e: Entry)
    requires Undo(schema, tables, e).1 == before
    ensures UndoAll(schema, tables, es + [e]) == UndoAll(schema, before, es)
  {
    assert (es + [e])[..|es|] == es;
  }

  lemma EntriesTail(schema: Schema, tables: Tables, ops: seq<Op>, firstId: nat, k: nat)
    requires After(schema, tables, ops).Some? && 1 <= k <= |ops|
    ensures var init, op := ops[..|ops| - 1], ops[|ops| - 1];
            Entries(schema, tables, ops, firstId)[|ops| - k..]
            == Entries(schema, tables, init, firstId)[|ops| - k..]
               + [EntryFor(schema, After(schema, tables, init).value, op, firstId + |init|)]
  {
  }

  lemma {:induction false} UndoLast(schema: Schema, tables: Tables, ops: seq<Op>, firstId: nat, k: nat)
    requires WellFormed(schema, tables) && k <= |ops| && After(schema, tables, ops).Some?
    requires LastRecoverable(schema, tables, ops, k)
    ensures After(schema, tables, ops[..|ops| - k]) ==
            Some(UndoAll(schema, After(schema, tables, ops).value, Entries(schema, tables, ops, firstId)[|ops| - k..]))
    decreases k
  {
    hide Undo, EntryFor, Recoverable, WellFormed, Allowed, Entries, UndoAll, Do;
    if k == 0 {
      assert ops[..|ops|] == ops;
      assert Entries(schema, tables, ops, firstId)[|ops|..] == [];
      UndoNothing(schema, After(schema, tables, ops).value);
    } else {
      var init, op := ops[..|ops| - 1], ops[|ops| - 1];
      var before := After(schema, tables, init).value;
      var e := EntryFor(schema, before, op, firstId + |init|);
      AfterWellFormed(schema, tables, init);
      RollbackUndoes(schema, before, op, firstId + |init|);
      UndoLast(schema, tables, init, firstId, k - 1);
      EntriesTail(schema, tables, ops, firstId, k);
      UndoNewest(schema, After(schema, tables, ops).value, before,
                 Entries(schema, tables, init, firstId)[|ops| - k..], e);
      assert init[..|init| - (k - 1)] == ops[..|ops| - k];
    }
  }

  /**
   After any run of audited operations on any tables, rolling back the newest k entries of the log, newest first,
   restores the tables as they were k operations earlier, for every k the log still holds.
   */
  lemma RollingBackRestores(schema: Schema, tables: Tables, log: seq<Entry>, ops: seq<Op>, firstId: nat, k: nat)
    requires WellFormed(schema, tables) && After(schema, tables, ops).Some? && |log| <= MAX_LOG_ROWS
    requires k <= |ops| && k <= MAX_LOG_ROWS && LastRecoverable(schema, tables, ops, k)
    ensures var end := LogAfter(schema, tables, log, ops, firstId);
            && k <= |end|
            && After(schema, tables, ops[..|ops| - k]) ==
               Some(UndoAll(schema, After(schema, tables, ops).value, end[|end| - k..]))
  {
    hide *;
    LogIsNewest(schema, tables, log, ops, firstId);
    UndoLast(schema, tables, ops, firstId, k);
    NewestTail(log, Entries(schema, tables, ops, firstId), k);
  }

  lemma NewestTail(log: seq<Entry>, es: seq<Entry>, k: nat)
    requires k <= |es| && k <= MAX_LOG_ROWS
    ensures var end := Newest(log + es, MAX_LOG_ROWS);
            k <= |end| && end[|end| - k..] == es[|es| - k..]
  {
  }

  /** Every integer lies within 2^53. */
  predicate SmallRow(row: Row) {
    forall c :: c in row && row[c].Int? ==> -TWO_TO_53 <= row[c].n <= TWO_TO_53
  }

  predicate SmallTables(tables: Tables) {
    forall t, id :: t in tables && id in tables[t] ==> SmallRow(tables[t][id])
  }

  predicate SmallOp(op: Op) {
    !op.Delete? ==> SmallRow(op.row)
  }

  lemma {:induction false} SmallStays(schema: Schema, tables: Tables, ops: seq<Op>)
    requires SmallTables(tables) && After(schema, tables, ops).Some?
    requires forall i :: 0 <= i < |ops| ==> SmallOp(ops[i])
    ensures SmallTables(After(schema, tables, ops).value)
  {
    if ops != [] {
      SmallStays(schema, tables, ops[..|ops| - 1]);
      assert SmallOp(ops[|ops| - 1]);
    }
  }

  lemma SmallRowExact(row: Row)
    requires SmallRow(row)
    ensures forall c :: c in row ==> Exact(row[c])
  {
    forall c | c in row
      ensures Exact(row[c])
    {
      if row[c].Int? {
        RoundExactIff(row[c].n);
      }
    }
  }

  /** Integers within 2^53 are always recoverable. */
  lemma {:induction false} SmallRecoverable(schema: Schema, tables: Tables, ops: seq<Op>, k: nat)
    requires SmallTables(tables) && After(schema, tables, ops).Some? && k <= |ops|
    requires forall i :: 0 <= i < |ops| ==> SmallOp(ops[i])
    ensures LastRecoverable(schema, tables, ops, k)
    decreases k
  {
    if k > 0 {
      var init, op := ops[..|ops| - 1], ops[|ops| - 1];
      var before := After(schema, tables, init).value;
      SmallStays(schema, tables, init);
      if !op.Create? && op.id in before[op.table] {
        SmallRowExact(before[op.table][op.id]);
      }
      SmallRecoverable(schema, tables, init, k - 1);
    }
  }
}

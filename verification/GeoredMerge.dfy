/**
 SQN replication on the receiving side: the event handler of internal/geored/handlers.go, applySnapshot of manager.go
 and BuildSnapshot of snapshot.go. One comparison with the write it guards is one step.
 */
module GeoredMerge {
  import opened GeoredQueue

  /** Stored SQN of every AUC record, by record id. */
  type Table = map<int, int>

  datatype Entry = Entry(id: int, sqn: int)

  /** Greater wins; an id the replica does not know is skipped. */
  function Merge(t: Table, e: Entry): Table {
    if e.id in t && e.sqn > t[e.id] then t[e.id := e.sqn] else t
  }

  function MergeAll(t: Table, es: seq<Entry>): Table
    decreases |es|
  {
    if es == [] then t else Merge(MergeAll(t, es[..|es| - 1]), es[|es| - 1])
  }

  /** The SQN events among es, in order. */
  function SqnEntries(es: seq<Event>): seq<Entry> {
    if es == [] then []
    else
      var last := es[|es| - 1];
      SqnEntries(es[..|es| - 1]) + if last.SqnUpdate? then [Entry(last.aucId, last.sqn)] else []
  }

  // ---------------------------------------------------------------- merging is a join

  /** v is the greatest of the starting value and everything received for id. */
  ghost predicate IsMax(v: int, start: int, es: seq<Entry>, id: int) {
    && start <= v
    && (forall e :: e in es && e.id == id ==> e.sqn <= v)
    && (v == start || Entry(id, v) in es)
  }

  /** Merging any entries in any order leaves every record at the maximum of its start and what was received for it. */
  lemma {:induction false} MergeAllIsMax(t: Table, es: seq<Entry>)
    ensures MergeAll(t, es).Keys == t.Keys
    ensures forall id :: id in t ==> IsMax(MergeAll(t, es)[id], t[id], es, id)
    decreases |es|
  {
    if es != [] {
      var init, last := es[..|es| - 1], es[|es| - 1];
      MergeAllIsMax(t, init);
      assert es == init + [last];
      forall id | id in t
        ensures IsMax(MergeAll(t, es)[id], t[id], es, id)
      {
        assert IsMax(MergeAll(t, init)[id], t[id], init, id);
      }
    }
  }

  lemma MaxUnique(v: int, w: int, start: int, a: seq<Entry>, b: seq<Entry>, id: int)
    requires IsMax(v, start, a, id) && IsMax(w, start, b, id)
    requires forall e :: e in a ==> e in b
    ensures v <= w
  {
  }

  /** Order and repetition do not matter. */
  lemma {:induction false} OrderAndRepeatsIrrelevant(t: Table, a: seq<Entry>, b: seq<Entry>)
    requires forall e :: e in a <==> e in b
    ensures MergeAll(t, a) == MergeAll(t, b)
  {
    MergeAllIsMax(t, a);
    MergeAllIsMax(t, b);
    forall id | id in t
      ensures MergeAll(t, a)[id] == MergeAll(t, b)[id]
    {
      MaxUnique(MergeAll(t, a)[id], MergeAll(t, b)[id], t[id], a, b, id);
      MaxUnique(MergeAll(t, b)[id], MergeAll(t, a)[id], t[id], b, a, id);
    }
  }

  /** Losing entries can only leave a record lower, never below its start and never at a wrong maximum. */
  lemma {:induction false} FewerEntriesNoHigher(t: Table, a: seq<Entry>, b: seq<Entry>, id: int)
    requires id in t && forall e :: e in a ==> e in b
    ensures id in MergeAll(t, a) && id in MergeAll(t, b)
    ensures t[id] <= MergeAll(t, a)[id] <= MergeAll(t, b)[id]
  {
    MergeAllIsMax(t, a);
    MergeAllIsMax(t, b);
    MaxUnique(MergeAll(t, a)[id], MergeAll(t, b)[id], t[id], a, b, id);
  }

  // ---------------------------------------------------------------- the handlers

  /** es lists the records of t, each at least once and nothing else. */
  ghost predicate Lists(es: seq<Entry>, t: Table) {
    forall e :: e in es <==> e.id in t && t[e.id] == e.sqn
  }

  /** The loop of BuildSnapshot over the records, in any order the store returns them. */
  method ListRecords(records: Table) returns (sqns: seq<Entry>)
    ensures Lists(sqns, records) && |sqns| == |records|
  {
    sqns := [];
    var rest := records.Items;
    while rest != {}
      invariant rest <= records.Items
      invariant |sqns| == |records.Items| - |rest|
      invariant forall e: Entry :: e in sqns <==> (e.id, e.sqn) in records.Items - rest
      decreases |rest|
    {
      var row :| row in rest;
      sqns := sqns + [Entry(row.0, row.1)];
      rest := rest - {row};
    }
  }

  lemma MergeOfOne(t: Table, es: seq<Entry>)
    requires |es| == 1
    ensures MergeAll(t, es) == Merge(t, es[0])
  {
    assert es[..0] == [];
  }

  lemma EntriesOfOne(es: seq<Event>)
    requires |es| == 1
    ensures SqnEntries(es) == if es[0].SqnUpdate? then [Entry(es[0].aucId, es[0].sqn)] else []
  {
    assert es[..0] == [];
  }

  lemma OneEvent(t: Table, e: Event)
    ensures MergeAll(t, SqnEntries([e])) == if e.SqnUpdate? then Merge(t, Entry(e.aucId, e.sqn)) else t
  {
    hide SqnEntries;
    EntriesOfOne([e]);
    if e.SqnUpdate? {
      MergeOfOne(t, [Entry(e.aucId, e.sqn)]);
    }
  }

  class Replica {
    const nodeId: string
    var aucs: Table

    constructor (nodeId: string, aucs: Table)
      ensures this.nodeId == nodeId && this.aucs == aucs
    {
      this.nodeId, this.aucs := nodeId, aucs;
    }

    method ApplyEvent(e: Event)
      modifies this
      ensures aucs == MergeAll(old(aucs), SqnEntries([e]))
    {
      hide MergeAll, SqnEntries;
      OneEvent(aucs, e);
      if e.SqnUpdate? {
        if e.aucId in aucs {
          var current := aucs[e.aucId];
          if e.sqn > current {
            aucs := aucs[e.aucId := e.sqn];
          }
        }
      }
    }

    /** eventsHandler: a batch this node sent itself is dropped, any other is merged as a whole. */
    method HandleEvents(source: string, events: seq<Event>)
      modifies this
      ensures aucs == if source == nodeId then old(aucs) else MergeAll(old(aucs), SqnEntries(events))
    {
      if source == nodeId {
        return;
      }
      assert events[..0] == [];
      for i := 0 to |events|
        invariant aucs == MergeAll(old(aucs), SqnEntries(events[..i]))
      {
        ApplyEvent(events[i]);
        SqnEntriesSnoc(events[..i], events[i]);
        MergeAllAppend(old(aucs), SqnEntries(events[..i]), SqnEntries([events[i]]));
        assert events[..i] + [events[i]] == events[..i + 1];
      }
      assert events[..|events|] == events;
    }

    method ApplySnapshot(sqns: seq<Entry>)
      modifies this
      ensures aucs == MergeAll(old(aucs), sqns)
    {
      for i := 0 to |sqns|
        invariant aucs == MergeAll(old(aucs), sqns[..i])
      {
        var entry := sqns[i];
        assert sqns[..i + 1][..i] == sqns[..i];
        if entry.id in aucs {
          var current := aucs[entry.id];
          if entry.sqn > current {
            aucs := aucs[entry.id := entry.sqn];
          }
        }
      }
      assert sqns[..|sqns|] == sqns;
    }

    /** The SQN part of BuildSnapshot; listed tells whether ListAllAUC succeeded. */
    method BuildSnapshot(listed: bool) returns (sqns: seq<Entry>)
      ensures listed ==> Lists(sqns, aucs) && |sqns| == |aucs|
      ensures !listed ==> sqns == []
    {
      sqns := [];
      if listed {
        sqns := ListRecords(aucs);
      }
    }
  }

  lemma SqnEntriesSnoc(es: seq<Event>, e: Event)
    ensures SqnEntries(es + [e]) == SqnEntries(es) + SqnEntries([e])
  {
    assert (es + [e])[..|es|] == es && [e][..0] == [];
  }

  lemma {:induction false} MergeAllAppend(t: Table, a: seq<Entry>, b: seq<Entry>)
    ensures MergeAll(t, a + b) == MergeAll(MergeAll(t, a), b)
    decreases |b|
  {
    if b == [] {
      assert a + b == a;
    } else {
      MergeAllAppend(t, a, b[..|b| - 1]);
      assert (a + b)[..|a + b| - 1] == a + b[..|b| - 1];
    }
  }

  // ---------------------------------------------------------------- convergence

  /** Merging a whole table. */
  function Join(t: Table, m: Table): Table {
    map id | id in t :: if id in m && m[id] > t[id] then m[id] else t[id]
  }

  /** Applying a snapshot joins in the table it lists, in whatever order it lists it. */
  lemma {:induction false} SnapshotIsJoin(t: Table, m: Table, es: seq<Entry>)
    requires Lists(es, m)
    ensures MergeAll(t, es) == Join(t, m)
  {
    MergeAllIsMax(t, es);
    forall id | id in t
      ensures MergeAll(t, es)[id] == Join(t, m)[id]
    {
      assert IsMax(MergeAll(t, es)[id], t[id], es, id);
      if id in m {
        assert Entry(id, m[id]) in es;
      }
    }
  }

  datatype Snapshot = Snapshot(origin: nat, table: Table)

  /** Node node has merged the entry for id of a snapshot. */
  datatype Progress = Progress(node: nat, snap: Snapshot, id: int)

  /**
   Nodes after SQN increments have stopped; events may still be under way. Snapshots are those taken since, merged the
   entries applied so far, and applied the origins of the snapshots each node has gone through.
   */
  datatype Net = Net(nodes: seq<Table>, events: set<Entry>, snapshots: set<Snapshot>, merged: set<Progress>,
                     applied: seq<set<nat>>)

  /** Entries of a snapshot are merged one by one, with anything else in between. */
  datatype Move = Deliver(node: nat, e: Entry) | Take(node: nat) | MergeOne(node: nat, snap: Snapshot, id: int)
                | Finish(node: nat, snap: Snapshot)

  predicate Possible(net: Net, move: Move) {
    match move
    case Deliver(i, e) => i < |net.nodes| && e in net.events
    case Take(i) => i < |net.nodes|
    case MergeOne(i, snap, id) => i < |net.nodes| && snap in net.snapshots && id in snap.table
    case Finish(i, snap) =>
      && i < |net.nodes| && i < |net.applied| && snap in net.snapshots
      && forall id :: id in snap.table ==> Progress(i, snap, id) in net.merged
  }

  /** Events are neither lost nor used up: delivering one early, late, often or never are all moves. */
  function Next(net: Net, move: Move): Net
    requires Possible(net, move)
  {
    match move
    case Deliver(i, e) => net.(nodes := net.nodes[i := Merge(net.nodes[i], e)])
    case Take(i) => net.(snapshots := net.snapshots + {Snapshot(i, net.nodes[i])})
    case MergeOne(i, snap, id) =>
      net.(nodes := net.nodes[i := Merge(net.nodes[i], Entry(id, snap.table[id]))],
           merged := net.merged + {Progress(i, snap, id)})
    case Finish(i, snap) => net.(applied := net.applied[i := net.applied[i] + {snap.origin}])
  }

  ghost predicate CanReach(a: Net, b: Net, moves: seq<Move>)
    decreases |moves|
  {
    if moves == [] then a == b else Possible(a, moves[0]) && CanReach(Next(a, moves[0]), b, moves[1..])
  }

  /** Some node started with at least v for id. */
  ghost predicate Covered(start: seq<Table>, id: int, v: int) {
    exists j :: 0 <= j < |start| && id in start[j] && v <= start[j][id]
  }

  /** t holds the same ids as node j at the start, none lower, and no value nobody had. */
  ghost predicate Grown(start: seq<Table>, j: nat, t: Table)
    requires j < |start|
  {
    && t.Keys == start[j].Keys
    && forall id :: id in t ==> start[j][id] <= t[id] && Covered(start, id, t[id])
  }

  /** t is at least node j's starting value wherever both have the record. */
  predicate Above(start: seq<Table>, j: nat, t: Table) {
    j < |start| && forall id :: id in t && id in start[j] ==> start[j][id] <= t[id]
  }

  /** What a node has merged it is at least level with. */
  predicate Level(net: Net, p: Progress) {
    && p.node < |net.nodes| && p.snap in net.snapshots && p.id in p.snap.table
    && (p.id in net.nodes[p.node] ==> p.snap.table[p.id] <= net.nodes[p.node][p.id])
  }

  ghost predicate NetInv(start: seq<Table>, net: Net) {
    && |net.nodes| == |net.applied| == |start|
    && (forall i {:trigger net.nodes[i]} :: 0 <= i < |start| ==> Grown(start, i, net.nodes[i]))
    && (forall e :: e in net.events ==> Covered(start, e.id, e.sqn))
    && (forall s :: s in net.snapshots ==> s.origin < |start| && Grown(start, s.origin, s.table))
    && (forall p :: p in net.merged ==> Level(net, p))
    && (forall i, j :: 0 <= i < |start| && j in net.applied[i] ==> Above(start, j, net.nodes[i]))
  }

  lemma MergeGrown(start: seq<Table>, i: nat, t: Table, e: Entry)
    requires i < |start| && Grown(start, i, t) && Covered(start, e.id, e.sqn)
    ensures Grown(start, i, Merge(t, e))
    ensures forall k :: Above(start, k, t) ==> Above(start, k, Merge(t, e))
  {
  }

  lemma MergedKeeps(start: seq<Table>, net: Net, i: nat, e: Entry)
    requires NetInv(start, net) && i < |start| && Covered(start, e.id, e.sqn)
    ensures NetInv(start, net.(nodes := net.nodes[i := Merge(net.nodes[i], e)]))
  {
    MergeGrown(start, i, net.nodes[i], e);
  }

  /** A node that has merged every entry of a snapshot is above its origin's start. */
  lemma FinishedAbove(start: seq<Table>, net: Net, i: nat, snap: Snapshot)
    requires NetInv(start, net) && Possible(net, Finish(i, snap))
    ensures Above(start, snap.origin, net.nodes[i])
  {
    forall id | id in net.nodes[i] && id in start[snap.origin]
      ensures start[snap.origin][id] <= net.nodes[i][id]
    {
      assert Level(net, Progress(i, snap, id));
    }
  }

  lemma NextInv(start: seq<Table>, net: Net, move: Move)
    requires NetInv(start, net) && Possible(net, move)
    ensures NetInv(start, Next(net, move))
  {
    hide Above;
    match move
    case Deliver(i, e) => MergedKeeps(start, net, i, e);
    case Take(i) =>
    case MergeOne(i, snap, id) =>
      var e := Entry(id, snap.table[id]);
      MergedKeeps(start, net, i, e);
      assert Level(Next(net, move), Progress(i, snap, id));
    case Finish(i, snap) => FinishedAbove(start, net, i, snap);
  }

  lemma {:induction false} MovesInv(start: seq<Table>, a: Net, b: Net, moves: seq<Move>)
    requires NetInv(start, a) && CanReach(a, b, moves)
    ensures NetInv(start, b)
    decreases |moves|
  {
    if moves != [] {
      NextInv(start, a, moves[0]);
      MovesInv(start, Next(a, moves[0]), b, moves[1..]);
    }
  }

  ghost predicate IsTop(start: seq<Table>, id: int, v: int) {
    && Covered(start, id, v)
    && forall j :: 0 <= j < |start| && id in start[j] ==> start[j][id] <= v
  }

  predicate SeenAllPeers(net: Net, i: nat) {
    i < |net.applied| && forall j: nat :: j < |net.nodes| && j != i ==> j in net.applied[i]
  }

  /**
   Convergence: from any tables, with any events of theirs under way, in any order of deliveries, snapshots and single
   entries merged from them, a node that has gone through a snapshot of every peer holds for each of its records the
   highest SQN any node held at the start.
   */
  lemma Converges(start: seq<Table>, events: set<Entry>, net: Net, moves: seq<Move>, i: nat, id: int)
    requires forall e :: e in events ==> Covered(start, e.id, e.sqn)
    requires CanReach(Net(start, events, {}, {}, seq(|start|, _ => {})), net, moves)
    requires SeenAllPeers(net, i) && i < |net.nodes| && id in net.nodes[i]
    ensures IsTop(start, id, net.nodes[i][id])
  {
    var first := Net(start, events, {}, {}, seq(|start|, _ => {}));
    assert forall k :: 0 <= k < |start| ==> Grown(start, k, start[k]);
    MovesInv(start, first, net, moves);
    assert Grown(start, i, net.nodes[i]);
    forall j | 0 <= j < |start| && id in start[j]
      ensures start[j][id] <= net.nodes[i][id]
    {
      if j != i {
        assert j in net.applied[i];
        assert Above(start, j, net.nodes[i]);
      }
    }
  }

  /** So any two such nodes agree on every record they both hold. */
  lemma ConvergedNodesAgree(start: seq<Table>, events: set<Entry>, net: Net, moves: seq<Move>, i: nat, k: nat, id: int)
    requires forall e :: e in events ==> Covered(start, e.id, e.sqn)
    requires CanReach(Net(start, events, {}, {}, seq(|start|, _ => {})), net, moves)
    requires SeenAllPeers(net, i) && SeenAllPeers(net, k) && i < |net.nodes| && k < |net.nodes|
    requires id in net.nodes[i] && id in net.nodes[k]
    ensures net.nodes[i][id] == net.nodes[k][id]
  {
    Converges(start, events, net, moves, i, id);
    Converges(start, events, net, moves, k, id);
  }

  // ---------------------------------------------------------------- convergence can be reached

  lemma {:induction false} ReachOnward(a: Net, b: Net, c: Net, first: seq<Move>, second: seq<Move>)
    requires CanReach(a, b, first) && CanReach(b, c, second)
    ensures CanReach(a, c, first + second)
    decreases |first|
  {
    hide Next, Possible;
    if first == [] {
      assert first + second == second;
    } else {
      ReachOnward(Next(a, first[0]), b, c, first[1..], second);
      assert (first + second)[1..] == first[1..] + second;
    }
  }

  lemma OneMove(a: Net, move: Move)
    requires Possible(a, move)
    ensures CanReach(a, Next(a, move), [move])
  {
    hide Next, Possible;
    assert [move][1..] == [];
  }

  /** Nodes, snapshots and what was gone through only grow. */
  predicate Onward(a: Net, b: Net) {
    && |b.nodes| == |a.nodes| && |b.applied| == |a.applied| && a.snapshots <= b.snapshots && a.merged <= b.merged
    && forall i :: 0 <= i < |a.applied| ==> a.applied[i] <= b.applied[i]
  }

  lemma NoItems(t: Table)
    requires t.Items == {}
    ensures t.Keys == {}
  {
  }

  lemma AnyId(t: Table) returns (id: int)
    requires t.Items != {}
    ensures id in t && |t - {id}| < |t|
  {
    var row :| row in t.Items;
    id := row.0;
    assert (t - {id}).Keys == t.Keys - {id};
  }

  /** A node can merge any entries of a snapshot one after the other. */
  lemma {:induction false} MergesAll(net: Net, i: nat, snap: Snapshot, rest: Table)
    returns (moves: seq<Move>, end: Net)
    requires i < |net.nodes| && snap in net.snapshots && rest.Keys <= snap.table.Keys
    ensures CanReach(net, end, moves) && Onward(net, end)
    ensures forall id :: id in rest ==> Progress(i, snap, id) in end.merged
    decreases |rest|
  {
    if rest.Items == {} {
      moves, end := [], net;
      NoItems(rest);
    } else {
      var id := AnyId(rest);
      var move := MergeOne(i, snap, id);
      var next := Next(net, move);
      OneMove(net, move);
      moves, end := MergesAll(next, i, snap, rest - {id});
      ReachOnward(net, next, end, [move], moves);
      moves := [move] + moves;
      assert Progress(i, snap, id) in next.merged;
    }
  }

  /** A node can take and go through a snapshot of any peer. */
  lemma GoesThrough(net: Net, i: nat, j: nat) returns (moves: seq<Move>, end: Net)
    requires i < |net.nodes| == |net.applied| && j < |net.nodes|
    ensures CanReach(net, end, moves) && Onward(net, end) && j in end.applied[i]
  {
    var snap := Snapshot(j, net.nodes[j]);
    var taken := Next(net, Take(j));
    OneMove(net, Take(j));
    var merging, merged := MergesAll(taken, i, snap, snap.table);
    ReachOnward(net, taken, merged, [Take(j)], merging);
    end := Next(merged, Finish(i, snap));
    OneMove(merged, Finish(i, snap));
    ReachOnward(net, merged, end, [Take(j)] + merging, [Finish(i, snap)]);
    moves := ([Take(j)] + merging) + [Finish(i, snap)];
  }

  lemma {:induction false} GoesThroughFirst(net: Net, i: nat, n: nat) returns (moves: seq<Move>, end: Net)
    requires i < |net.nodes| == |net.applied| && n <= |net.nodes|
    ensures CanReach(net, end, moves) && Onward(net, end)
    ensures forall j: nat :: j < n ==> j in end.applied[i]
  {
    if n == 0 {
      moves, end := [], net;
    } else {
      var first, mid := GoesThroughFirst(net, i, n - 1);
      var second, last := GoesThrough(mid, i, n - 1);
      ReachOnward(net, mid, last, first, second);
      moves, end := first + second, last;
    }
  }

  /** From anywhere, any node can get to where Converges applies to it. */
  lemma ConvergenceAttainable(net: Net, i: nat) returns (moves: seq<Move>, end: Net)
    requires i < |net.nodes| == |net.applied|
    ensures CanReach(net, end, moves) && SeenAllPeers(end, i)
  {
    moves, end := GoesThroughFirst(net, i, |net.nodes|);
  }
}

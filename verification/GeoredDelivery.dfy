/**
 Sender and receiver together: what the peer's table holds once batches pushed by the queue of
 internal/geored/client.go have gone through the event handler of internal/geored/handlers.go.
 */
module GeoredDelivery {
  import opened GeoredMerge
  import opened GeoredQueue

  /** HandleEvents for one batch of another node after the other. */
  function Handled(t: Table, batches: seq<seq<Event>>): Table {
    if batches == [] then t
    else MergeAll(Handled(t, batches[..|batches| - 1]), SqnEntries(batches[|batches| - 1]))
  }

  /**
   The peer handled every batch whose push succeeded and perhaps some whose push seemed to fail, in any order, as a
   timed-out request may still arrive, and any number of times.
   */
  ghost predicate Arrived(attempts: seq<Attempt>, batches: seq<seq<Event>>) {
    && (forall a :: a in attempts && a.ok ==> a.events in batches)
    && (forall b :: b in batches ==> exists a :: a in attempts && a.events == b)
  }

  predicate InSome(x: Event, batches: seq<seq<Event>>) {
    exists b :: b in batches && x in b
  }

  function AsEvent(e: Entry): Event {
    SqnUpdate(e.id, e.sqn)
  }

  // ---------------------------------------------------------------- members

  lemma {:induction false} EntriesMember(es: seq<Event>, e: Entry)
    ensures e in SqnEntries(es) <==> AsEvent(e) in es
  {
    if es != [] {
      EntriesMember(es[..|es| - 1], e);
      assert es == es[..|es| - 1] + [es[|es| - 1]];
    }
  }

  lemma {:induction false} SubsequenceMember(a: seq<Event>, b: seq<Event>, x: Event)
    requires Subsequence(a, b) && x in a
    ensures x in b
    decreases |b|
  {
    var init := b[..|b| - 1];
    if a[|a| - 1] == b[|b| - 1] && Subsequence(a[..|a| - 1], init) {
      if x in a[..|a| - 1] {
        SubsequenceMember(a[..|a| - 1], init, x);
      }
    } else {
      SubsequenceMember(a, init, x);
    }
  }

  lemma {:induction false} PushedMember(attempts: seq<Attempt>, outcomes: set<bool>, x: Event)
    ensures x in Pushed(attempts, outcomes) <==> exists a :: a in attempts && a.ok in outcomes && x in a.events
  {
    if attempts != [] {
      var init, last := attempts[..|attempts| - 1], attempts[|attempts| - 1];
      PushedMember(init, outcomes, x);
      assert forall a :: a in attempts <==> a in init || a == last;
    }
  }

  function All(batches: seq<seq<Event>>): seq<Event> {
    if batches == [] then [] else All(batches[..|batches| - 1]) + batches[|batches| - 1]
  }

  lemma {:induction false} AllMember(batches: seq<seq<Event>>, x: Event)
    ensures x in All(batches) <==> InSome(x, batches)
  {
    if batches != [] {
      var init, last := batches[..|batches| - 1], batches[|batches| - 1];
      AllMember(init, x);
      assert forall b :: b in batches <==> b in init || b == last;
    }
  }

  lemma {:induction false} EntriesAppend(a: seq<Event>, b: seq<Event>)
    ensures SqnEntries(a + b) == SqnEntries(a) + SqnEntries(b)
    decreases |b|
  {
    if b == [] {
      assert a + b == a;
    } else {
      EntriesAppend(a, b[..|b| - 1]);
      assert (a + b)[..|a + b| - 1] == a + b[..|b| - 1];
    }
  }

  lemma {:induction false} HandledIsMerge(t: Table, batches: seq<seq<Event>>)
    ensures Handled(t, batches) == MergeAll(t, SqnEntries(All(batches)))
  {
    if batches != [] {
      var init, last := batches[..|batches| - 1], batches[|batches| - 1];
      HandledIsMerge(t, init);
      EntriesAppend(All(init), last);
      MergeAllAppend(t, SqnEntries(All(init)), SqnEntries(last));
    }
  }

  // ---------------------------------------------------------------- sender and receiver

  /** Whatever arrived was accepted into the queue, and all that was delivered arrived. */
  lemma ArrivedAccepted(c: Config, s: State, batches: seq<seq<Event>>, x: Event)
    requires c.Valid() && Reachable(c, s) && Arrived(s.attempts, batches)
    ensures InSome(x, batches) ==> x in s.accepted
    ensures x in Pushed(s.attempts, {true}) ==> InSome(x, batches)
  {
    hide Subsequence, Pushed, Holds, DepthExact, EntriesConserved, LineConserved, Reachable;
    ReachableInv(c, s);
    PushedMember(s.attempts, {true, false}, x);
    PushedMember(s.attempts, {true}, x);
    if InSome(x, batches) {
      assert x in Line(s);
      SubsequenceMember(Line(s), s.accepted, x);
    }
  }

  /** The same for SQN entries. */
  lemma EntriesArrived(c: Config, s: State, batches: seq<seq<Event>>)
    requires c.Valid() && Reachable(c, s) && Arrived(s.attempts, batches)
    ensures forall e :: e in SqnEntries(All(batches)) ==> e in SqnEntries(s.accepted)
    ensures forall e :: e in SqnEntries(Pushed(s.attempts, {true})) ==> e in SqnEntries(All(batches))
  {
    hide SqnEntries, All, Pushed, Arrived, InSome, Reachable;
    forall e: Entry
      ensures e in SqnEntries(All(batches)) ==> e in SqnEntries(s.accepted)
      ensures e in SqnEntries(Pushed(s.attempts, {true})) ==> e in SqnEntries(All(batches))
    {
      EntriesMember(All(batches), e);
      EntriesMember(s.accepted, e);
      EntriesMember(Pushed(s.attempts, {true}), e);
      AllMember(batches, AsEvent(e));
      ArrivedAccepted(c, s, batches, AsEvent(e));
    }
  }

  /**
   In every run of the queue and whatever the network does, each record of the peer ends at the maximum of its start
   and the SQNs that arrived, no lower than what was delivered and no higher than what publishers sent.
   */
  lemma PeerHoldsMaximum(c: Config, s: State, t: Table, batches: seq<seq<Event>>, id: int)
    requires c.Valid() && Reachable(c, s) && Arrived(s.attempts, batches) && id in t
    ensures Handled(t, batches).Keys == t.Keys
    ensures IsMax(Handled(t, batches)[id], t[id], SqnEntries(All(batches)), id)
    ensures id in MergeAll(t, SqnEntries(s.accepted)) && id in MergeAll(t, SqnEntries(Pushed(s.attempts, {true})))
    ensures MergeAll(t, SqnEntries(Pushed(s.attempts, {true})))[id] <= Handled(t, batches)[id]
            <= MergeAll(t, SqnEntries(s.accepted))[id]
  {
    hide MergeAll, SqnEntries, All, Pushed, Arrived, Handled, IsMax, Reachable;
    HandledIsMerge(t, batches);
    MergeAllIsMax(t, SqnEntries(All(batches)));
    EntriesArrived(c, s, batches);
    FewerEntriesNoHigher(t, SqnEntries(All(batches)), SqnEntries(s.accepted), id);
    FewerEntriesNoHigher(t, SqnEntries(Pushed(s.attempts, {true})), SqnEntries(All(batches)), id);
  }

  /**
   Dropping the oldest costs a record nothing exactly when its highest accepted SQN arrived or the peer had it already:
   then, and only then, the peer ends where it would have if nothing had been lost.
   */
  lemma LossHarmlessIff(c: Config, s: State, t: Table, batches: seq<seq<Event>>, id: int)
    requires c.Valid() && Reachable(c, s) && Arrived(s.attempts, batches) && id in t
    ensures id in Handled(t, batches) && id in MergeAll(t, SqnEntries(s.accepted))
    ensures var top := MergeAll(t, SqnEntries(s.accepted))[id];
            Handled(t, batches)[id] == top <==> t[id] == top || InSome(SqnUpdate(id, top), batches)
  {
    hide MergeAll, SqnEntries, All, Pushed, Arrived, Handled, Reachable, InSome;
    PeerHoldsMaximum(c, s, t, batches, id);
    var top := MergeAll(t, SqnEntries(s.accepted))[id];
    EntriesMember(All(batches), Entry(id, top));
    AllMember(batches, SqnUpdate(id, top));
  }

  /** With nothing drained, refused, in hand or lost with a failed push, the peer holds the maximum of all published. */
  lemma QuietQueueDelivers(c: Config, s: State, t: Table, batches: seq<seq<Event>>, id: int)
    requires c.Valid() && Reachable(c, s) && Arrived(s.attempts, batches) && id in t
    requires Elsewhere(s) == multiset{} && Pushed(s.attempts, {false}) == []
    ensures id in Handled(t, batches)
    ensures t[id] <= Handled(t, batches)[id]
    ensures forall sqn: int :: SqnUpdate(id, sqn) in s.entered ==> sqn <= Handled(t, batches)[id]
    ensures Handled(t, batches)[id] == t[id] || SqnUpdate(id, Handled(t, batches)[id]) in s.entered
  {
    hide MergeAll, SqnEntries, All, Pushed, Arrived, Handled, Reachable, InSome, Elsewhere;
    PeerHoldsMaximum(c, s, t, batches, id);
    QueueConservation(c, s);
    var v := Handled(t, batches)[id];
    forall sqn: int | SqnUpdate(id, sqn) in s.entered
      ensures sqn <= v
    {
      EntriesMember(All(batches), Entry(id, sqn));
      AllMember(batches, SqnUpdate(id, sqn));
      ArrivedAccepted(c, s, batches, SqnUpdate(id, sqn));
    }
    if v != t[id] {
      EntriesMember(All(batches), Entry(id, v));
      AllMember(batches, SqnUpdate(id, v));
      ArrivedWasEntered(c, s, batches, SqnUpdate(id, v));
    }
  }

  lemma ArrivedWasEntered(c: Config, s: State, batches: seq<seq<Event>>, x: Event)
    requires c.Valid() && Reachable(c, s) && Arrived(s.attempts, batches) && InSome(x, batches)
    ensures x in s.entered
  {
    ArrivedAccepted(c, s, batches, x);
    hide Pushed, Subsequence, Arrived, InSome, Reachable;
    ReachableInv(c, s);
    assert s.entered[x] == Entries(s, x) >= multiset(s.accepted)[x];
  }
}

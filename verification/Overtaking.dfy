// Exactly when the background worker's events all arrive, and in order.
module Overtaking {
  import opened Events
  import opened Timeline
  import opened Pipe
  import opened Connections

  // A reader passes on an event while an earlier connection still holds one.
  predicate Overtakes(w: Worker, t: Turn) {
    && t.Handle? && t.connection < |w.connections|
    && w.connections[t.connection] != []
    && InFlight(w.connections[..t.connection]) != []
  }

  predicate NeverOvertakes(events: seq<Event>, turns: seq<Turn>) {
    turns == [] || (NeverOvertakes(events, Init(turns)) && !Overtakes(Work(events, Init(turns)), Last(turns)))
  }

  // What was passed on, then what is in flight, is what was written, in order.
  predicate Queued(w: Worker) { w.delivered + InFlight(w.connections) == ForcedAll(w.sent) }

  lemma {:induction false} FlightAround(connections: seq<seq<Event>>, k: nat)
    requires k < |connections|
    ensures InFlight(connections)
         == InFlight(connections[..k]) + connections[k] + InFlight(connections[k + 1..])
  {
    if k == |connections| - 1 {
      assert connections[..k] == Init(connections) && connections[k + 1..] == [];
      assert InFlight(connections) + [] == InFlight(connections);
    } else {
      var init, last, rest := Init(connections), Last(connections), connections[k + 1..];
      FlightAround(init, k);
      assert init[..k] == connections[..k] && init[k] == connections[k];
      assert init[k + 1..] == Init(rest) && Last(rest) == last;
      AssociateThree(InFlight(init[..k]), init[k], InFlight(init[k + 1..]), last);
    }
  }

  lemma AssociateThree(a: seq<Event>, b: seq<Event>, c: seq<Event>, d: seq<Event>)
    ensures a + b + c + d == a + b + (c + d)
  {
  }

  lemma Regroup(d: seq<Event>, a: seq<Event>, b: seq<Event>, c: seq<Event>)
    requires a == [] || b == []
    ensures d + b + (a + [] + c) == d + (a + b + c)
  {
  }

  lemma FlightAfter(connections: seq<seq<Event>>, k: nat)
    requires k < |connections|
    ensures InFlight(connections[k := []])
         == InFlight(connections[..k]) + [] + InFlight(connections[k + 1..])
  {
    var after := connections[k := []];
    FlightAround(after, k);
    assert after[..k] == connections[..k] && after[k + 1..] == connections[k + 1..];
  }

  lemma HandleQueued(w: Worker, k: nat)
    requires Queued(w) && k < |w.connections| && !Overtakes(w, Handle(k))
    ensures Queued(TakeTurn(w, Handle(k)))
  {
    FlightAround(w.connections, k);
    FlightAfter(w.connections, k);
    Regroup(w.delivered, InFlight(w.connections[..k]), w.connections[k], InFlight(w.connections[k + 1..]));
  }

  lemma ForcedOneMore(sent: seq<Event>, e: Event)
    ensures ForcedAll(sent + [e]) == ForcedAll(sent) + [Forced(e)]
  {
  }

  lemma ArrivedQueued(delivered: seq<Event>, flying: seq<Event>, arrived: seq<Event>, all: seq<Event>)
    requires delivered + flying == all
    ensures delivered + (flying + arrived) == all + arrived
  {
  }

  lemma SendQueued(w: Worker, e: Event, dialed: bool, written: nat)
    requires Queued(w)
    ensures Queued(Sending(w, e, dialed, written))
  {
    if dialed {
      OneConnection(w.connections, Arrived(e, written));
      ArrivedQueued(w.delivered, InFlight(w.connections), Arrived(e, written), ForcedAll(w.sent));
      ForcedOneMore(w.sent, e);
      assert ForcedAll(w.sent) + [] == ForcedAll(w.sent);
    }
  }

  // As long as no reader overtakes another, events are passed on in the order they were written.
  lemma {:induction false} QueuedUnlessOvertaken(events: seq<Event>, turns: seq<Turn>)
    requires NeverOvertakes(events, turns)
    ensures Queued(Work(events, turns))
  {
    if turns != [] {
      QueuedUnlessOvertaken(events, Init(turns));
      var w := Work(events, Init(turns));
      match Last(turns)
      case Offer =>
      case Take =>
      case Send(dialed, written) =>
        if w.held.Some? {
          SendQueued(w, w.held.value, dialed, written);
        }
      case Handle(k) =>
        if k < |w.connections| {
          HandleQueued(w, k);
        }
    }
  }

  ghost predicate Distinct(events: seq<Event>) {
    forall i, j :: 0 <= i < j < |events| ==> events[i] != events[j]
  }

  lemma {:induction false} DistinctPart(a: seq<Event>, b: seq<Event>)
    requires Subsequence(a, b) && Distinct(b)
    ensures Distinct(a)
  {
    if a != [] {
      if Last(a) == Last(b) && Subsequence(Init(a), Init(b)) {
        DistinctPart(Init(a), Init(b));
        SubsequenceMembers(Init(a), Init(b));
        LastDistinct(a, b);
      } else {
        DistinctPart(a, Init(b));
      }
    }
  }

  lemma LastDistinct(a: seq<Event>, b: seq<Event>)
    requires a != [] && b != [] && Last(a) == Last(b)
    requires Distinct(Init(a)) && Distinct(b)
    requires forall e :: e in Init(a) ==> e in Init(b)
    ensures Distinct(a)
  {
    forall i, j | 0 <= i < j < |a|
      ensures a[i] != a[j]
    {
      assert Init(a)[i] in Init(b);
      assert j < |a| - 1 ==> Init(a)[j] == a[j];
    }
  }

  lemma {:induction false} ForcedPart(a: seq<Event>, b: seq<Event>)
    requires Subsequence(a, b)
    ensures Subsequence(ForcedAll(a), ForcedAll(b))
  {
    if a != [] {
      assert Init(ForcedAll(b)) == ForcedAll(Init(b));
      if Last(a) == Last(b) && Subsequence(Init(a), Init(b)) {
        ForcedPart(Init(a), Init(b));
        assert Init(ForcedAll(a)) == ForcedAll(Init(a));
      } else {
        ForcedPart(a, Init(b));
      }
    }
  }

  lemma OutOfPlace(all: seq<Event>, before: seq<Event>, skipped: seq<Event>, next: seq<Event>, after: seq<Event>)
    requires all == before + (skipped + next + after) && skipped != [] && next != []
    requires Distinct(all)
    ensures !(before + next <= all)
  {
    assert all[|before| + |skipped|] == next[0];
    assert all[|before|] == skipped[0];
    assert (before + next)[|before|] == next[0];
  }

  lemma OvertakingShows(w: Worker, t: Turn)
    requires Queued(w) && Overtakes(w, t) && Distinct(ForcedAll(w.sent))
    ensures !(TakeTurn(w, t).delivered <= ForcedAll(TakeTurn(w, t).sent))
  {
    var k := t.connection;
    FlightAround(w.connections, k);
    OutOfPlace(ForcedAll(w.sent), w.delivered, InFlight(w.connections[..k]), w.connections[k],
               InFlight(w.connections[k + 1..]));
  }

  lemma TurnExtends(w: Worker, t: Turn)
    ensures w.delivered <= TakeTurn(w, t).delivered && w.sent <= TakeTurn(w, t).sent
  {
  }

  // An order once broken is never mended.
  lemma OrderStaysBroken(w: Worker, w': Worker)
    requires w.delivered <= w'.delivered && w.sent <= w'.sent && |w.delivered| <= |w.sent|
    requires w'.delivered <= ForcedAll(w'.sent)
    ensures w.delivered <= ForcedAll(w.sent)
  {
    assert forall i :: 0 <= i < |w.delivered| ==> w.delivered[i] == w'.delivered[i] == Forced(w.sent[i]);
  }

  lemma DeliveredWithin(events: seq<Event>, turns: seq<Turn>)
    ensures |Work(events, turns).delivered| <= |Work(events, turns).sent|
  {
    var w := Work(events, turns);
    AnyScheduleConserves(events, turns);
    assert |multiset(w.delivered + InFlight(w.connections))| == |multiset(ForcedAll(w.sent))|;
  }

  // Under every schedule, whatever is dropped: events that all look different are passed on in the
  // order they were written if and only if no reader overtakes another.
  lemma {:induction false} OrderExactly(events: seq<Event>, turns: seq<Turn>)
    requires Distinct(ForcedAll(events))
    ensures Work(events, turns).delivered <= ForcedAll(Work(events, turns).sent)
       <==> NeverOvertakes(events, turns)
  {
    if NeverOvertakes(events, turns) {
      QueuedUnlessOvertaken(events, turns);
    } else {
      OrderExactly(events, Init(turns));
      if NeverOvertakes(events, Init(turns)) {
        var w := Work(events, Init(turns));
        QueuedUnlessOvertaken(events, Init(turns));
        SentDistinct(events, Init(turns));
        OvertakingShows(w, Last(turns));
      } else if Work(events, turns).delivered <= ForcedAll(Work(events, turns).sent) {
        TurnExtends(Work(events, Init(turns)), Last(turns));
        DeliveredWithin(events, Init(turns));
        OrderStaysBroken(Work(events, Init(turns)), Work(events, turns));
      }
    }
  }

  lemma SentDistinct(events: seq<Event>, turns: seq<Turn>)
    requires Distinct(ForcedAll(events))
    ensures Distinct(ForcedAll(Work(events, turns).sent))
  {
    var w := Work(events, turns);
    AnyScheduleConserves(events, turns);
    ForcedPart(Surviving(w), w.offered);
    DistinctStart(ForcedAll(w.offered), ForcedAll(events));
    DistinctPart(ForcedAll(Surviving(w)), ForcedAll(w.offered));
    DistinctStart(ForcedAll(w.sent), ForcedAll(Surviving(w)));
  }

  lemma DistinctStart(a: seq<Event>, b: seq<Event>)
    requires a <= b && Distinct(b)
    ensures Distinct(a)
  {
    assert forall i :: 0 <= i < |a| ==> a[i] == b[i];
  }

  // Once all is quiet: everything has arrived in order if nothing was dropped and nothing was
  // overtaken, and only then, provided no two events look the same.
  lemma EverythingExactly(events: seq<Event>, turns: seq<Turn>)
    requires Quiet(Work(events, turns))
    ensures NeverDrops(events, turns) && NeverOvertakes(events, turns) ==>
              Work(events, turns).delivered == ForcedAll(events)
    ensures Distinct(ForcedAll(events)) && Work(events, turns).delivered == ForcedAll(events) ==>
              NeverDrops(events, turns) && NeverOvertakes(events, turns)
  {
    var w := Work(events, turns);
    DropsExactly(events, turns);
    WhatSurvives(events, turns);
    AnyScheduleConserves(events, turns);
    assert w.delivered + InFlight(w.connections) == w.delivered;
    if NeverOvertakes(events, turns) {
      QueuedUnlessOvertaken(events, turns);
    }
    if Distinct(ForcedAll(events)) && w.delivered == ForcedAll(events) {
      assert |multiset(w.delivered)| == |multiset(ForcedAll(w.sent))|;
      OrderExactly(events, turns);
    }
  }
}

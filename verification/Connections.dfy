// The background worker's way to the program: a channel that drops what it cannot hold, a writer
// that dials a connection for every event, and a reader for every connection, in any order.
module Connections {
  import opened Words
  import opened Events
  import opened Signatures
  import opened Timeline
  import opened Scoring
  import opened Pipe

  const CHANNEL_SIZE := 20

  // The events still to come and those offered to the channel; the channel; the event the writer
  // holds; those it has written whole; how many were dropped on the way; what the reader of each
  // connection has yet to pass on; and what they have.
  datatype Worker = Worker(
    upcoming: seq<Event>, offered: seq<Event>, channel: seq<Event>, held: Option<Event>,
    sent: seq<Event>, lost: nat, connections: seq<seq<Event>>, delivered: seq<Event>)

  // A connection may be refused, and a write cut short; a reader passes on the whole events of
  // its connection, of which there is at most one.
  datatype Turn = Offer | Take | Send(dialed: bool, written: nat) | Handle(connection: nat)

  function Begin(events: seq<Event>): Worker { Worker(events, [], [], None, [], 0, [], []) }

  // What a connection's reader makes of the bytes of one event that were written to it.
  function Arrived(e: Event, written: nat): seq<Event> {
    if written < EVENT_SIZE then [] else [Forced(e)]
  }

  lemma ArrivedIsReceived(e: Event, written: nat)
    ensures Received(EncodeEvent(e)[..Min(written, EVENT_SIZE)]) == Arrived(e, written)
  {
    if written >= EVENT_SIZE {
      FirstEvent(e, []);
      assert EncodeEvent(e)[..EVENT_SIZE] == EncodeEvent(e) + [];
    }
  }

  // What becomes of the event the writer held.
  function Sending(w: Worker, e: Event, dialed: bool, written: nat): Worker {
    if !dialed then w.(held := None, lost := w.lost + 1)
    else
      var connections := w.connections + [Arrived(e, written)];
      if written < EVENT_SIZE then w.(held := None, lost := w.lost + 1, connections := connections)
      else w.(held := None, sent := w.sent + [e], connections := connections)
  }

  function TakeTurn(w: Worker, t: Turn): Worker {
    match t
    case Offer =>
      if w.upcoming == [] then w
      else
        var e := w.upcoming[0];
        var rest := w.(upcoming := w.upcoming[1..], offered := w.offered + [e]);
        if |w.channel| < CHANNEL_SIZE then rest.(channel := w.channel + [e]) else rest.(lost := w.lost + 1)
    case Take =>
      if w.held.Some? || w.channel == [] then w
      else w.(held := Some(w.channel[0]), channel := w.channel[1..])
    case Send(dialed, written) =>
      if w.held.None? then w else Sending(w, w.held.value, dialed, written)
    case Handle(k) =>
      if k >= |w.connections| then w
      else
        w.(connections := w.connections[k := []], delivered := w.delivered + w.connections[k])
  }

  function Work(events: seq<Event>, turns: seq<Turn>): Worker {
    if turns == [] then Begin(events) else TakeTurn(Work(events, Init(turns)), Last(turns))
  }

  // The events on their way through the connections.
  function InFlight(connections: seq<seq<Event>>): seq<Event> {
    if connections == [] then [] else InFlight(Init(connections)) + Last(connections)
  }

  predicate Subsequence(a: seq<Event>, b: seq<Event>) {
    a == [] ||
    (b != [] && ((Last(a) == Last(b) && Subsequence(Init(a), Init(b))) || Subsequence(a, Init(b))))
  }

  function Holding(held: Option<Event>): seq<Event> { if held.Some? then [held.value] else [] }

  // What has not been dropped, in the order it was offered.
  function Surviving(w: Worker): seq<Event> { w.sent + Holding(w.held) + w.channel }

  // No event is dropped but those counted, and none overtakes another on its way to the writer.
  predicate InOrder(events: seq<Event>, w: Worker) {
    && w.offered + w.upcoming == events
    && Subsequence(Surviving(w), w.offered)
    && |Surviving(w)| + w.lost == |w.offered|
  }

  // What was written whole has been passed on or is in flight, texts forced to four bytes.
  ghost predicate Conserved(w: Worker) {
    multiset(w.delivered + InFlight(w.connections)) == multiset(ForcedAll(w.sent))
  }

  lemma OfferInOrder(events: seq<Event>, w: Worker)
    requires InOrder(events, w)
    ensures InOrder(events, TakeTurn(w, Offer))
  {
    if w.upcoming != [] {
      var e := w.upcoming[0];
      OfferSurvives(Surviving(w), e, w.offered);
      Regrouped(w.offered, w.upcoming);
      LastOfThree(w.sent, Holding(w.held), w.channel, e);
    }
  }

  lemma Regrouped(a: seq<Event>, b: seq<Event>)
    requires b != []
    ensures a + [b[0]] + b[1..] == a + b
  {
    assert b == [b[0]] + b[1..];
  }

  lemma LastOfThree(a: seq<Event>, b: seq<Event>, c: seq<Event>, e: Event)
    ensures a + b + (c + [e]) == a + b + c + [e]
  {
  }

  lemma OfferSurvives(a: seq<Event>, e: Event, b: seq<Event>)
    requires Subsequence(a, b)
    ensures Subsequence(a + [e], b + [e]) && Subsequence(a, b + [e])
  {
    assert Init(a + [e]) == a && Init(b + [e]) == b;
  }

  lemma {:induction false} Dropped(s: seq<Event>, e: Event, t: seq<Event>, b: seq<Event>)
    requires Subsequence(s + [e] + t, b)
    ensures Subsequence(s + t, b)
    decreases |b|
  {
    var a := s + [e] + t;
    if Last(a) == Last(b) && Subsequence(Init(a), Init(b)) {
      if t == [] {
        assert Init(a) == s == s + t;
      } else {
        assert Init(a) == s + [e] + Init(t) && Init(s + t) == s + Init(t);
        Dropped(s, e, Init(t), Init(b));
      }
    } else {
      Dropped(s, e, t, Init(b));
    }
  }

  lemma TakeInOrder(events: seq<Event>, w: Worker)
    requires InOrder(events, w)
    ensures InOrder(events, TakeTurn(w, Take))
  {
    if w.held.None? && w.channel != [] {
      assert Surviving(TakeTurn(w, Take)) == Surviving(w);
    }
  }

  lemma OneConnection(connections: seq<seq<Event>>, arrived: seq<Event>)
    ensures InFlight(connections + [arrived]) == InFlight(connections) + arrived
  {
    assert Init(connections + [arrived]) == connections;
  }

  lemma SendInOrder(events: seq<Event>, w: Worker, e: Event, dialed: bool, written: nat)
    requires InOrder(events, w) && w.held == Some(e)
    ensures InOrder(events, Sending(w, e, dialed, written))
  {
    var w' := Sending(w, e, dialed, written);
    if dialed && written >= EVENT_SIZE {
      assert Surviving(w') == Surviving(w);
    } else {
      Dropped(w.sent, e, w.channel, w.offered);
      assert Surviving(w') == w.sent + w.channel;
    }
  }

  lemma SendConserved(w: Worker, e: Event, dialed: bool, written: nat)
    requires Conserved(w)
    ensures Conserved(Sending(w, e, dialed, written))
  {
    if dialed {
      var w', flying := Sending(w, e, dialed, written), InFlight(w.connections);
      OneConnection(w.connections, Arrived(e, written));
      if written < EVENT_SIZE {
        assert flying + [] == flying;
      } else {
        assert w.delivered + (flying + [Forced(e)]) == w.delivered + flying + [Forced(e)];
        assert ForcedAll(w.sent + [e]) == ForcedAll(w.sent) + [Forced(e)];
      }
    }
  }

  // Reading a connection takes exactly what it holds out of flight.
  lemma {:induction false} Landing(connections: seq<seq<Event>>, k: nat)
    requires k < |connections|
    ensures multiset(InFlight(connections))
         == multiset(InFlight(connections[k := []])) + multiset(connections[k])
  {
    var after := connections[k := []];
    if k == |connections| - 1 {
      assert Init(after) == Init(connections) && Last(after) == [];
      assert InFlight(after) == InFlight(Init(connections)) + [];
    } else {
      Landing(Init(connections), k);
      assert Init(after) == Init(connections)[k := []] && Last(after) == Last(connections);
      assert InFlight(after) == InFlight(Init(connections)[k := []]) + Last(connections);
    }
  }

  lemma HandleConserved(w: Worker, k: nat)
    requires Conserved(w)
    ensures Conserved(TakeTurn(w, Handle(k)))
  {
    if k < |w.connections| {
      Landing(w.connections, k);
    }
  }

  lemma TurnConserves(events: seq<Event>, w: Worker, t: Turn)
    requires InOrder(events, w) && Conserved(w)
    ensures InOrder(events, TakeTurn(w, t)) && Conserved(TakeTurn(w, t))
  {
    match t
    case Offer => OfferInOrder(events, w);
    case Take => TakeInOrder(events, w);
    case Send(dialed, written) =>
      if w.held.Some? {
        SendInOrder(events, w, w.held.value, dialed, written);
        SendConserved(w, w.held.value, dialed, written);
      }
    case Handle(k) => HandleConserved(w, k);
  }

  // Under every schedule, whatever is refused or cut short: what got through is a subsequence of
  // what was offered, short of exactly the drops; and what the readers have passed on, with what
  // is still in flight, is a permutation of it, texts forced to four bytes.
  lemma {:induction false} AnyScheduleConserves(events: seq<Event>, turns: seq<Turn>)
    ensures InOrder(events, Work(events, turns)) && Conserved(Work(events, turns))
  {
    if turns != [] {
      AnyScheduleConserves(events, Init(turns));
      TurnConserves(events, Work(events, Init(turns)), Last(turns));
    }
  }

  // Nothing is left to offer, to write or to read.
  ghost predicate Quiet(w: Worker) {
    w.upcoming == [] && w.channel == [] && w.held.None? && InFlight(w.connections) == []
  }

  lemma {:induction false} SubsequenceLength(a: seq<Event>, b: seq<Event>)
    requires Subsequence(a, b)
    ensures |a| <= |b| && (|a| == |b| ==> a == b)
  {
    if a != [] {
      if Last(a) == Last(b) && Subsequence(Init(a), Init(b)) {
        SubsequenceLength(Init(a), Init(b));
        assert a == Init(a) + [Last(a)] && b == Init(b) + [Last(b)];
      } else {
        SubsequenceLength(a, Init(b));
      }
    }
  }

  lemma {:induction false} SubsequenceMembers(a: seq<Event>, b: seq<Event>)
    requires Subsequence(a, b)
    ensures forall e :: e in a ==> e in b
  {
    if a != [] {
      if Last(a) == Last(b) && Subsequence(Init(a), Init(b)) {
        SubsequenceMembers(Init(a), Init(b));
        assert a == Init(a) + [Last(a)];
      } else {
        SubsequenceMembers(a, Init(b));
      }
    }
  }

  lemma {:induction false} SubsequenceWeight(a: seq<Event>, b: seq<Event>)
    requires Subsequence(a, b)
    ensures Weight(a) <= Weight(b)
  {
    if a != [] {
      if Last(a) == Last(b) && Subsequence(Init(a), Init(b)) {
        SubsequenceWeight(Init(a), Init(b));
      } else {
        SubsequenceWeight(a, Init(b));
      }
    }
  }

  lemma {:induction false} ForcedScores(events: seq<Event>)
    ensures Score(ForcedAll(events)) == Score(events) && Weight(ForcedAll(events)) == Weight(events)
  {
    if events != [] {
      ForcedScores(Init(events));
      assert Init(ForcedAll(events)) == ForcedAll(Init(events));
    }
  }

  // An offer to a full channel, or a held event whose connection is refused or written short.
  predicate Drops(w: Worker, t: Turn) {
    match t
    case Offer => w.upcoming != [] && |w.channel| >= CHANNEL_SIZE
    case Send(dialed, written) => w.held.Some? && (!dialed || written < EVENT_SIZE)
    case Take => false
    case Handle(_) => false
  }

  predicate NeverDrops(events: seq<Event>, turns: seq<Turn>) {
    turns == [] || (NeverDrops(events, Init(turns)) && !Drops(Work(events, Init(turns)), Last(turns)))
  }

  lemma {:induction false} DropsExactly(events: seq<Event>, turns: seq<Turn>)
    ensures Work(events, turns).lost == 0 <==> NeverDrops(events, turns)
  {
    if turns != [] {
      DropsExactly(events, Init(turns));
    }
  }

  // The channel holds twenty: of n events offered in a row, those past the twentieth are dropped.
  lemma {:induction false} TwentyHeld(events: seq<Event>, n: nat)
    requires n <= |events|
    ensures var w := Work(events, seq(n, _ => Offer));
            && w.upcoming == events[n..]
            && w.channel == events[..Min(n, 20)]
            && w.lost == Max(0, n - 20)
  {
    if n == 0 {
      assert seq(0, _ => Offer) == [];
      assert events[0..] == events;
    } else {
      TwentyHeld(events, n - 1);
      var turns: seq<Turn> := seq(n - 1, _ => Offer);
      assert seq(n, _ => Offer) == turns + [Offer];
      OneMore(events, turns, Offer);
      assert events[n - 1..][1..] == events[n..];
      assert n <= 20 ==> events[..n - 1] + [events[n - 1]] == events[..n];
    }
  }

  // Once all is quiet: a window that receives these events has its paste bit exactly when a paste
  // got through, and counts what got through, in whatever order it came; that is everything
  // exactly when nothing was dropped.
  lemma WhatSurvives(events: seq<Event>, turns: seq<Turn>)
    requires Quiet(Work(events, turns))
    ensures var w := Work(events, turns);
            && Subsequence(w.sent, events) && |w.sent| + w.lost == |events|
            && (w.sent == events <==> NeverDrops(events, turns))
            && Pasted(Score(w.delivered)) == Pasted(Score(w.sent))
            && Weight(w.delivered) == Weight(w.sent) <= Weight(events)
            && (Weight(w.sent) <= MAX_COUNT ==> Score(w.delivered) == Score(w.sent))
            && (Pasted(Score(w.delivered)) ==> Pasted(Score(events)))
  {
    var w := Work(events, turns);
    AnyScheduleConserves(events, turns);
    assert Surviving(w) == w.sent && w.offered == events;
    assert w.delivered + InFlight(w.connections) == w.delivered;
    DropsExactly(events, turns);
    SubsequenceLength(w.sent, events);
    SubsequenceMembers(w.sent, events);
    SubsequenceWeight(w.sent, events);
    ForcedScores(w.sent);
    OrderIrrelevant(w.delivered, ForcedAll(w.sent));
    ScorePasted(w.sent);
    ScorePasted(events);
  }

  // At any moment, whenever the readers' events are written to a signature, its counts never
  // exceed what was offered.
  lemma NothingInvented(events: seq<Event>, turns: seq<Turn>, start: int64, ticks: seq<Tick>, limit: Limit)
    requires EventsOf(ticks) == Work(events, turns).delivered
    ensures TotalCount(Windows(start, ticks, limit)) <= Weight(Work(events, turns).offered)
  {
    var w := Work(events, turns);
    AnyScheduleConserves(events, turns);
    Conservation(start, ticks, limit);
    WeightConcat(w.delivered, InFlight(w.connections));
    WeightOfPermutation(w.delivered + InFlight(w.connections), ForcedAll(w.sent));
    ForcedScores(w.sent);
    WeightConcat(w.sent, Holding(w.held));
    WeightConcat(w.sent + Holding(w.held), w.channel);
    SubsequenceWeight(Surviving(w), w.offered);
  }

  // The writer gets the next event through whole.
  const Through: seq<Turn> := [Offer, Take, Send(true, EVENT_SIZE)]

  function OneThrough(w: Worker): Worker {
    TakeTurn(TakeTurn(TakeTurn(w, Offer), Take), Send(true, EVENT_SIZE))
  }

  lemma SentThrough(w: Worker, e: Event)
    requires w.upcoming != [] && w.upcoming[0] == e && w.channel == [] && w.held.None?
    ensures OneThrough(w)
         == w.(upcoming := w.upcoming[1..], offered := w.offered + [e], sent := w.sent + [e],
               connections := w.connections + [[Forced(e)]])
  {
    var offered := TakeTurn(w, Offer);
    assert offered.channel == [e];
    var taken := TakeTurn(offered, Take);
    assert taken.held == Some(e) && taken.channel == [];
  }

  lemma {:induction false} WorkThrough(events: seq<Event>, turns: seq<Turn>)
    ensures Work(events, turns + Through) == OneThrough(Work(events, turns))
  {
    OneMore(events, turns, Offer);
    OneMore(events, turns + [Offer], Take);
    OneMore(events, turns + [Offer] + [Take], Send(true, EVENT_SIZE));
    assert turns + [Offer] + [Take] + [Send(true, EVENT_SIZE)] == turns + Through;
  }

  lemma OneMore(events: seq<Event>, turns: seq<Turn>, t: Turn)
    ensures Work(events, turns + [t]) == TakeTurn(Work(events, turns), t)
  {
    assert Init(turns + [t]) == turns;
  }

  lemma FirstSent(a: Event, b: Event)
    ensures Work([a, b], [] + Through) == Worker([b], [a], [], None, [a], 0, [[Forced(a)]], [])
  {
    WorkThrough([a, b], []);
    SentThrough(Begin([a, b]), a);
  }

  lemma SecondSent(a: Event, b: Event, turns: seq<Turn>)
    requires Work([a, b], turns) == Worker([b], [a], [], None, [a], 0, [[Forced(a)]], [])
    ensures Work([a, b], turns + Through)
         == Worker([], [a, b], [], None, [a, b], 0, [[Forced(a)], [Forced(b)]], [])
  {
    WorkThrough([a, b], turns);
    SentThrough(Work([a, b], turns), b);
  }

  // Nothing needs to be dropped for two events to come out of order.
  lemma OrderCanChange(a: Event, b: Event) returns (turns: seq<Turn>)
    ensures var w := Work([a, b], turns);
            Quiet(w) && w.lost == 0 && w.delivered == [Forced(b), Forced(a)]
  {
    FirstSent(a, b);
    SecondSent(a, b, [] + Through);
    turns := [] + Through + Through;
    var w := Work([a, b], turns);
    OneMore([a, b], turns, Handle(1));
    OneMore([a, b], turns + [Handle(1)], Handle(0));
    turns := turns + [Handle(1)] + [Handle(0)];
    ReadTwo(w, [Forced(a)], [Forced(b)]);
  }

  lemma ReadTwo(w: Worker, x: seq<Event>, y: seq<Event>)
    requires w.connections == [x, y] && w.delivered == []
    ensures TakeTurn(TakeTurn(w, Handle(1)), Handle(0)) == w.(connections := [[], []], delivered := y + x)
    ensures InFlight([[], []]) == []
  {
    var between := TakeTurn(w, Handle(1));
    assert between.connections == [x, []] && between.delivered == y;
    var read: seq<seq<Event>> := [[], []];
    assert Init(read) == [[]] && Init(Init(read)) == [];
    assert InFlight(Init(Init(read))) == [] && InFlight(Init(read)) == [];
  }
}

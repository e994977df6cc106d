// Conservation: over a whole run the recorded counts add up to the events written, unless some
// window saturates.
module Scoring {
  import opened Words
  import opened Events
  import opened Signatures
  import opened Timeline
  import GapCode

  function TotalCount(windows: seq<byte>): nat {
    if windows == [] then 0 else TotalCount(Init(windows)) + Count(Last(windows))
  }

  function EventsOf(ticks: seq<Tick>): seq<Event> {
    if ticks == [] then [] else EventsOf(Init(ticks)) + [Last(ticks).event]
  }

  // The events of the first n windows.
  function Contents(start: int64, ticks: seq<Tick>, limit: Limit, n: nat): (c: seq<seq<Event>>)
    ensures |c| == n
  {
    seq(n, i requires 0 <= i < n => Landed(start, ticks, limit, i))
  }

  function TotalWeight(contents: seq<seq<Event>>): nat {
    if contents == [] then 0 else TotalWeight(Init(contents)) + Weight(Last(contents))
  }

  // No window receives more than its counter can hold.
  ghost predicate Unsaturated(contents: seq<seq<Event>>) {
    forall i :: 0 <= i < |contents| ==> Weight(contents[i]) <= MAX_COUNT
  }

  ghost predicate RunUnsaturated(start: int64, ticks: seq<Tick>, limit: Limit) {
    Unsaturated(Contents(start, ticks, limit, Slot(start, ticks, limit) + 1))
  }

  lemma WeightAppend(events: seq<Event>, e: Event)
    ensures Weight(events + [e]) == Weight(events) + EventWeight(e)
  {
    assert (events + [e])[..|events|] == events;
  }

  lemma LandedStep(start: int64, ticks: seq<Tick>, limit: Limit, i: nat)
    requires ticks != []
    ensures Weight(Landed(start, ticks, limit, i))
         == Weight(Landed(start, Init(ticks), limit, i))
          + if Slot(start, ticks, limit) == i then EventWeight(Last(ticks).event) else 0
  {
    var before := Landed(start, Init(ticks), limit, i);
    WeightAppend(before, Last(ticks).event);
    assert before + [] == before;
  }

  lemma TotalWeightStep(start: int64, ticks: seq<Tick>, limit: Limit, n: nat)
    requires n > 0
    ensures TotalWeight(Contents(start, ticks, limit, n))
         == TotalWeight(Contents(start, ticks, limit, n - 1)) + Weight(Landed(start, ticks, limit, n - 1))
  {
    assert Init(Contents(start, ticks, limit, n)) == Contents(start, ticks, limit, n - 1);
  }

  lemma {:induction false} OneMoreEvent(start: int64, ticks: seq<Tick>, limit: Limit, n: nat)
    requires ticks != []
    ensures TotalWeight(Contents(start, ticks, limit, n))
         == TotalWeight(Contents(start, Init(ticks), limit, n))
          + if Slot(start, ticks, limit) < n then EventWeight(Last(ticks).event) else 0
  {
    if n > 0 {
      OneMoreEvent(start, ticks, limit, n - 1);
      LandedStep(start, ticks, limit, n - 1);
      TotalWeightStep(start, ticks, limit, n);
      TotalWeightStep(start, Init(ticks), limit, n);
    }
  }

  lemma {:induction false} NothingWritten(start: int64, limit: Limit, n: nat)
    ensures TotalWeight(Contents(start, [], limit, n)) == 0
  {
    if n > 0 {
      NothingWritten(start, limit, n - 1);
      TotalWeightStep(start, [], limit, n);
    }
  }

  // Every event lands in exactly one window.
  lemma {:induction false} EveryEventLandsOnce(start: int64, ticks: seq<Tick>, limit: Limit, n: nat)
    requires n > Slot(start, ticks, limit)
    ensures TotalWeight(Contents(start, ticks, limit, n)) == Weight(EventsOf(ticks))
  {
    if ticks == [] {
      NothingWritten(start, limit, n);
    } else {
      EveryEventLandsOnce(start, Init(ticks), limit, n);
      OneMoreEvent(start, ticks, limit, n);
      WeightAppend(EventsOf(Init(ticks)), Last(ticks).event);
    }
  }

  lemma CountAgainstWeight(events: seq<Event>)
    ensures Count(Score(events)) <= Weight(events)
    ensures Count(Score(events)) == Weight(events) <==> Weight(events) <= MAX_COUNT
  {
    ScoreCounts(events);
  }

  lemma {:induction false} CountsAgainstWeights(w: seq<byte>, contents: seq<seq<Event>>)
    requires |w| == |contents| && forall i :: 0 <= i < |w| ==> w[i] == Score(contents[i])
    ensures TotalCount(w) <= TotalWeight(contents)
    ensures TotalCount(w) == TotalWeight(contents) <==> Unsaturated(contents)
  {
    if w != [] {
      CountsAgainstWeights(Init(w), Init(contents));
      CountAgainstWeight(Last(contents));
      assert Unsaturated(contents) <==> Unsaturated(Init(contents)) && Weight(Last(contents)) <= MAX_COUNT;
    }
  }

  // The counts never exceed keys plus twice the mouse releases, and reach that sum exactly when
  // no window saturates.
  lemma Conservation(start: int64, ticks: seq<Tick>, limit: Limit)
    ensures TotalCount(Windows(start, ticks, limit)) <= Weight(EventsOf(ticks))
    ensures TotalCount(Windows(start, ticks, limit)) == Weight(EventsOf(ticks))
       <==> RunUnsaturated(start, ticks, limit)
  {
    var n := Slot(start, ticks, limit) + 1;
    EveryEventLandsOnce(start, ticks, limit, n);
    CountsAgainstWeights(Windows(start, ticks, limit), Contents(start, ticks, limit, n));
  }

  lemma {:induction false} TotalAppend(a: seq<byte>, b: seq<byte>)
    ensures TotalCount(a + b) == TotalCount(a) + TotalCount(b)
  {
    if b == [] {
      assert a + b == a;
    } else {
      TotalAppend(a, Init(b));
      assert Init(a + b) == a + Init(b);
    }
  }

  lemma {:induction false} TotalOfZeros(n: nat)
    ensures TotalCount(Zeros(n)) == 0
  {
    if n > 0 {
      TotalOfZeros(n - 1);
      assert Init(Zeros(n)) == Zeros(n - 1);
    }
  }

  lemma TotalOfBump(t: seq<byte>, gap: nat, e: Event)
    requires t != []
    ensures var b := Bump(t + Zeros(gap), e);
            var from := if gap == 0 then Last(t) else 0;
            && Last(b) == ApplyEvent(from, e)
            && TotalCount(b) == TotalCount(t) - Count(from) + Count(ApplyEvent(from, e))
  {
    var s: seq<byte> := t + Zeros(gap);
    TotalAppend(t, Zeros(gap));
    TotalOfZeros(gap);
    assert Init(Bump(s, e)) == Init(s);
  }

  // Shortening silences, as version 1 does, leaves the total alone.
  lemma {:induction false} LimitKeepsTotal(start: int64, ticks: seq<Tick>, n: nat)
    requires n > 0
    ensures TotalCount(Windows(start, ticks, AtMost(n))) == TotalCount(Windows(start, ticks, Unlimited))
    ensures Last(Windows(start, ticks, AtMost(n))) == Last(Windows(start, ticks, Unlimited))
  {
    var l := AtMost(n);
    if ticks == [] {
      assert Windows(start, ticks, l) == Windows(start, ticks, Unlimited);
    } else {
      var init, e, jump := Init(ticks), Last(ticks).event, LastJump(start, ticks);
      LimitKeepsTotal(start, init, n);
      WindowsStep(start, ticks, l);
      WindowsStep(start, ticks, Unlimited);
      TotalOfBump(Windows(start, init, l), Advance(l, jump), e);
      TotalOfBump(Windows(start, init, Unlimited), jump, e);
    }
  }

  // Over any run, both recorders account for the same total, which is everything written
  // exactly when no window saturates.
  lemma RunConservation(start: int64, ticks: seq<Tick>)
    requires Writable(start, ticks)
    ensures var v0, v1 := Run(Fresh(VERSION0, start), ticks).data, Run(Fresh(VERSION1, start), ticks).data;
            && GapCode.Decode(v1).Some?
            && TotalCount(v0) == TotalCount(GapCode.Decode(v1).value) <= Weight(EventsOf(ticks))
            && (TotalCount(v0) == Weight(EventsOf(ticks)) <==> RunUnsaturated(start, ticks, Unlimited))
  {
    Version0Meaning(start, ticks);
    Version1Decodes(start, ticks);
    Conservation(start, ticks, Unlimited);
    LimitKeepsTotal(start, ticks, 255);
  }

  // Within one window the order of the events cannot matter to what was pasted or, short of
  // saturation, to the byte.
  lemma OrderIrrelevant(a: seq<Event>, b: seq<Event>)
    requires multiset(a) == multiset(b)
    ensures Weight(a) == Weight(b) && Pasted(Score(a)) == Pasted(Score(b))
    ensures Weight(a) <= MAX_COUNT ==> Score(a) == Score(b)
  {
    WeightOfPermutation(a, b);
    PastePermutes(a, b);
    PastePermutes(b, a);
    ScoreCounts(a);
    ScoreCounts(b);
    SameParts(Score(a), Score(b));
  }

  lemma SameParts(x: byte, y: byte)
    ensures Count(x) == Count(y) && Pasted(x) == Pasted(y) ==> x == y
  {
  }

  lemma PastePermutes(a: seq<Event>, b: seq<Event>)
    requires multiset(a) == multiset(b)
    ensures Pasted(Score(a)) ==> Pasted(Score(b))
  {
    ScorePasted(a);
    ScorePasted(b);
    if Pasted(Score(a)) {
      var e :| e in a && IsPaste(e);
      assert e in multiset(a);
      assert e in b;
    }
  }

  lemma Locate(e: Event, b: seq<Event>) returns (p: seq<Event>, q: seq<Event>)
    requires e in b
    ensures b == p + [e] + q
  {
    var i :| 0 <= i < |b| && b[i] == e;
    p, q := b[..i], b[i + 1..];
  }

  lemma Extract(a: seq<Event>, e: Event, b: seq<Event>) returns (p: seq<Event>, q: seq<Event>)
    requires multiset(a + [e]) == multiset(b)
    ensures b == p + [e] + q && multiset(a) == multiset(p + q)
  {
    assert e in multiset(b);
    p, q := Locate(e, b);
    InsertMultiset(a, e, []);
    InsertMultiset(p, e, q);
    assert a + [] == a && a + [e] + [] == a + [e];
  }

  lemma InsertMultiset(p: seq<Event>, e: Event, q: seq<Event>)
    ensures multiset(p + q) == multiset(p + [e] + q) - multiset{e}
  {
  }

  lemma {:induction false} WeightOfPermutation(a: seq<Event>, b: seq<Event>)
    requires multiset(a) == multiset(b)
    ensures Weight(a) == Weight(b)
    decreases |a|
  {
    if a == [] {
      assert |multiset(b)| == |b|;
    } else {
      var e := Last(a);
      assert a == Init(a) + [e];
      var p, q := Extract(Init(a), e, b);
      WeightOfPermutation(Init(a), p + q);
      WeightInsert(p, e, q);
      WeightAppend(Init(a), e);
    }
  }

  lemma WeightInsert(a: seq<Event>, e: Event, b: seq<Event>)
    ensures Weight(a + [e] + b) == Weight(a + b) + EventWeight(e)
  {
    WeightConcat(a + [e], b);
    WeightAppend(a, e);
    WeightConcat(a, b);
  }

  lemma {:induction false} WeightConcat(a: seq<Event>, b: seq<Event>)
    ensures Weight(a + b) == Weight(a) + Weight(b)
  {
    if b == [] {
      assert a + b == a;
    } else {
      WeightConcat(a, Init(b));
      assert Init(a + b) == a + Init(b);
    }
  }
}

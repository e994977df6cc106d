// The two events a signature records and the byte that scores one four-second window.
module Events {
  import opened Words

  const CODE_V: uint32 := 25
  const PASTED_BIT: byte := 128
  const MAX_COUNT: byte := 127

  datatype Event =
    | KeyDown(text: Text, key: uint32, control: bool, special: bool, shift: bool)
    | MouseUp

  predicate IsPaste(e: Event) { e.KeyDown? && (e.special || e.control) && e.key == CODE_V }

  function ApplyEvent(b: byte, e: Event): byte {
    match e
    case KeyDown(_, _, _, _, _) => ApplyKeyDown(b, e)
    case MouseUp => ApplyMouseUp(b)
  }

  function ApplyKeyDown(b: byte, e: Event): byte
    requires e.KeyDown?
  {
    if IsPaste(e) then if b < PASTED_BIT then b + PASTED_BIT else b
    else if b == MAX_COUNT || b == MAX_COUNT + PASTED_BIT then b
    else b + 1
  }

  function ApplyMouseUp(b: byte): byte {
    if b == MAX_COUNT || b == MAX_COUNT - 1
       || b == MAX_COUNT + PASTED_BIT || b == MAX_COUNT + PASTED_BIT - 1 then b
    else b + 2
  }

  // The byte of a window that received exactly these events, in this order.
  function Score(events: seq<Event>): byte {
    if events == [] then 0
    else ApplyEvent(Score(events[..|events| - 1]), events[|events| - 1])
  }

  predicate Pasted(b: byte) { b >= PASTED_BIT }

  function Count(b: byte): nat { b % PASTED_BIT }

  // What the events would count without saturation: one a key, two a mouse release.
  function Weight(events: seq<Event>): nat {
    if events == [] then 0
    else Weight(events[..|events| - 1]) + EventWeight(events[|events| - 1])
  }

  function EventWeight(e: Event): nat {
    if e.MouseUp? then 2 else if IsPaste(e) then 0 else 1
  }

  lemma ApplyEventNonzero(b: byte, e: Event)
    ensures ApplyEvent(b, e) != 0
  {
  }

  // One event sets the paste bit or advances the counter, and never carries from one into
  // the other.
  lemma ApplyEventMeaning(b: byte, e: Event)
    ensures Pasted(ApplyEvent(b, e)) == (Pasted(b) || IsPaste(e))
    ensures Count(ApplyEvent(b, e))
         == if Count(b) + EventWeight(e) <= MAX_COUNT then Count(b) + EventWeight(e) else Count(b)
  {
    assert if b < PASTED_BIT then Count(b) == b else Count(b) == b - PASTED_BIT;
  }

  // Scoring is independent of the order of the events: the paste bit says whether any of them
  // was a paste, and the count is their weight until the counter saturates.
  lemma {:induction false} ScorePasted(events: seq<Event>)
    ensures Pasted(Score(events)) <==> exists e :: e in events && IsPaste(e)
  {
    if events != [] {
      var init, last := events[..|events| - 1], events[|events| - 1];
      ScorePasted(init);
      ApplyEventMeaning(Score(init), last);
      assert events == init + [last];
      if e :| e in events && IsPaste(e) {
        assert e == last || e in init;
      }
    }
  }

  lemma {:induction false} ScoreCounts(events: seq<Event>)
    ensures Weight(events) <= MAX_COUNT ==> Count(Score(events)) == Weight(events)
    ensures Weight(events) > MAX_COUNT ==> MAX_COUNT - 1 <= Count(Score(events)) <= MAX_COUNT
  {
    if events != [] {
      ScoreCounts(events[..|events| - 1]);
      ApplyEventMeaning(Score(events[..|events| - 1]), events[|events| - 1]);
    }
  }

  // ----- In plain numbers -----

  // A V (25) with control or meta.
  predicate Pastes(e: Event) { e.KeyDown? && e.key == 25 && (e.control || e.special) }

  ghost function Keys(events: seq<Event>): set<nat> {
    set i: nat | i < |events| && events[i].KeyDown? && !Pastes(events[i])
  }

  ghost function Clicks(events: seq<Event>): set<nat> {
    set i: nat | i < |events| && events[i].MouseUp?
  }

  lemma OneMore(before: set<nat>, after: set<nat>, n: nat, more: bool)
    requires n !in before && forall k: nat :: k in after <==> k in before || (k == n && more)
    ensures |after| == |before| + if more then 1 else 0
  {
    if more {
      assert after == before + {n};
    } else {
      assert after == before;
    }
  }

  lemma {:induction false} WeightCounts(events: seq<Event>)
    ensures Weight(events) == |Keys(events)| + 2 * |Clicks(events)|
  {
    if events == [] {
      assert Keys(events) == {} && Clicks(events) == {};
    } else {
      var n := |events| - 1;
      var init, last := events[..n], events[n];
      WeightCounts(init);
      OneMore(Keys(init), Keys(events), n, last.KeyDown? && !Pastes(last));
      OneMore(Clicks(init), Clicks(events), n, last.MouseUp?);
    }
  }

  // The high bit of a window's byte says whether a paste is among its events; the low seven bits
  // count its other keys and twice its mouse releases, up to 127; past that they read 126 or 127.
  lemma ScoreInNumbers(events: seq<Event>)
    ensures Score(events) >= 128 <==> exists i :: 0 <= i < |events| && Pastes(events[i])
    ensures var n := |Keys(events)| + 2 * |Clicks(events)|;
            && (n <= 127 ==> Score(events) % 128 == n)
            && (n > 127 ==> 126 <= Score(events) % 128 <= 127)
  {
    ScorePasted(events);
    ScoreCounts(events);
    WeightCounts(events);
    if i :| 0 <= i < |events| && Pastes(events[i]) {
      assert events[i] in events && IsPaste(events[i]);
    }
  }
}

// What a signature means: for every window since the start, the score of exactly the events that
// landed in it. Both recorders are proved against this timeline, and version 1 against version 0.
module Timeline {
  import opened Words
  import opened Events
  import opened Signatures
  import GapCode

  // A recorder may shorten long silences.
  datatype Limit = Unlimited | AtMost(windows: nat)

  function Advance(limit: Limit, jump: nat): nat {
    match limit
    case Unlimited => jump
    case AtMost(n) => Min(jump, n)
  }

  function Init<T>(s: seq<T>): seq<T>
    requires s != []
  {
    s[..|s| - 1]
  }

  function Last<T>(s: seq<T>): T
    requires s != []
  {
    s[|s| - 1]
  }

  // The reading of the clock that opened the current window: the clock may go back, this never
  // does.
  function High(start: int64, ticks: seq<Tick>): int64 {
    if ticks == [] then start else Later(High(start, Init(ticks)), Last(ticks).now)
  }

  // The jump made by the last tick.
  function LastJump(start: int64, ticks: seq<Tick>): nat
    requires ticks != []
  {
    Jump(High(start, Init(ticks)), Last(ticks).now)
  }

  // The index of the window that the last tick landed in.
  function Slot(start: int64, ticks: seq<Tick>, limit: Limit): nat {
    if ticks == [] then 0
    else Slot(start, Init(ticks), limit) + Advance(limit, LastJump(start, ticks))
  }

  // The events that landed in window i, in the order they were written.
  function Landed(start: int64, ticks: seq<Tick>, limit: Limit, i: nat): seq<Event> {
    if ticks == [] then []
    else
      Landed(start, Init(ticks), limit, i)
      + if Slot(start, ticks, limit) == i then [Last(ticks).event] else []
  }

  function Windows(start: int64, ticks: seq<Tick>, limit: Limit): (w: seq<byte>)
    ensures |w| == Slot(start, ticks, limit) + 1
  {
    seq(Slot(start, ticks, limit) + 1,
        i requires 0 <= i <= Slot(start, ticks, limit) => Score(Landed(start, ticks, limit, i)))
  }

  predicate JumpsWithin(start: int64, ticks: seq<Tick>, n: nat) {
    ticks == [] || (JumpsWithin(start, Init(ticks), n) && LastJump(start, ticks) <= n)
  }

  lemma {:induction false} NothingLandsAhead(start: int64, ticks: seq<Tick>, limit: Limit, i: nat)
    requires i > Slot(start, ticks, limit)
    ensures Landed(start, ticks, limit, i) == []
  {
    if ticks != [] {
      NothingLandsAhead(start, Init(ticks), limit, i);
    }
  }

  lemma ScoreStep(start: int64, ticks: seq<Tick>, limit: Limit, i: nat)
    requires ticks != []
    ensures Score(Landed(start, ticks, limit, i))
         == var before := Score(Landed(start, Init(ticks), limit, i));
            if i == Slot(start, ticks, limit) then ApplyEvent(before, Last(ticks).event) else before
  {
    var landed, e := Landed(start, Init(ticks), limit, i), Last(ticks).event;
    assert landed + [] == landed;
    assert Init(landed + [e]) == landed;
  }

  // One more tick opens the windows it jumped over and scores its event in the last one.
  lemma WindowsStep(start: int64, ticks: seq<Tick>, limit: Limit)
    requires ticks != []
    ensures Windows(start, ticks, limit)
         == Bump(Windows(start, Init(ticks), limit) + Zeros(Advance(limit, LastJump(start, ticks))),
                 Last(ticks).event)
  {
    var before, after := Windows(start, Init(ticks), limit), Windows(start, ticks, limit);
    var grown: seq<byte> := before + Zeros(Advance(limit, LastJump(start, ticks)));
    forall i | 0 <= i < |after|
      ensures after[i] == Bump(grown, Last(ticks).event)[i]
    {
      ScoreStep(start, ticks, limit, i);
      if i >= |before| {
        NothingLandsAhead(start, Init(ticks), limit, i);
      }
    }
  }

  // Without a limit the slot is the distance, in windows, of the highest clock reading.
  lemma {:induction false} SlotIsClockWindow(start: int64, ticks: seq<Tick>)
    ensures Slot(start, ticks, Unlimited) == Window(High(start, ticks)) - Window(start)
    ensures Window(start) <= Window(High(start, ticks))
    ensures forall t :: t in ticks ==> Window(t.now) <= Window(High(start, ticks))
    ensures High(start, ticks) == start || exists t :: t in ticks && t.now == High(start, ticks)
  {
    if ticks != [] {
      SlotIsClockWindow(start, Init(ticks));
      assert ticks == Init(ticks) + [Last(ticks)];
    }
  }

  // No write of the run meets a current second of zero, which would mark the signature as not
  // writable: neither the start nor a reading that opened a window is zero while more follows.
  predicate Writable(start: int64, ticks: seq<Tick>) {
    ticks == [] || (Writable(start, Init(ticks)) && High(start, Init(ticks)) != 0)
  }

  // The writes before the first one that is refused.
  function Accepted(start: int64, ticks: seq<Tick>): (a: seq<Tick>)
    ensures |a| <= |ticks| && a == ticks[..|a|]
    ensures Writable(start, a)
    ensures a == ticks <==> Writable(start, ticks)
    ensures a != ticks ==> High(start, a) == 0
  {
    if ticks == [] then []
    else
      var a := Accepted(start, Init(ticks));
      if a == Init(ticks) && High(start, a) != 0 then ticks else a
  }

  // Whatever the start and the clock, a run is that of its accepted writes; all others are
  // refused and change nothing.
  lemma {:induction false} RefusedFromZeroOn(version: uint64, start: int64, ticks: seq<Tick>)
    requires version == VERSION0 || version == VERSION1
    ensures var a := Accepted(start, ticks);
            && Run(Fresh(version, start), ticks) == Run(Fresh(version, start), a)
            && Run(Fresh(version, start), a).version == version
            && Run(Fresh(version, start), a).current == High(start, a)
  {
    if ticks != [] {
      RefusedFromZeroOn(version, start, Init(ticks));
    }
  }

  // A signature started at second zero, whatever its version, never accepts a write.
  lemma {:induction false} ZeroStartRefuses(version: uint64, ticks: seq<Tick>)
    ensures Run(Fresh(version, 0), ticks) == Fresh(version, 0)
    ensures WriteFailure(Run(Fresh(version, 0), ticks)) == Some(UnwritableSignature)
  {
    if ticks != [] {
      ZeroStartRefuses(version, Init(ticks));
    }
  }

  // A positive start is never undone by the clock.
  lemma {:induction false} PositiveWritable(start: int64, ticks: seq<Tick>)
    requires start > 0
    ensures Writable(start, ticks) && High(start, ticks) > 0
  {
    if ticks != [] {
      PositiveWritable(start, Init(ticks));
    }
  }

  // Version 0 records the timeline itself.
  lemma {:induction false} Version0Meaning(start: int64, ticks: seq<Tick>)
    requires Writable(start, ticks)
    ensures Run(Fresh(VERSION0, start), ticks)
         == Sig(VERSION0, start, High(start, ticks), Windows(start, ticks, Unlimited))
  {
    if ticks == [] {
      assert Windows(start, ticks, Unlimited) == [0];
    } else {
      Version0Meaning(start, Init(ticks));
      WindowsStep(start, ticks, Unlimited);
    }
  }

  lemma {:induction false} WritablePrefix(start: int64, ticks: seq<Tick>, k: nat)
    requires Writable(start, ticks) && k <= |ticks|
    ensures Writable(start, ticks[..k])
    decreases |ticks|
  {
    if k == |ticks| {
      assert ticks[..k] == ticks;
    } else {
      WritablePrefix(start, Init(ticks), k);
      assert Init(ticks)[..k] == ticks[..k];
    }
  }

  // A window is final once a later one has been opened.
  lemma {:induction false} Version0Final(start: int64, ticks: seq<Tick>, k: nat)
    requires Writable(start, ticks) && k <= |ticks|
    ensures Init(Run(Fresh(VERSION0, start), ticks[..k]).data)
         <= Run(Fresh(VERSION0, start), ticks).data
    decreases |ticks|
  {
    if k == |ticks| {
      assert ticks[..k] == ticks;
    } else {
      Version0Final(start, Init(ticks), k);
      assert Init(ticks)[..k] == ticks[..k];
      WritablePrefix(start, ticks, k);
      Version0Meaning(start, ticks[..k]);
      Version0Meaning(start, Init(ticks));
      Version0Meaning(start, ticks);
      FinalStep(start, ticks, Windows(start, ticks[..k], Unlimited), k);
    }
  }

  lemma FinalStep(start: int64, ticks: seq<Tick>, early: seq<byte>, k: nat)
    requires k < |ticks| && early == Windows(start, ticks[..k], Unlimited)
    requires Init(early) <= Windows(start, Init(ticks), Unlimited)
    ensures Init(early) <= Windows(start, ticks, Unlimited)
  {
    SlotGrows(start, Init(ticks), k);
    assert Init(ticks)[..k] == ticks[..k];
    WindowsStep(start, ticks, Unlimited);
  }

  lemma {:induction false} SlotGrows(start: int64, ticks: seq<Tick>, k: nat)
    requires k <= |ticks|
    ensures Slot(start, ticks[..k], Unlimited) <= Slot(start, ticks, Unlimited)
    decreases |ticks|
  {
    if k == |ticks| {
      assert ticks[..k] == ticks;
    } else {
      SlotGrows(start, Init(ticks), k);
      assert Init(ticks)[..k] == ticks[..k];
    }
  }

  const Clamped := AtMost(255)

  // Decoding what version 1 records gives the timeline with every silence clamped to 255
  // windows.
  lemma {:induction false} Version1Decodes(start: int64, ticks: seq<Tick>)
    requires Writable(start, ticks)
    ensures var s := Run(Fresh(VERSION1, start), ticks);
            && s == Sig(VERSION1, start, High(start, ticks), s.data)
            && GapCode.Decode(s.data) == Some(Windows(start, ticks, Clamped))
  {
    if ticks == [] {
      assert Windows(start, ticks, Clamped) == [0];
      GapCode.RoundTrip([0]);
      assert GapCode.Encode([0]) == [0];
    } else {
      Version1Decodes(start, Init(ticks));
      WindowsStep(start, ticks, Clamped);
      DecodeStep(Run(Fresh(VERSION1, start), Init(ticks)).data, LastJump(start, ticks), Last(ticks).event);
    }
  }

  lemma DecodeStep(d: seq<byte>, jump: nat, e: Event)
    requires GapCode.Decode(d).Some?
    ensures GapCode.Decode(Bump(d + GapBytes(jump), e))
         == Some(Bump(GapCode.Decode(d).value + Zeros(Advance(Clamped, jump)), e))
  {
    var t, adv := GapCode.Decode(d).value, Advance(Clamped, jump);
    if jump == 0 {
      assert d + GapBytes(0) == d && t + Zeros(0) == t;
      ApplyEventNonzero(d[|d| - 1], e);
      GapCode.ReplaceLast(d, ApplyEvent(d[|d| - 1], e));
    } else {
      var w := ApplyEvent(0, e);
      ApplyEventNonzero(0, e);
      GapCode.AppendToken(d, adv - 1, w);
      assert Bump(d + GapBytes(jump), e) == d + GapCode.Token(adv - 1, w);
      assert Bump(t + Zeros(adv), e) == t + GapCode.Windows(adv - 1, w);
    }
  }

  // Version 1 records exactly the canonical encoding of the clamped timeline.
  lemma Version1Meaning(start: int64, ticks: seq<Tick>)
    requires Writable(start, ticks)
    ensures var w := Windows(start, ticks, Clamped);
            && GapCode.Encodable(w)
            && Run(Fresh(VERSION1, start), ticks)
            == Sig(VERSION1, start, High(start, ticks), GapCode.Encode(w))
  {
    Version1Decodes(start, ticks);
    GapCode.DecodeEncodes(Run(Fresh(VERSION1, start), ticks).data);
  }

  // Two runs leave the same bytes exactly when they have the same clamped timeline.
  lemma UniquelyDecodable(start1: int64, ticks1: seq<Tick>, start2: int64, ticks2: seq<Tick>)
    requires Writable(start1, ticks1) && Writable(start2, ticks2)
    ensures Run(Fresh(VERSION1, start1), ticks1).data == Run(Fresh(VERSION1, start2), ticks2).data
       <==> Windows(start1, ticks1, Clamped) == Windows(start2, ticks2, Clamped)
  {
    Version1Meaning(start1, ticks1);
    Version1Meaning(start2, ticks2);
    Version1Decodes(start1, ticks1);
    Version1Decodes(start2, ticks2);
  }

  // A limit leaves the timeline alone exactly when no jump exceeds it.
  lemma {:induction false} LimitedSlot(start: int64, ticks: seq<Tick>, n: nat)
    ensures Slot(start, ticks, AtMost(n)) <= Slot(start, ticks, Unlimited)
    ensures Slot(start, ticks, AtMost(n)) == Slot(start, ticks, Unlimited)
       <==> JumpsWithin(start, ticks, n)
  {
    if ticks != [] {
      LimitedSlot(start, Init(ticks), n);
    }
  }

  lemma {:induction false} LimitedLanded(start: int64, ticks: seq<Tick>, n: nat, i: nat)
    requires JumpsWithin(start, ticks, n)
    ensures Landed(start, ticks, AtMost(n), i) == Landed(start, ticks, Unlimited, i)
  {
    if ticks != [] {
      LimitedLanded(start, Init(ticks), n, i);
      LimitedSlot(start, ticks, n);
    }
  }

  lemma LimitedWindows(start: int64, ticks: seq<Tick>, n: nat)
    ensures Windows(start, ticks, AtMost(n)) == Windows(start, ticks, Unlimited)
       <==> JumpsWithin(start, ticks, n)
  {
    LimitedSlot(start, ticks, n);
    if JumpsWithin(start, ticks, n) {
      forall i: nat | i <= Slot(start, ticks, Unlimited)
        ensures Landed(start, ticks, AtMost(n), i) == Landed(start, ticks, Unlimited, i)
      {
        LimitedLanded(start, ticks, n, i);
      }
      assert Windows(start, ticks, AtMost(n)) == Windows(start, ticks, Unlimited);
    }
  }

  // Version 1 loses nothing that version 0 records exactly when no silence exceeds 255 windows.
  lemma LosslessExactly(start: int64, ticks: seq<Tick>)
    requires Writable(start, ticks)
    ensures GapCode.Decode(Run(Fresh(VERSION1, start), ticks).data)
         == Some(Run(Fresh(VERSION0, start), ticks).data)
       <==> JumpsWithin(start, ticks, 255)
  {
    Version0Meaning(start, ticks);
    Version1Decodes(start, ticks);
    LimitedWindows(start, ticks, 255);
  }
}

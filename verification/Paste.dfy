// From one keyboard's raw bytes to the paste bit of a window.
module Paste {
  import opened Words
  import opened Events
  import opened Signatures
  import opened Timeline
  import opened Evdev
  import opened RawRecords
  import opened Scoring
  import GapCode

  // A record of the stream and the clock when whatever it emitted was written.
  datatype Timed = Timed(now: int64, record: InputRecord)

  function RecordsIn(timed: seq<Timed>): seq<InputRecord> {
    if timed == [] then [] else RecordsIn(Init(timed)) + [Last(timed).record]
  }

  // What the recorder is given.
  function Ticks(l: Layout, timed: seq<Timed>): seq<Tick> {
    if timed == [] then [] else Ticks(l, Init(timed)) + NewTicks(l, timed)
  }

  function NewTicks(l: Layout, timed: seq<Timed>): seq<Tick>
    requires timed != []
  {
    var e := Emission(l, ModsAfter(RecordsIn(timed)), Last(timed).record);
    if e == [] then [] else [Tick(Last(timed).now, e[0])]
  }

  // The last record presses or repeats V while a control or meta key is held.
  predicate PressesPaste(records: seq<InputRecord>) {
    && records != []
    && Last(records).evType == EV_KEY && Last(records).code == KEY_V
    && (Last(records).value == PRESSED || Last(records).value == REPEAT)
    && (Held(records, KEY_LEFT_CTRL) || Held(records, KEY_RIGHT_CTRL)
        || Held(records, KEY_LEFT_META) || Held(records, KEY_RIGHT_META))
  }

  // The last record does, and its event landed in window i.
  predicate PasteAt(l: Layout, start: int64, timed: seq<Timed>, limit: Limit, i: nat) {
    PressesPaste(RecordsIn(timed)) && Slot(start, Ticks(l, timed), limit) == i
  }

  // Some record of the stream does, considering the keys held up to it.
  ghost predicate PasteIn(l: Layout, start: int64, timed: seq<Timed>, limit: Limit, i: nat) {
    exists k :: 0 < k <= |timed| && PasteAt(l, start, timed[..k], limit, i)
  }

  lemma PasteBefore(l: Layout, start: int64, timed: seq<Timed>, limit: Limit, i: nat, k: nat)
    requires timed != [] && 0 < k < |timed|
    ensures PasteAt(l, start, timed[..k], limit, i) <==> PasteAt(l, start, Init(timed)[..k], limit, i)
  {
    assert timed[..k] == Init(timed)[..k];
  }

  lemma PasteInFrom(l: Layout, start: int64, timed: seq<Timed>, limit: Limit, i: nat, k: nat)
    requires 0 < k <= |timed| && PasteAt(l, start, timed[..k], limit, i)
    ensures PasteIn(l, start, timed, limit, i)
  {
  }

  lemma PasteInInit(l: Layout, start: int64, timed: seq<Timed>, limit: Limit, i: nat, k: nat)
    requires 0 < k < |timed| && PasteAt(l, start, timed[..k], limit, i)
    ensures PasteIn(l, start, Init(timed), limit, i)
  {
    PasteBefore(l, start, timed, limit, i, k);
  }

  lemma PasteInMore(l: Layout, start: int64, timed: seq<Timed>, limit: Limit, i: nat)
    requires timed != [] && PasteIn(l, start, Init(timed), limit, i)
    ensures PasteIn(l, start, timed, limit, i)
  {
    var k :| 0 < k <= |timed| - 1 && PasteAt(l, start, Init(timed)[..k], limit, i);
    PasteBefore(l, start, timed, limit, i, k);
    PasteInFrom(l, start, timed, limit, i, k);
  }

  lemma PasteInLast(l: Layout, start: int64, timed: seq<Timed>, limit: Limit, i: nat)
    requires timed != [] && PasteAt(l, start, timed, limit, i)
    ensures PasteIn(l, start, timed, limit, i)
  {
    assert timed[..|timed|] == timed;
  }

  lemma PasteInSplit(l: Layout, start: int64, timed: seq<Timed>, limit: Limit, i: nat)
    requires timed != [] && PasteIn(l, start, timed, limit, i)
    ensures PasteIn(l, start, Init(timed), limit, i) || PasteAt(l, start, timed, limit, i)
  {
    var k :| 0 < k <= |timed| && PasteAt(l, start, timed[..k], limit, i);
    if k < |timed| {
      PasteInInit(l, start, timed, limit, i, k);
    } else {
      assert timed[..k] == timed;
    }
  }

  lemma PasteInStep(l: Layout, start: int64, timed: seq<Timed>, limit: Limit, i: nat)
    requires timed != []
    ensures PasteIn(l, start, timed, limit, i)
       <==> PasteIn(l, start, Init(timed), limit, i) || PasteAt(l, start, timed, limit, i)
  {
    if PasteIn(l, start, timed, limit, i) {
      PasteInSplit(l, start, timed, limit, i);
    } else {
      if PasteIn(l, start, Init(timed), limit, i) {
        PasteInMore(l, start, timed, limit, i);
      }
      if PasteAt(l, start, timed, limit, i) {
        PasteInLast(l, start, timed, limit, i);
      }
    }
  }

  lemma EmitsPaste(l: Layout, timed: seq<Timed>)
    requires l.Valid() && timed != []
    ensures var t := NewTicks(l, timed);
            PressesPaste(RecordsIn(timed)) <==> t != [] && IsPaste(t[0].event)
  {
    ModsAreHeldKeys(RecordsIn(timed));
  }

  lemma PasteAppend(events: seq<Event>, e: Event)
    ensures Pasted(Score(events + [e])) <==> Pasted(Score(events)) || IsPaste(e)
  {
    assert Init(events + [e]) == events;
    ApplyEventMeaning(Score(events), e);
  }

  // One more tick adds a paste to window i only by landing there.
  lemma TickPastes(start: int64, ticks: seq<Tick>, t: Tick, limit: Limit, i: nat)
    ensures Pasted(Score(Landed(start, ticks + [t], limit, i)))
       <==> Pasted(Score(Landed(start, ticks, limit, i)))
            || (IsPaste(t.event) && Slot(start, ticks + [t], limit) == i)
  {
    var landed := Landed(start, ticks, limit, i);
    assert Init(ticks + [t]) == ticks;
    assert landed + [] == landed;
    PasteAppend(landed, t.event);
  }

  lemma {:induction false} PasteBit(l: Layout, start: int64, timed: seq<Timed>, limit: Limit, i: nat)
    requires l.Valid()
    ensures Pasted(Score(Landed(start, Ticks(l, timed), limit, i))) <==> PasteIn(l, start, timed, limit, i)
  {
    if timed != [] {
      PasteBit(l, start, Init(timed), limit, i);
      PasteInStep(l, start, timed, limit, i);
      EmitsPaste(l, timed);
      var before, t := Ticks(l, Init(timed)), NewTicks(l, timed);
      if t == [] {
        assert Ticks(l, timed) == before;
      } else {
        assert Ticks(l, timed) == before + [t[0]];
        TickPastes(start, before, t[0], limit, i);
      }
    }
  }

  // A stream of bytes, and when each of its complete records was handled.
  function Stream(bytes: seq<byte>, clock: seq<int64>): (timed: seq<Timed>)
    requires |clock| == |RecordsOf(bytes)|
    ensures |timed| == |clock|
  {
    seq(|clock|, i requires 0 <= i < |clock| => Timed(clock[i], RecordsOf(bytes)[i]))
  }

  // The records of a stream are those of its bytes, and what reaches the recorder is what the
  // device's reader emits.
  lemma {:induction false} StreamRecords(bytes: seq<byte>, clock: seq<int64>, k: nat)
    requires |clock| == |RecordsOf(bytes)| && k <= |clock|
    ensures RecordsIn(Stream(bytes, clock)[..k]) == RecordsOf(bytes)[..k]
  {
    if k > 0 {
      StreamRecords(bytes, clock, k - 1);
      assert Init(Stream(bytes, clock)[..k]) == Stream(bytes, clock)[..k - 1];
    }
  }

  lemma {:induction false} TicksAreEmissions(l: Layout, timed: seq<Timed>)
    ensures EventsOf(Ticks(l, timed)) == Emissions(l, RecordsIn(timed))
  {
    if timed != [] {
      TicksAreEmissions(l, Init(timed));
      var before, t, r := Ticks(l, Init(timed)), NewTicks(l, timed), Last(timed).record;
      EmissionsAppend(l, NoMods, RecordsIn(Init(timed)), r);
      ModsAppend(NoMods, RecordsIn(Init(timed)), r);
      var e := Emission(l, ModsAfter(RecordsIn(timed)), r);
      if t == [] {
        assert Ticks(l, timed) == before && e == [];
        assert Emissions(l, RecordsIn(Init(timed))) + [] == Emissions(l, RecordsIn(Init(timed)));
      } else {
        assert Ticks(l, timed) == before + [t[0]] && e == [t[0].event];
        assert Init(before + [t[0]]) == before;
      }
    }
  }

  // Both recorders: a window has its paste bit exactly when a paste was pressed in it.
  lemma PasteEndToEnd(l: Layout, start: int64, bytes: seq<byte>, clock: seq<int64>, i: nat)
    requires l.Valid() && |clock| == |RecordsOf(bytes)| && Writable(start, Ticks(l, Stream(bytes, clock)))
    ensures var timed := Stream(bytes, clock);
            var v0 := Run(Fresh(VERSION0, start), Ticks(l, timed)).data;
            i < |v0| ==> (Pasted(v0[i]) <==> PasteIn(l, start, timed, Unlimited, i))
    ensures var timed := Stream(bytes, clock);
            var v1 := GapCode.Decode(Run(Fresh(VERSION1, start), Ticks(l, timed)).data);
            v1.Some? && (i < |v1.value| ==> (Pasted(v1.value[i]) <==> PasteIn(l, start, timed, Clamped, i)))
  {
    var timed := Stream(bytes, clock);
    Version0Meaning(start, Ticks(l, timed));
    Version1Decodes(start, Ticks(l, timed));
    PasteBit(l, start, timed, Unlimited, i);
    PasteBit(l, start, timed, Clamped, i);
  }

  // Bytes short of a last record change nothing.
  lemma PartialRecordIgnored(bytes: seq<byte>, partial: seq<byte>, clock: seq<int64>)
    requires |bytes| % INPUT_EVENT_SIZE == 0 && |partial| < INPUT_EVENT_SIZE
    requires |clock| == |RecordsOf(bytes)|
    ensures |clock| == |RecordsOf(bytes + partial)| && Stream(bytes + partial, clock) == Stream(bytes, clock)
  {
    TrailingBytes(bytes, partial);
  }

  // ----- From the bytes on, in plain numbers -----

  // The k-th record presses (1) or repeats (2) V (47) while a control (29, 97) or meta (125, 126)
  // key is down.
  ghost predicate TypesPaste(records: seq<InputRecord>, k: nat)
    requires k < |records|
  {
    && records[k].evType == 1 && records[k].code == 47
    && (records[k].value == 1 || records[k].value == 2)
    && (Down(records[..k], 29) || Down(records[..k], 97)
        || Down(records[..k], 125) || Down(records[..k], 126))
  }

  lemma PressIsTyped(records: seq<InputRecord>, k: nat)
    requires k < |records|
    ensures PressesPaste(records[..k + 1]) <==> TypesPaste(records, k)
  {
    var seen := records[..k + 1];
    assert Init(seen) == records[..k] && Last(seen) == records[k];
    DownIsHeld(records[..k], 29);
    DownIsHeld(records[..k], 97);
    DownIsHeld(records[..k], 125);
    DownIsHeld(records[..k], 126);
  }

  // Which window the k-th record's event lands in, if it makes one.
  function SlotOf(l: Layout, start: int64, timed: seq<Timed>, limit: Limit, k: nat): nat
    requires k < |timed|
  {
    Slot(start, Ticks(l, timed[..k + 1]), limit)
  }

  ghost predicate TypedAt(l: Layout, start: int64, timed: seq<Timed>, limit: Limit, i: nat, k: nat)
    requires k < |timed|
  {
    TypesPaste(Records(timed), k) && SlotOf(l, start, timed, limit, k) == i
  }

  // Some record does, and its event lands in window i.
  ghost predicate TypedIn(l: Layout, start: int64, timed: seq<Timed>, limit: Limit, i: nat) {
    exists k :: 0 <= k < |timed| && TypedAt(l, start, timed, limit, i, k)
  }

  function Records(timed: seq<Timed>): (r: seq<InputRecord>)
    ensures |r| == |timed|
  {
    seq(|timed|, i requires 0 <= i < |timed| => timed[i].record)
  }

  lemma {:induction false} RecordsInOrder(timed: seq<Timed>, k: nat)
    requires k <= |timed|
    ensures RecordsIn(timed[..k]) == Records(timed)[..k]
  {
    if k > 0 {
      RecordsInOrder(timed, k - 1);
      assert Init(timed[..k]) == timed[..k - 1];
    }
  }

  lemma TypedIsPaste(l: Layout, start: int64, timed: seq<Timed>, limit: Limit, i: nat, k: nat)
    requires k < |timed|
    ensures PasteAt(l, start, timed[..k + 1], limit, i) <==> TypedAt(l, start, timed, limit, i, k)
  {
    RecordsInOrder(timed, k + 1);
    PressIsTyped(Records(timed), k);
  }

  lemma PasteToTyped(l: Layout, start: int64, timed: seq<Timed>, limit: Limit, i: nat, k: nat)
    requires k < |timed| && PasteAt(l, start, timed[..k + 1], limit, i)
    ensures TypedIn(l, start, timed, limit, i)
  {
    TypedIsPaste(l, start, timed, limit, i, k);
  }

  lemma TypedToPaste(l: Layout, start: int64, timed: seq<Timed>, limit: Limit, i: nat, k: nat)
    requires k < |timed| && TypedAt(l, start, timed, limit, i, k)
    ensures PasteIn(l, start, timed, limit, i)
  {
    TypedIsPaste(l, start, timed, limit, i, k);
    PasteInFrom(l, start, timed, limit, i, k + 1);
  }

  lemma PasteIsTyped(l: Layout, start: int64, timed: seq<Timed>, limit: Limit, i: nat)
    ensures PasteIn(l, start, timed, limit, i) ==> TypedIn(l, start, timed, limit, i)
  {
    if PasteIn(l, start, timed, limit, i) {
      var k :| 0 < k <= |timed| && PasteAt(l, start, timed[..k], limit, i);
      PasteToTyped(l, start, timed, limit, i, k - 1);
    }
  }

  lemma TypedIsIn(l: Layout, start: int64, timed: seq<Timed>, limit: Limit, i: nat)
    ensures TypedIn(l, start, timed, limit, i) ==> PasteIn(l, start, timed, limit, i)
  {
    if TypedIn(l, start, timed, limit, i) {
      var k :| 0 <= k < |timed| && TypedAt(l, start, timed, limit, i, k);
      TypedToPaste(l, start, timed, limit, i, k);
    }
  }

  // The same from raw records: whatever their timestamps, and with less than one more record
  // after them.
  lemma PasteFromBytes(l: Layout, start: int64, s: seq<Stamped>, partial: seq<byte>, clock: seq<int64>, i: nat)
    requires 47 in l.codes && forall k :: k in l.codes ==> (l.codes[k] == 25 <==> k == 47)
    requires AllStamped(s) && |partial| < 24 && |clock| == |s|
    ensures |RecordsOf(RawStream(s) + partial)| == |s|
    ensures var timed := Stream(RawStream(s) + partial, clock);
            && Records(timed) == RecordsOnly(s)
            && (Writable(start, Ticks(l, timed)) ==>
                  var v0 := Run(Fresh(VERSION0, start), Ticks(l, timed)).data;
                  var v1 := GapCode.Decode(Run(Fresh(VERSION1, start), Ticks(l, timed)).data);
                  && (i < |v0| ==> (v0[i] >= 128 <==> TypedIn(l, start, timed, Unlimited, i)))
                  && v1.Some?
                  && (i < |v1.value| ==> (v1.value[i] >= 128 <==> TypedIn(l, start, timed, Clamped, i))))
  {
    var bytes := RawStream(s) + partial;
    RawStreamReads(s, partial);
    var timed := Stream(bytes, clock);
    assert forall k :: 0 <= k < |timed| ==> timed[k].record == RecordsOf(bytes)[k];
    assert Records(timed) == RecordsOnly(s);
    if Writable(start, Ticks(l, timed)) {
      PasteEndToEnd(l, start, bytes, clock, i);
      PasteIsTyped(l, start, timed, Unlimited, i);
      PasteIsTyped(l, start, timed, Clamped, i);
      TypedIsIn(l, start, timed, Unlimited, i);
      TypedIsIn(l, start, timed, Clamped, i);
    }
  }
}

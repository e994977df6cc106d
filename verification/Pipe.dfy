// The twelve-byte form in which a background worker sends events to the program.
module Pipe {
  import opened Words
  import opened Events
  import opened Signatures
  import opened Timeline
  import opened Records
  import opened Evdev
  import opened RawRecords

  const EVENT_SIZE := 12

  // Four bytes: longer text is cut, shorter text is padded with NULs.
  function FourBytes(s: Text): (b: seq<byte>)
    ensures |b| == 4
    ensures forall i :: 0 <= i < 4 ==> b[i] == if i < |s| then s[i] else 0
  {
    if |s| > 4 then s[..4] else s + Zeros(4 - |s|)
  }

  method StrTo4Bytes(s: Text) returns (b4: array<byte>)
    ensures fresh(b4) && b4.Length == 4 && b4[..] == FourBytes(s)
  {
    b4 := new byte[4](_ => 0);
    if |s| > 4 {
      b4[0], b4[1], b4[2], b4[3] := s[0], s[1], s[2], s[3];
      return;
    }
    var i := 0;
    while i < 4
      invariant 0 <= i <= 4 && i <= |s|
      invariant forall k :: 0 <= k < 4 ==> b4[k] == if k < i then s[k] else 0
    {
      if i >= |s| {
        break;
      }
      b4[i] := s[i];
      i := i + 1;
    }
  }

  function BoolToByte(b: bool): byte { if b then 1 else 0 }

  function EncodeEvent(e: Event): (b: seq<byte>)
    ensures |b| == EVENT_SIZE
  {
    match e
    case MouseUp => [0, 0, 0, 0, 0, 0, 0, 0, 0, 0, 0, 1]
    case KeyDown(text, key, control, special, shift) =>
      FourBytes(text) + LittleEndian(key, 4)
      + [BoolToByte(control), BoolToByte(special), BoolToByte(shift), 0]
  }

  // What the writer sends: the buffer is filled in place.
  method SendEvent(e: Event) returns (buff: array<byte>)
    ensures buff[..] == EncodeEvent(e)
  {
    match e
    case MouseUp =>
      buff := new byte[][0, 0, 0, 0, 0, 0, 0, 0, 0, 0, 0, 1];
    case KeyDown(text, key, control, special, shift) =>
      buff := new byte[EVENT_SIZE](_ => 0);
      var strBytes := StrTo4Bytes(text);
      CopyInto(buff, 0, strBytes[..]);
      CopyInto(buff, 4, LittleEndian(key, 4));
      buff[8] := BoolToByte(control);
      buff[9] := BoolToByte(special);
      buff[10] := BoolToByte(shift);
  }

  method CopyInto(buff: array<byte>, at: nat, bytes: seq<byte>)
    requires at + |bytes| <= buff.Length
    modifies buff
    ensures forall i :: 0 <= i < buff.Length ==>
      buff[i] == if at <= i < at + |bytes| then bytes[i - at] else old(buff[i])
  {
    forall i | 0 <= i < |bytes| { buff[at + i] := bytes[i]; }
  }

  function BytesToEvent(b: seq<byte>): Event
    requires |b| == EVENT_SIZE
  {
    if b[11] == 1 then MouseUp
    else KeyDown(b[..4], GetUint32(b[4..8]), b[8] == 1, b[9] == 1, b[10] == 1)
  }

  // Any twelve bytes are a mouse event if the last is 1, and else a key: four bytes of text, four
  // of key code, least significant first, and a byte for each flag that is set if it is 1.
  lemma TwelveBytes(b: seq<byte>)
    requires |b| == 12
    ensures b[11] == 1 ==> BytesToEvent(b) == MouseUp
    ensures b[11] != 1 ==>
              var e := BytesToEvent(b);
              var i, j, k, l: int := b[4], b[5], b[6], b[7];
              && e.KeyDown? && e.text == b[..4]
              && e.key == i + 0x100 * j + 0x1_0000 * k + 0x100_0000 * l
              && e.control == (b[8] == 1) && e.special == (b[9] == 1) && e.shift == (b[10] == 1)
  {
    FourBytesRead(b[4..8]);
  }

  // The stream a connection reads: whole events, until it ends.
  function Received(stream: seq<byte>): seq<Event> {
    if |stream| < EVENT_SIZE then []
    else [BytesToEvent(stream[..EVENT_SIZE])] + Received(stream[EVENT_SIZE..])
  }

  // A connection's reader, until it ends; every event goes on in order.
  method HandleConn(c: Source) returns (events: seq<Event>)
    modifies c
    ensures c.unread == [] && events == Received(old(c.unread))
  {
    events := [];
    var bytes := new byte[EVENT_SIZE];
    while true
      invariant events + Received(c.unread) == Received(old(c.unread))
      decreases |c.unread|
    {
      ghost var rest := c.unread;
      var ok := c.ReadFull(bytes);
      if !ok {
        return;
      }
      assert rest == bytes[..] + c.unread;
      Associate(events, [BytesToEvent(bytes[..])], Received(c.unread));
      events := events + [BytesToEvent(bytes[..])];
    }
  }

  function Sent(events: seq<Event>): seq<byte> {
    if events == [] then [] else EncodeEvent(events[0]) + Sent(events[1..])
  }

  // What arrives is the event with its text forced to four bytes.
  function Forced(e: Event): Event {
    match e
    case MouseUp => MouseUp
    case KeyDown(_, _, _, _, _) => e.(text := FourBytes(e.text))
  }

  lemma EventRoundTrip(e: Event)
    ensures BytesToEvent(EncodeEvent(e)) == Forced(e)
    ensures Forced(e) == e <==> e.MouseUp? || |e.text| == 4
  {
    if e.KeyDown? {
      var b := EncodeEvent(e);
      assert b[..4] == FourBytes(e.text);
      assert b[4..8] == LittleEndian(e.key, 4);
      assert Pow256(4) == 0x1_0000_0000;
      LittleEndianDecodes(e.key, 4);
      if |e.text| == 4 {
        assert FourBytes(e.text) == e.text;
      }
    }
  }

  function ForcedAll(events: seq<Event>): (r: seq<Event>)
    ensures |r| == |events|
  {
    seq(|events|, i requires 0 <= i < |events| => Forced(events[i]))
  }

  lemma FirstEvent(e: Event, rest: seq<byte>)
    ensures Received(EncodeEvent(e) + rest) == [Forced(e)] + Received(rest)
  {
    EventRoundTrip(e);
    assert (EncodeEvent(e) + rest)[..EVENT_SIZE] == EncodeEvent(e);
    assert (EncodeEvent(e) + rest)[EVENT_SIZE..] == rest;
  }

  // Within one connection events arrive whole and in order; a cut-off last event is dropped.
  lemma {:induction false} StreamRoundTrip(events: seq<Event>, cut: seq<byte>)
    requires |cut| < EVENT_SIZE
    ensures Received(Sent(events) + cut) == ForcedAll(events)
  {
    if events == [] {
      assert Sent(events) + cut == cut;
    } else {
      StreamRoundTrip(events[1..], cut);
      assert ForcedAll(events) == [Forced(events[0])] + ForcedAll(events[1..]);
      FirstEvent(events[0], Sent(events[1..]) + cut);
      Associate(EncodeEvent(events[0]), Sent(events[1..]), cut);
    }
  }

  function ForcedTick(t: Tick): Tick { t.(event := Forced(t.event)) }

  function ForcedTicks(ticks: seq<Tick>): (r: seq<Tick>)
    ensures |r| == |ticks|
  {
    seq(|ticks|, i requires 0 <= i < |ticks| => ForcedTick(ticks[i]))
  }

  // Forcing texts to four bytes changes no signature.
  lemma {:induction false} SignatureUnchanged(s: Sig, ticks: seq<Tick>)
    requires s.data != []
    ensures Run(s, ForcedTicks(ticks)) == Run(s, ticks)
  {
    if ticks != [] {
      SignatureUnchanged(s, Init(ticks));
      assert Init(ForcedTicks(ticks)) == ForcedTicks(Init(ticks));
    }
  }

  // It can change a record's first characters: a noted text survives exactly when it has four
  // bytes.
  lemma NotedForced(chars: Text, limit: int, e: Event)
    ensures Noted(chars, limit, Forced(e)) == Noted(chars, limit, e)
       <==> |chars| >= limit || e.MouseUp? || |e.text| == 4
  {
    if |chars| < limit && e.KeyDown? {
      var f := Forced(e).text;
      assert |f| == 4 && Noted(chars, limit, Forced(e)) == chars + f;
      if |e.text| == 4 {
        EventRoundTrip(e);
      }
      assert |chars + f| == |chars| + 4;
    }
  }

  function FirstCharacters(start: int64, ticks: seq<Tick>): Text {
    RunRec(FreshRec(start), ticks).firstCharacters
  }

  // Every text that comes while the record still notes characters has four bytes.
  predicate FourByteTexts(start: int64, ticks: seq<Tick>) {
    ticks == [] ||
    (var e := Last(ticks).event;
     && FourByteTexts(start, Init(ticks))
     && (|FirstCharacters(start, Init(ticks))| >= CHAR_LIMIT || e.MouseUp? || |e.text| == 4))
  }

  // The record looks the same at every moment, whether or not its events are forced.
  ghost predicate AgreeThroughout(start: int64, ticks: seq<Tick>) {
    forall k :: 0 <= k <= |ticks| ==>
      FirstCharacters(start, ForcedTicks(ticks[..k])) == FirstCharacters(start, ticks[..k])
  }

  lemma AgreeStep(start: int64, ticks: seq<Tick>)
    requires ticks != []
    ensures AgreeThroughout(start, ticks)
       <==> AgreeThroughout(start, Init(ticks))
            && FirstCharacters(start, ForcedTicks(ticks)) == FirstCharacters(start, ticks)
  {
    assert forall k :: 0 <= k < |ticks| ==> ticks[..k] == Init(ticks)[..k];
    assert ticks[..|ticks|] == ticks;
  }

  // Over any run, a record's first characters agree throughout with those of the forced events
  // exactly when every noted text has four bytes; they part at the first that has not.
  lemma {:induction false} FirstCharactersAffected(start: int64, ticks: seq<Tick>)
    ensures AgreeThroughout(start, ticks) <==> FourByteTexts(start, ticks)
  {
    if ticks != [] {
      FirstCharactersAffected(start, Init(ticks));
      AgreeStep(start, ticks);
      CharLimitStays(start, Init(ticks));
      CharLimitStays(start, Init(ForcedTicks(ticks)));
      assert Init(ForcedTicks(ticks)) == ForcedTicks(Init(ticks));
      if AgreeThroughout(start, Init(ticks)) {
        assert Init(ticks)[..|ticks| - 1] == Init(ticks);
        NotedForced(FirstCharacters(start, Init(ticks)), CHAR_LIMIT, Last(ticks).event);
      }
    }
  }

  lemma NextText(start: int64, ticks: seq<Tick>, before: Text, n: nat, text: Text)
    requires n < |ticks| && ticks[n].event.KeyDown? && ticks[n].event.text == text && |text| > 1
    requires before == FirstCharacters(start, ticks[..n])
    ensures FirstCharacters(start, ticks[..n + 1]) == if |before| < CHAR_LIMIT then before + text else before
  {
    CharLimitStays(start, ticks[..n]);
    assert Init(ticks[..n + 1]) == ticks[..n];
  }

  // Four keys and what they type.
  predicate FourTexts(ticks: seq<Tick>, a: Text, b: Text, c: Text, d: Text) {
    && |ticks| == 4 && (forall i :: 0 <= i < 4 ==> ticks[i].event.KeyDown?)
    && ticks[0].event.text == a && ticks[1].event.text == b
    && ticks[2].event.text == c && ticks[3].event.text == d
    && |b| == |c| == |d| == 4
  }

  lemma FirstText(start: int64, ticks: seq<Tick>, a: Text)
    requires |ticks| >= 1 && ticks[0].event.KeyDown? && ticks[0].event.text == a && |a| > 1
    ensures FirstCharacters(start, ticks[..1]) == a
  {
    NextText(start, ticks, [], 0, a);
    assert [] + a == a;
  }

  // A first text over the limit leaves no room for the others.
  lemma LongTextNoted(start: int64, ticks: seq<Tick>, a: Text, b: Text, c: Text, d: Text)
    requires FourTexts(ticks, a, b, c, d) && |a| >= CHAR_LIMIT
    ensures FirstCharacters(start, ticks) == a
  {
    FirstText(start, ticks, a);
    NextText(start, ticks, a, 1, b);
    NextText(start, ticks, a, 2, c);
    NextText(start, ticks, a, 3, d);
    assert ticks[..4] == ticks;
  }

  lemma ShortTextsNoted(start: int64, ticks: seq<Tick>, a: Text, b: Text, c: Text, d: Text)
    requires FourTexts(ticks, a, b, c, d) && |a| == 4
    ensures FirstCharacters(start, ticks) == a + b + c + d
  {
    FirstText(start, ticks, a);
    NextText(start, ticks, a, 1, b);
    NextText(start, ticks, a + b, 2, c);
    NextText(start, ticks, a + b + c, 3, d);
    assert ticks[..4] == ticks;
  }

  // Having parted, they may meet again: a long text, then its tail in pieces of four bytes, for
  // which only the forced record still has room.
  lemma TheyMayMeetAgain(start: int64, ticks: seq<Tick>, a: Text, b: Text, c: Text, d: Text)
    requires |a| == 4 && FourTexts(ticks, a + b + c + d, b, c, d)
    ensures FirstCharacters(start, ticks) == FirstCharacters(start, ForcedTicks(ticks))
    ensures !AgreeThroughout(start, ticks)
  {
    var t := a + b + c + d;
    assert t[..4] == a;
    FourTextsForced(ticks, t, b, c, d);
    LongTextNoted(start, ticks, t, b, c, d);
    ShortTextsNoted(start, ForcedTicks(ticks), a, b, c, d);
    FirstText(start, ticks, t);
    FirstText(start, ForcedTicks(ticks), a);
    assert FirstCharacters(start, ForcedTicks(ticks[..1])) != FirstCharacters(start, ticks[..1]);
  }

  lemma FourTextsForced(ticks: seq<Tick>, a: Text, b: Text, c: Text, d: Text)
    requires FourTexts(ticks, a, b, c, d)
    ensures FourTexts(ForcedTicks(ticks), FourBytes(a), b, c, d)
    ensures ForcedTicks(ticks)[..1] == ForcedTicks(ticks[..1])
  {
    assert FourBytes(b) == b && FourBytes(c) == c && FourBytes(d) == d;
  }
}

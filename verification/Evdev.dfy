// Keyboards read as raw input records: each device keeps its own modifier keys, and all devices
// feed one queue.
module Evdev {
  import opened Words
  import opened Events
  import opened Timeline

  const INPUT_EVENT_SIZE := 24
  const EV_KEY: uint16 := 1

  const KEY_LEFT_CTRL: uint16 := 29
  const KEY_LEFT_SHIFT: uint16 := 42
  const KEY_V: uint16 := 47
  const KEY_RIGHT_SHIFT: uint16 := 54
  const KEY_RIGHT_CTRL: uint16 := 97
  const KEY_LEFT_META: uint16 := 125
  const KEY_RIGHT_META: uint16 := 126

  const RELEASED: int32 := 0
  const PRESSED: int32 := 1
  const REPEAT: int32 := 2

  datatype InputRecord = InputRecord(evType: uint16, code: uint16, value: int32)

  // The key tables: a key code for some record codes, and a key's text with and without shift.
  datatype Layout = Layout(codes: map<uint16, uint32>, text: (uint32, bool) -> Text) {
    // Only the V key types a V.
    ghost predicate Valid() {
      KEY_V in codes && forall k :: k in codes ==> (codes[k] == CODE_V <==> k == KEY_V)
    }
  }

  datatype Mods = Mods(
    leftShift: bool, rightShift: bool, leftControl: bool, rightControl: bool,
    leftMeta: bool, rightMeta: bool)
  {
    predicate Shift() { leftShift || rightShift }
    predicate Control() { leftControl || rightControl }
    predicate Special() { leftMeta || rightMeta }
  }

  const NoMods := Mods(false, false, false, false, false, false)

  function Applied(m: Mods, code: uint16, pressed: bool): Mods {
    if code == KEY_LEFT_SHIFT then m.(leftShift := pressed)
    else if code == KEY_RIGHT_SHIFT then m.(rightShift := pressed)
    else if code == KEY_LEFT_CTRL then m.(leftControl := pressed)
    else if code == KEY_RIGHT_CTRL then m.(rightControl := pressed)
    else if code == KEY_LEFT_META then m.(leftMeta := pressed)
    else if code == KEY_RIGHT_META then m.(rightMeta := pressed)
    else m
  }

  // The fields after the 16-byte timestamp, on a little-endian machine.
  function ParseInputEvent(raw: seq<byte>): InputRecord
    requires |raw| == INPUT_EVENT_SIZE
  {
    InputRecord(GetUint16(raw[16..18]), GetUint16(raw[18..20]), AsInt32(GetUint32(raw[20..24])))
  }

  function GetUint16(b: seq<byte>): uint16
    requires |b| == 2
  {
    LittleEndianEncodes(b);
    assert Pow256(2) == 0x1_0000;
    FromLittleEndian(b)
  }

  function GetUint32(b: seq<byte>): uint32
    requires |b| == 4
  {
    LittleEndianEncodes(b);
    assert Pow256(4) == 0x1_0000_0000;
    FromLittleEndian(b)
  }

  function AsInt32(u: uint32): int32 {
    if u < 0x8000_0000 then u else u - 0x1_0000_0000
  }

  function ModsStep(m: Mods, r: InputRecord): Mods {
    if r.evType == EV_KEY then Applied(m, r.code, r.value != RELEASED) else m
  }

  // The event of one record, given the modifiers it leaves behind.
  function Emission(l: Layout, m: Mods, r: InputRecord): seq<Event> {
    if r.evType == EV_KEY && (r.value == PRESSED || r.value == REPEAT) && r.code in l.codes then
      [KeyDown(l.text(l.codes[r.code], m.Shift()), l.codes[r.code], m.Control(), m.Special(), m.Shift())]
    else []
  }

  function ModsFrom(m: Mods, records: seq<InputRecord>): Mods {
    if records == [] then m else ModsStep(ModsFrom(m, Init(records)), Last(records))
  }

  // Everything a reader that starts with some modifiers emits.
  function EmissionsFrom(l: Layout, m: Mods, records: seq<InputRecord>): seq<Event> {
    if records == [] then []
    else EmissionsFrom(l, m, Init(records)) + Emission(l, ModsFrom(m, records), Last(records))
  }

  // A device's reader starts with no key held.
  function ModsAfter(records: seq<InputRecord>): Mods { ModsFrom(NoMods, records) }

  function Emissions(l: Layout, records: seq<InputRecord>): seq<Event> { EmissionsFrom(l, NoMods, records) }

  // The complete records of a byte stream; a trailing partial record is none.
  function RecordsOf(b: seq<byte>): (r: seq<InputRecord>)
    ensures |r| == |b| / INPUT_EVENT_SIZE
  {
    seq(|b| / INPUT_EVENT_SIZE, i requires 0 <= i < |b| / INPUT_EVENT_SIZE => RecordAt(b, i))
  }

  function RecordAt(b: seq<byte>, i: nat): InputRecord
    requires INPUT_EVENT_SIZE * i + INPUT_EVENT_SIZE <= |b|
  {
    ParseInputEvent(b[INPUT_EVENT_SIZE * i..INPUT_EVENT_SIZE * i + INPUT_EVENT_SIZE])
  }

  // Whether the latest record of a key says that it is down.
  predicate Held(records: seq<InputRecord>, code: uint16) {
    records != [] &&
    if Last(records).evType == EV_KEY && Last(records).code == code then Last(records).value != RELEASED
    else Held(Init(records), code)
  }

  // The modifier state is exactly which keys are held.
  lemma {:induction false} ModsAreHeldKeys(records: seq<InputRecord>)
    ensures ModsAfter(records)
         == Mods(Held(records, KEY_LEFT_SHIFT), Held(records, KEY_RIGHT_SHIFT),
                 Held(records, KEY_LEFT_CTRL), Held(records, KEY_RIGHT_CTRL),
                 Held(records, KEY_LEFT_META), Held(records, KEY_RIGHT_META))
  {
    if records != [] {
      ModsAreHeldKeys(Init(records));
    }
  }

  lemma RecordUntouched(b: seq<byte>, more: seq<byte>, i: nat)
    requires INPUT_EVENT_SIZE * i + INPUT_EVENT_SIZE <= |b|
    ensures RecordAt(b + more, i) == RecordAt(b, i)
  {
    var n := INPUT_EVENT_SIZE * i;
    assert (b + more)[n..n + INPUT_EVENT_SIZE] == b[n..n + INPUT_EVENT_SIZE];
  }

  // Bytes short of a record add nothing.
  lemma TrailingBytes(b: seq<byte>, rest: seq<byte>)
    requires |b| % INPUT_EVENT_SIZE == 0 && |rest| < INPUT_EVENT_SIZE
    ensures RecordsOf(b + rest) == RecordsOf(b)
  {
    forall i | 0 <= i < |RecordsOf(b)|
      ensures RecordsOf(b + rest)[i] == RecordsOf(b)[i]
    {
      RecordUntouched(b, rest, i);
    }
  }

  lemma OneMoreRecord(b: seq<byte>, raw: seq<byte>)
    requires |b| % INPUT_EVENT_SIZE == 0 && |raw| == INPUT_EVENT_SIZE
    ensures RecordsOf(b + raw) == RecordsOf(b) + [ParseInputEvent(raw)]
  {
    var n := |b| / INPUT_EVENT_SIZE;
    forall i | 0 <= i < n
      ensures RecordsOf(b + raw)[i] == RecordsOf(b)[i]
    {
      RecordUntouched(b, raw, i);
    }
    assert INPUT_EVENT_SIZE * n == |b|;
    assert (b + raw)[|b|..|b| + INPUT_EVENT_SIZE] == raw;
  }

  lemma ModsAppend(m: Mods, records: seq<InputRecord>, r: InputRecord)
    ensures ModsFrom(m, records + [r]) == ModsStep(ModsFrom(m, records), r)
  {
    assert Init(records + [r]) == records;
  }

  lemma EmissionsAppend(l: Layout, m: Mods, records: seq<InputRecord>, r: InputRecord)
    ensures EmissionsFrom(l, m, records + [r])
         == EmissionsFrom(l, m, records) + Emission(l, ModsStep(ModsFrom(m, records), r), r)
  {
    assert Init(records + [r]) == records;
    ModsAppend(m, records, r);
  }

  class ModifierState {
    var leftShift: bool
    var rightShift: bool
    var leftControl: bool
    var rightControl: bool
    var leftMeta: bool
    var rightMeta: bool

    function Value(): Mods
      reads this
    {
      Mods(leftShift, rightShift, leftControl, rightControl, leftMeta, rightMeta)
    }

    constructor ()
      ensures Value() == NoMods
    {
      leftShift, rightShift, leftControl := false, false, false;
      rightControl, leftMeta, rightMeta := false, false, false;
    }

    method Apply(code: uint16, pressed: bool)
      modifies this
      ensures Value() == Applied(old(Value()), code, pressed)
    {
      if code == KEY_LEFT_SHIFT {
        leftShift := pressed;
      } else if code == KEY_RIGHT_SHIFT {
        rightShift := pressed;
      } else if code == KEY_LEFT_CTRL {
        leftControl := pressed;
      } else if code == KEY_RIGHT_CTRL {
        rightControl := pressed;
      } else if code == KEY_LEFT_META {
        leftMeta := pressed;
      } else if code == KEY_RIGHT_META {
        rightMeta := pressed;
      }
    }
  }

  method DecodeKeyEvent(l: Layout, mods: ModifierState, code: uint16, value: int32)
    returns (ev: seq<Event>)
    modifies mods
    ensures mods.Value() == ModsStep(old(mods.Value()), InputRecord(EV_KEY, code, value))
    ensures ev == Emission(l, mods.Value(), InputRecord(EV_KEY, code, value))
  {
    mods.Apply(code, value != RELEASED);
    if value != PRESSED && value != REPEAT {
      return [];
    }
    if code !in l.codes {
      return [];
    }
    var key, m := l.codes[code], mods.Value();
    return [KeyDown(l.text(key, m.Shift()), key, m.Control(), m.Special(), m.Shift())];
  }

  function Reversed(s: seq<Event>): (r: seq<Event>) {
    if s == [] then [] else [Last(s)] + Reversed(Init(s))
  }

  lemma {:induction false} ReversedPrepend(e: Event, s: seq<Event>)
    ensures Reversed([e] + s) == Reversed(s) + [e]
  {
    if s == [] {
      assert [e] + s == [e] && Init([e]) == [];
    } else {
      ReversedPrepend(e, Init(s));
      assert Init([e] + s) == [e] + Init(s);
    }
  }

  // The shared queue holds the newest event first.
  class Queue {
    var events: seq<Event>

    // Oldest first.
    ghost function Pending(): seq<Event>
      reads this
    {
      Reversed(events)
    }

    constructor ()
      ensures Pending() == []
    {
      events := [];
    }

    method Emit(e: Event)
      modifies this
      ensures Pending() == old(Pending()) + [e]
    {
      ReversedPrepend(e, events);
      events := [e] + events;
    }

    method Pop() returns (e: Option<Event>)
      modifies this
      ensures if old(Pending()) == [] then e == None && Pending() == []
              else e == Some(old(Pending())[0]) && Pending() == old(Pending())[1..]
    {
      if |events| == 0 {
        return None;
      }
      e := Some(events[|events| - 1]);
      events := events[..|events| - 1];
    }
  }

  // A device file: bytes, then an error or the end.
  class Source {
    var unread: seq<byte>

    // io.ReadFull: fills the buffer, or consumes what there is and reports failure.
    method ReadFull(raw: array<byte>) returns (ok: bool)
      modifies this, raw
      ensures ok <==> |old(unread)| >= raw.Length
      ensures ok ==> raw[..] == old(unread)[..raw.Length] && unread == old(unread)[raw.Length..]
      ensures !ok ==> unread == []
    {
      var n := Min(raw.Length, |unread|);
      for i := 0 to n
        modifies raw
        invariant raw[..i] == unread[..i]
      {
        raw[i] := unread[i];
      }
      ok := n == raw.Length;
      unread := unread[n..];
      assert ok ==> raw[..n] == raw[..];
    }
  }

  // One device's reader, until its file errors: it queues what the device emits, in order.
  method ReadEvents(l: Layout, r: Source, mods: ModifierState, q: Queue)
    modifies r, mods, q
    ensures r.unread == []
    ensures mods.Value() == ModsFrom(old(mods.Value()), RecordsOf(old(r.unread)))
    ensures q.Pending() == old(q.Pending()) + EmissionsFrom(l, old(mods.Value()), RecordsOf(old(r.unread)))
  {
    var raw := new byte[INPUT_EVENT_SIZE];
    ghost var all, before, m, done: seq<byte>, seen := r.unread, q.Pending(), mods.Value(), [], [];
    var more := true;
    while more
      invariant more ==> all == done + r.unread && Read(done, seen)
      invariant mods.Value() == ModsFrom(m, seen)
      invariant q.Pending() == before + EmissionsFrom(l, m, seen)
      invariant !more ==> r.unread == [] && RecordsOf(all) == seen
      decreases more, |r.unread|
    {
      more, done, seen := ReadOne(l, r, raw, mods, q, all, before, m, done, seen);
    }
  }

  // One turn of the reader's loop.
  method ReadOne(l: Layout, r: Source, raw: array<byte>, mods: ModifierState, q: Queue,
                 ghost all: seq<byte>, ghost before: seq<Event>, ghost m: Mods,
                 ghost done: seq<byte>, ghost seen: seq<InputRecord>)
    returns (more: bool, ghost done': seq<byte>, ghost seen': seq<InputRecord>)
    requires raw.Length == INPUT_EVENT_SIZE
    requires all == done + r.unread && Read(done, seen)
    requires mods.Value() == ModsFrom(m, seen) && q.Pending() == before + EmissionsFrom(l, m, seen)
    modifies r, raw, mods, q
    ensures more ==> |r.unread| < |old(r.unread)|
    ensures more ==> all == done' + r.unread && Read(done', seen')
    ensures !more ==> r.unread == [] && RecordsOf(all) == seen'
    ensures mods.Value() == ModsFrom(m, seen') && q.Pending() == before + EmissionsFrom(l, m, seen')
  {
    var record, chunk := NextRecord(r, raw);
    if record.None? {
      TrailingBytes(done, old(r.unread));
      return false, done, seen;
    }
    ReadOneMore(l, m, done, seen, chunk);
    Associate(done, chunk, r.unread);
    Associate(before, EmissionsFrom(l, m, seen), Emission(l, ModsFrom(m, seen + [record.value]), record.value));
    Handle(l, record.value, mods, q);
    return true, done + chunk, seen + [record.value];
  }

  ghost predicate Read(b: seq<byte>, records: seq<InputRecord>) {
    |b| % INPUT_EVENT_SIZE == 0 && records == RecordsOf(b)
  }

  lemma ReadOneMore(l: Layout, m: Mods, b: seq<byte>, seen: seq<InputRecord>, raw: seq<byte>)
    requires Read(b, seen) && |raw| == INPUT_EVENT_SIZE
    ensures var r := ParseInputEvent(raw);
            && Read(b + raw, seen + [r])
            && ModsFrom(m, seen + [r]) == ModsStep(ModsFrom(m, seen), r)
            && EmissionsFrom(l, m, seen + [r])
               == EmissionsFrom(l, m, seen) + Emission(l, ModsFrom(m, seen + [r]), r)
  {
    OneMoreRecord(b, raw);
    ModsAppend(m, seen, ParseInputEvent(raw));
    EmissionsAppend(l, m, seen, ParseInputEvent(raw));
  }

  lemma Associate<T>(a: seq<T>, b: seq<T>, c: seq<T>)
    ensures (a + b) + c == a + (b + c)
  {
  }

  // Fills the reused buffer with the next record and decodes it.
  method NextRecord(r: Source, raw: array<byte>)
    returns (record: Option<InputRecord>, ghost chunk: seq<byte>)
    requires raw.Length == INPUT_EVENT_SIZE
    modifies r, raw
    ensures record.Some? ==>
      |chunk| == INPUT_EVENT_SIZE && old(r.unread) == chunk + r.unread && record.value == ParseInputEvent(chunk)
    ensures record.None? ==> |old(r.unread)| < INPUT_EVENT_SIZE && r.unread == []
  {
    var ok := r.ReadFull(raw);
    chunk := raw[..];
    if !ok {
      return None, chunk;
    }
    return Some(ParseInputEvent(raw[..])), chunk;
  }

  // The body of the reader's loop, once a record is in the buffer.
  method Handle(l: Layout, record: InputRecord, mods: ModifierState, q: Queue)
    modifies mods, q
    ensures mods.Value() == ModsStep(old(mods.Value()), record)
    ensures q.Pending() == old(q.Pending()) + Emission(l, mods.Value(), record)
  {
    if record.evType != EV_KEY {
      return;
    }
    var ev := DecodeKeyEvent(l, mods, record.code, record.value);
    if ev != [] {
      q.Emit(ev[0]);
    }
  }
}

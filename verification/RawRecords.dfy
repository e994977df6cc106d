// Raw keyboard records byte by byte, and what a keyboard's reader makes of them in plain numbers.
module RawRecords {
  import opened Words
  import opened Events
  import opened Timeline
  import opened Evdev

  // A 16-byte timestamp, then type, code and value, least significant byte first; a negative
  // value in two's complement.
  function RawRecord(stamp: seq<byte>, r: InputRecord): (raw: seq<byte>)
    requires |stamp| == 16
    ensures |raw| == 24
  {
    var t, c, v: int := r.evType, r.code, if r.value < 0 then r.value + 0x1_0000_0000 else r.value;
    stamp + [t % 0x100, t / 0x100]
    + [c % 0x100, c / 0x100]
    + [v % 0x100, v / 0x100 % 0x100, v / 0x1_0000 % 0x100, v / 0x100_0000]
  }

  lemma TwoBytesRead(b: seq<byte>)
    requires |b| == 2
    ensures var i, j: int := b[0], b[1]; GetUint16(b) == i + 0x100 * j
  {
    assert b[1..] == [b[1]];
    assert FromLittleEndian(b[1..]) == b[1];
  }

  lemma FourBytesRead(b: seq<byte>)
    requires |b| == 4
    ensures var i, j, k, l: int := b[0], b[1], b[2], b[3];
            GetUint32(b) == i + 0x100 * j + 0x1_0000 * k + 0x100_0000 * l
  {
    var i, j, k, l: int := b[0], b[1], b[2], b[3];
    assert b[1..][1..][1..] == [b[3]] && b[1..][1..][0] == b[2] && b[1..][0] == b[1];
    assert FromLittleEndian(b[1..][1..][1..]) == l;
    assert FromLittleEndian(b[1..][1..]) == k + 0x100 * l;
    assert FromLittleEndian(b[1..]) == j + 0x100 * k + 0x1_0000 * l;
  }

  lemma FourDigits(v: int)
    requires 0 <= v < 0x1_0000_0000
    ensures v == v % 0x100 + 0x100 * (v / 0x100 % 0x100) + 0x1_0000 * (v / 0x1_0000 % 0x100) + 0x100_0000 * (v / 0x100_0000)
  {
    var a := v / 0x100;
    var b := a / 0x100;
    assert v / 0x1_0000 == b && v / 0x100_0000 == b / 0x100;
    assert v == 0x100 * a + v % 0x100 && a == 0x100 * b + a % 0x100 && b == 0x100 * (b / 0x100) + b % 0x100;
  }

  // Reading a raw record gives its three fields back, whatever its timestamp.
  lemma RawRecordReads(stamp: seq<byte>, r: InputRecord)
    requires |stamp| == 16
    ensures ParseInputEvent(RawRecord(stamp, r)) == r
  {
    var raw := RawRecord(stamp, r);
    TwoBytesRead(raw[16..18]);
    TwoBytesRead(raw[18..20]);
    FourBytesRead(raw[20..24]);
    FourDigits(if r.value < 0 then r.value + 0x1_0000_0000 else r.value);
  }

  // A record and the timestamp before it.
  datatype Stamped = Stamped(stamp: seq<byte>, record: InputRecord)

  predicate AllStamped(s: seq<Stamped>) { forall i :: 0 <= i < |s| ==> |s[i].stamp| == 16 }

  function RawStream(s: seq<Stamped>): (b: seq<byte>)
    requires AllStamped(s)
    ensures |b| == 24 * |s|
  {
    if s == [] then [] else RawStream(Init(s)) + RawRecord(Last(s).stamp, Last(s).record)
  }

  function RecordsOnly(s: seq<Stamped>): (r: seq<InputRecord>)
    ensures |r| == |s|
  {
    seq(|s|, i requires 0 <= i < |s| => s[i].record)
  }

  // Reading a stream of raw records, and less than one more, gives exactly the records.
  lemma {:induction false} RawStreamReads(s: seq<Stamped>, partial: seq<byte>)
    requires AllStamped(s) && |partial| < 24
    ensures RecordsOf(RawStream(s) + partial) == RecordsOnly(s)
  {
    TrailingBytes(RawStream(s), partial);
    if s != [] {
      var raw := RawRecord(Last(s).stamp, Last(s).record);
      RawStreamReads(Init(s), []);
      assert RawStream(Init(s)) + [] == RawStream(Init(s));
      OneMoreRecord(RawStream(Init(s)), raw);
      RawRecordReads(Last(s).stamp, Last(s).record);
      assert RecordsOnly(s) == RecordsOnly(Init(s)) + [Last(s).record];
    }
  }

  // ----- In plain numbers -----

  // Some record of the key says that it is down, and no later one says otherwise.
  ghost predicate Down(records: seq<InputRecord>, code: uint16) {
    exists j :: 0 <= j < |records|
      && records[j].evType == 1 && records[j].code == code && records[j].value != 0
      && forall k :: j < k < |records| ==> records[k].evType != 1 || records[k].code != code
  }

  lemma {:induction false} DownIsHeld(records: seq<InputRecord>, code: uint16)
    ensures Down(records, code) <==> Held(records, code)
  {
    if records != [] {
      var init, last := Init(records), Last(records);
      DownIsHeld(init, code);
      assert records == init + [last];
      if last.evType == 1 && last.code == code {
        if last.value != 0 {
          assert records[|records| - 1] == last;
        }
      } else {
        if Down(init, code) {
          DownStays(records, code);
        }
        if Down(records, code) {
          DownBefore(records, code);
        }
      }
    }
  }

  lemma DownStays(records: seq<InputRecord>, code: uint16)
    requires records != [] && Down(Init(records), code)
    requires Last(records).evType != 1 || Last(records).code != code
    ensures Down(records, code)
  {
    var init := Init(records);
    var j :| 0 <= j < |init| && init[j].evType == 1 && init[j].code == code && init[j].value != 0
             && forall k :: j < k < |init| ==> init[k].evType != 1 || init[k].code != code;
    assert records[j] == init[j];
    assert forall k :: j < k < |init| ==> records[k] == init[k];
  }

  lemma DownBefore(records: seq<InputRecord>, code: uint16)
    requires records != [] && Down(records, code)
    requires Last(records).evType != 1 || Last(records).code != code
    ensures Down(Init(records), code)
  {
    var init := Init(records);
    var j :| 0 <= j < |records| && records[j].evType == 1 && records[j].code == code && records[j].value != 0
             && forall k :: j < k < |records| ==> records[k].evType != 1 || records[k].code != code;
    assert init[j] == records[j];
    assert forall k :: j < k < |init| ==> records[k] == init[k];
  }

  // What the last of some records makes a keyboard's reader emit: an event if it presses (1) or
  // repeats (2) a key of the table, with the flags of the control (29, 97), meta (125, 126) and
  // shift (42, 54) keys that are down.
  lemma EmissionMeaning(l: Layout, records: seq<InputRecord>)
    requires records != []
    ensures var r, e := Last(records), Emission(l, ModsAfter(records), Last(records));
            && (e != [] <==> r.evType == 1 && (r.value == 1 || r.value == 2) && r.code in l.codes)
            && |e| <= 1
            && (e != [] ==>
                  && e[0].KeyDown? && e[0].key == l.codes[r.code]
                  && e[0].control == (Down(records, 29) || Down(records, 97))
                  && e[0].special == (Down(records, 125) || Down(records, 126))
                  && e[0].shift == (Down(records, 42) || Down(records, 54))
                  && e[0].text == l.text(e[0].key, e[0].shift))
  {
    ModsAreHeldKeys(records);
    DownIsHeld(records, 29);
    DownIsHeld(records, 97);
    DownIsHeld(records, 125);
    DownIsHeld(records, 126);
    DownIsHeld(records, 42);
    DownIsHeld(records, 54);
  }
}

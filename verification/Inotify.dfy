// The hot-plug watcher's walk over a buffer of variable-length inotify records.
module Inotify {
  import opened Words
  import opened Evdev
  import opened RawRecords

  const HEADER_SIZE := 16
  const IN_CREATE: uint32 := 0x100
  const IN_DELETE: uint32 := 0x200

  // What the kernel reports: the name is padded with NULs, and does not itself end in one.
  datatype Notice = Notice(wd: uint32, mask: uint32, cookie: uint32, name: Text, padding: nat) {
    predicate Valid() {
      |name| + padding < 0x1_0000_0000 && (name == [] || name[|name| - 1] != 0)
    }
  }

  datatype Callback = Added(name: Text) | Removed(name: Text)

  const EventPrefix: Text := [101, 118, 101, 110, 116]

  // ^event[0-9]+$
  predicate IsEventNode(name: Text) {
    && |name| > 5 && name[..5] == EventPrefix
    && forall i :: 5 <= i < |name| ==> 48 <= name[i] <= 57
  }

  predicate HasBit(mask: uint32, bit: uint32)
    requires bit > 0
  {
    mask / bit % 2 == 1
  }

  function Callbacks(mask: uint32, name: Text): seq<Callback> {
    if !IsEventNode(name) then []
    else if HasBit(mask, IN_CREATE) then [Added(name)]
    else if HasBit(mask, IN_DELETE) then [Removed(name)]
    else []
  }

  function Header(n: Notice): (h: seq<byte>)
    requires n.Valid()
    ensures |h| == HEADER_SIZE
  {
    LittleEndian(n.wd, 4) + LittleEndian(n.mask, 4) + LittleEndian(n.cookie, 4)
    + LittleEndian(|n.name| + n.padding, 4)
  }

  function Encode(n: Notice): seq<byte>
    requires n.Valid()
  {
    Header(n) + n.name + Zeros(n.padding)
  }

  predicate AllValid(ns: seq<Notice>) { forall i :: 0 <= i < |ns| ==> ns[i].Valid() }

  function EncodeAll(ns: seq<Notice>): seq<byte>
    requires AllValid(ns)
  {
    if ns == [] then [] else Encode(ns[0]) + EncodeAll(ns[1..])
  }

  function AllCallbacks(ns: seq<Notice>): seq<Callback> {
    if ns == [] then [] else Callbacks(ns[0].mask, ns[0].name) + AllCallbacks(ns[1..])
  }

  function TrimNuls(s: Text): (t: Text)
    ensures |t| <= |s| && s == t + Zeros(|s| - |t|)
    ensures t == [] || t[|t| - 1] != 0
  {
    if s == [] || s[|s| - 1] != 0 then s else TrimNuls(s[..|s| - 1])
  }

  function NameLength(b: seq<byte>): uint32
    requires |b| >= HEADER_SIZE
  {
    GetUint32(b[12..16])
  }

  // The bytes do not hold all of the record they begin.
  predicate Partial(b: seq<byte>) { |b| < HEADER_SIZE || HEADER_SIZE + NameLength(b) > |b| }

  function FirstCallbacks(b: seq<byte>): seq<Callback>
    requires !Partial(b)
  {
    Callbacks(GetUint32(b[4..8]), TrimNuls(b[HEADER_SIZE..HEADER_SIZE + NameLength(b)]))
  }

  function Walk(b: seq<byte>): seq<Callback> {
    if Partial(b) then [] else FirstCallbacks(b) + Walk(b[HEADER_SIZE + NameLength(b)..])
  }

  method DispatchInotifyEvents(buf: seq<byte>) returns (calls: seq<Callback>)
    ensures calls == Walk(buf)
  {
    calls := [];
    var offset := 0;
    while offset + HEADER_SIZE <= |buf|
      invariant 0 <= offset <= |buf|
      invariant calls + Walk(buf[offset..]) == Walk(buf)
    {
      WalkAt(buf, offset);
      var nameStart := offset + HEADER_SIZE;
      var nameEnd := nameStart + GetUint32(buf[offset + 12..offset + 16]);
      if nameEnd > |buf| {
        return;
      }
      var mask, name := GetUint32(buf[offset + 4..offset + 8]), TrimNuls(buf[nameStart..nameEnd]);
      offset := nameEnd;
      Associate(calls, Callbacks(mask, name), Walk(buf[offset..]));
      var made := Notify(mask, name);
      calls := calls + made;
    }
  }

  // The callback one record calls for, if any; creation is looked at first.
  method Notify(mask: uint32, name: Text) returns (made: seq<Callback>)
    ensures made == Callbacks(mask, name)
  {
    if !IsEventNode(name) {
      return [];
    }
    if HasBit(mask, IN_CREATE) {
      return [Added(name)];
    } else if HasBit(mask, IN_DELETE) {
      return [Removed(name)];
    }
    return [];
  }

  lemma FieldsAt(buf: seq<byte>, offset: nat)
    requires offset + HEADER_SIZE <= |buf|
    ensures var rest, start := buf[offset..], offset + HEADER_SIZE;
            && GetUint32(buf[offset + 12..offset + 16]) == NameLength(rest)
            && GetUint32(buf[offset + 4..offset + 8]) == GetUint32(rest[4..8])
            && (!Partial(rest) ==>
                  var n := NameLength(rest);
                  && buf[start..start + n] == rest[HEADER_SIZE..HEADER_SIZE + n]
                  && buf[start + n..] == rest[HEADER_SIZE + n..])
  {
    Slice(buf, offset, 12, 16);
    Slice(buf, offset, 4, 8);
    var rest := buf[offset..];
    if !Partial(rest) {
      Slice(buf, offset, HEADER_SIZE, HEADER_SIZE + NameLength(rest));
    }
  }

  // The walk from an offset, in terms of the whole buffer.
  lemma WalkAt(buf: seq<byte>, offset: nat)
    requires offset + HEADER_SIZE <= |buf|
    ensures var end := offset + HEADER_SIZE + GetUint32(buf[offset + 12..offset + 16]);
            && (end > |buf| ==> Walk(buf[offset..]) == [])
            && (end <= |buf| ==>
                  Walk(buf[offset..])
                  == Callbacks(GetUint32(buf[offset + 4..offset + 8]), TrimNuls(buf[offset + HEADER_SIZE..end]))
                     + Walk(buf[end..]))
  {
    FieldsAt(buf, offset);
  }

  lemma Uint32Field(u: uint32)
    ensures GetUint32(LittleEndian(u, 4)) == u
  {
    assert Pow256(4) == 0x1_0000_0000;
    LittleEndianDecodes(u, 4);
  }

  lemma {:induction false} TrimPadding(name: Text, padding: nat)
    requires name == [] || name[|name| - 1] != 0
    ensures TrimNuls(name + Zeros(padding)) == name
  {
    var s := name + Zeros(padding);
    if padding == 0 {
      assert s == name;
    } else {
      TrimPadding(name, padding - 1);
      assert s[..|s| - 1] == name + Zeros(padding - 1);
    }
  }

  lemma HeaderFields(n: Notice, rest: seq<byte>)
    requires n.Valid()
    ensures var b := Header(n) + rest;
            GetUint32(b[4..8]) == n.mask && NameLength(b) == |n.name| + n.padding
  {
    var b := Header(n) + rest;
    assert b[4..8] == LittleEndian(n.mask, 4);
    assert b[12..16] == LittleEndian(|n.name| + n.padding, 4);
    Uint32Field(n.mask);
    Uint32Field(|n.name| + n.padding);
  }

  lemma FirstRecord(n: Notice, rest: seq<byte>)
    requires n.Valid()
    ensures var b := Encode(n) + rest;
            && !Partial(b)
            && FirstCallbacks(b) == Callbacks(n.mask, n.name)
            && b[HEADER_SIZE + NameLength(b)..] == rest
  {
    var field: seq<byte> := n.name + Zeros(n.padding);
    var b := Encode(n) + rest;
    assert b == Header(n) + (field + rest);
    HeaderFields(n, field + rest);
    assert b[HEADER_SIZE..HEADER_SIZE + |field|] == field;
    TrimPadding(n.name, n.padding);
  }

  // A record cut short anywhere is recognised as incomplete.
  lemma ProperPrefixIsPartial(n: Notice, k: nat)
    requires n.Valid() && k < |Encode(n)|
    ensures Partial(Encode(n)[..k])
  {
    if k >= HEADER_SIZE {
      var tail := (n.name + Zeros(n.padding))[..k - HEADER_SIZE];
      assert Encode(n)[..k] == Header(n) + tail;
      HeaderFields(n, tail);
    }
  }

  // On any whole records followed by part of one more, the walk makes exactly the calls of the
  // whole records, in order.
  lemma {:induction false} WalkInvertsEncoding(ns: seq<Notice>, rest: seq<byte>)
    requires AllValid(ns) && Partial(rest)
    ensures Walk(EncodeAll(ns) + rest) == AllCallbacks(ns)
  {
    if ns == [] {
      assert EncodeAll(ns) + rest == rest;
    } else {
      WalkInvertsEncoding(ns[1..], rest);
      FirstRecord(ns[0], EncodeAll(ns[1..]) + rest);
      Associate(Encode(ns[0]), EncodeAll(ns[1..]), rest);
    }
  }

  // And every buffer is whole records followed by part of one more.
  lemma {:induction false} EveryBufferDecodes(b: seq<byte>) returns (ns: seq<Notice>, rest: seq<byte>)
    ensures AllValid(ns) && Partial(rest) && b == EncodeAll(ns) + rest
    decreases |b|
  {
    if Partial(b) {
      ns, rest := [], b;
    } else {
      var n := HEADER_SIZE + NameLength(b);
      var more, last := EveryBufferDecodes(b[n..]);
      var notice := FrontNotice(b);
      FrontRecord(b);
      ns, rest := [notice] + more, last;
      assert ns[1..] == more;
      Associate(Encode(notice), EncodeAll(more), last);
    }
  }

  lemma WordBytes(b: seq<byte>)
    requires |b| == 4
    ensures LittleEndian(GetUint32(b), 4) == b
  {
    LittleEndianEncodes(b);
  }

  lemma FourWords(n: Notice, a: seq<byte>, b: seq<byte>, c: seq<byte>, d: seq<byte>)
    requires n.Valid() && |a| == |b| == |c| == |d| == 4
    requires n.wd == GetUint32(a) && n.mask == GetUint32(b) && n.cookie == GetUint32(c)
    requires |n.name| + n.padding == GetUint32(d)
    ensures Header(n) == a + b + c + d
  {
    WordBytes(a);
    WordBytes(b);
    WordBytes(c);
    WordBytes(d);
  }

  lemma FourSlices(h: seq<byte>)
    requires |h| >= HEADER_SIZE
    ensures h[..4] + h[4..8] + h[8..12] + h[12..16] == h[..HEADER_SIZE]
  {
  }

  // The record at the front of a buffer that holds all of it.
  function FrontNotice(b: seq<byte>): Notice
    requires !Partial(b)
  {
    var field := b[HEADER_SIZE..HEADER_SIZE + NameLength(b)];
    var name := TrimNuls(field);
    Notice(GetUint32(b[..4]), GetUint32(b[4..8]), GetUint32(b[8..12]), name, |field| - |name|)
  }

  lemma FrontHeader(b: seq<byte>)
    requires !Partial(b)
    ensures FrontNotice(b).Valid() && Header(FrontNotice(b)) == b[..HEADER_SIZE]
  {
    FourWords(FrontNotice(b), b[..4], b[4..8], b[8..12], b[12..16]);
    FourSlices(b);
  }

  lemma FrontRecord(b: seq<byte>)
    requires !Partial(b)
    ensures FrontNotice(b).Valid()
    ensures Encode(FrontNotice(b)) + b[HEADER_SIZE + NameLength(b)..] == b
  {
    var n, end := FrontNotice(b), HEADER_SIZE + NameLength(b);
    FrontHeader(b);
    Associate(b[..HEADER_SIZE], n.name, Zeros(n.padding));
    ThreeParts(b, HEADER_SIZE, end);
  }

  lemma ThreeParts(b: seq<byte>, i: nat, j: nat)
    requires i <= j <= |b|
    ensures b[..i] + b[i..j] + b[j..] == b
  {
  }

  lemma Slice(b: seq<byte>, offset: nat, i: nat, j: nat)
    requires i <= j && offset + j <= |b|
    ensures b[offset + i..offset + j] == b[offset..][i..j]
    ensures b[offset + j..] == b[offset..][j..]
  {
  }

  // ----- What a notice calls for -----

  // "event" and at least one digit.
  ghost predicate NamesEvent(name: Text) {
    exists digits: Text ::
      digits != [] && (forall i :: 0 <= i < |digits| ==> 48 <= digits[i] <= 57)
      && name == [101, 118, 101, 110, 116] + digits
  }

  lemma EventNames(name: Text)
    ensures NamesEvent(name) <==> IsEventNode(name)
  {
    if IsEventNode(name) {
      assert name == name[..5] + name[5..];
      assert forall i :: 0 <= i < |name[5..]| ==> name[5..][i] == name[5 + i];
      assert NamesEvent(name);
    }
    if digits: Text :| digits != [] && (forall i :: 0 <= i < |digits| ==> 48 <= digits[i] <= 57)
                       && name == [101, 118, 101, 110, 116] + digits {
      assert forall i :: 5 <= i < |name| ==> name[i] == digits[i - 5];
      assert name[..5] == [101, 118, 101, 110, 116];
    }
  }

  lemma CallbacksMeaning(mask: uint32, name: Text)
    ensures Callbacks(mask, name)
         == if NamesEvent(name) && mask / 256 % 2 == 1 then [Added(name)]
            else if NamesEvent(name) && mask / 512 % 2 == 1 then [Removed(name)]
            else []
  {
    EventNames(name);
  }

  // Four bytes as a number, least significant first.
  function Number(b: seq<byte>): int
    requires |b| == 4
  {
    var i, j, k, l: int := b[0], b[1], b[2], b[3];
    i + 0x100 * j + 0x1_0000 * k + 0x100_0000 * l
  }

  lemma NumberRead(b: seq<byte>)
    requires |b| == 4
    ensures GetUint32(b) == Number(b)
  {
    FourBytesRead(b);
  }

  lemma BitsOfSecondByte(b: seq<byte>)
    requires |b| == 4
    ensures Number(b) / 256 % 2 == b[1] % 2 && Number(b) / 512 % 2 == b[1] / 2 % 2
  {
    var i, j, k, l: int := b[0], b[1], b[2], b[3];
    var high := k + 0x100 * l;
    assert Number(b) / 256 == j + 256 * high;
    assert Number(b) / 512 == j / 2 + 128 * high;
  }

  // One record byte by byte: four of a watch, four of a mask, four of a cookie, four of a length,
  // a name and NULs. Creation is bit 8 of the mask, deletion bit 9.
  lemma RecordCalls(wd: seq<byte>, mask: seq<byte>, cookie: seq<byte>, length: seq<byte>, name: Text, padding: nat)
    requires |wd| == |mask| == |cookie| == |length| == 4
    requires |name| + padding == Number(length)
    requires name == [] || name[|name| - 1] != 0
    ensures Walk(wd + mask + cookie + length + name + Zeros(padding))
         == if NamesEvent(name) && mask[1] % 2 == 1 then [Added(name)]
            else if NamesEvent(name) && mask[1] / 2 % 2 == 1 then [Removed(name)]
            else []
  {
    var n := NoticeOf(wd, mask, cookie, length, name, padding);
    BitsOfSecondByte(mask);
    CallbacksMeaning(n.mask, name);
    WalkOne(n);
  }

  lemma NoticeOf(wd: seq<byte>, mask: seq<byte>, cookie: seq<byte>, length: seq<byte>, name: Text, padding: nat)
    returns (n: Notice)
    requires |wd| == |mask| == |cookie| == |length| == 4
    requires |name| + padding == Number(length)
    requires name == [] || name[|name| - 1] != 0
    ensures n.Valid() && n.mask == Number(mask) && n.name == name
    ensures Encode(n) == wd + mask + cookie + length + name + Zeros(padding)
  {
    n := Notice(GetUint32(wd), GetUint32(mask), GetUint32(cookie), name, padding);
    NumberRead(mask);
    NumberRead(length);
    FourWords(n, wd, mask, cookie, length);
  }

  lemma WalkOne(n: Notice)
    requires n.Valid()
    ensures Walk(Encode(n)) == Callbacks(n.mask, n.name)
  {
    FirstRecord(n, []);
    assert Encode(n) + [] == Encode(n);
    assert Callbacks(n.mask, n.name) + Walk([]) == Callbacks(n.mask, n.name);
  }
}

// Examples computed by the model, most of them from the repository's own tests.
module Vectors {
  import opened Words
  import opened Events
  import opened Signatures
  import opened SigCodec
  import opened Splitting
  import opened Timeline
  import opened Records
  import Base64
  import Base64Bits
  import Decimal
  import Pipe

  // ----- Base64 -----

  lemma EncodeGroup(a: byte, b: byte, c: byte, rest: seq<byte>)
    ensures Base64.Encode([a, b, c] + rest) == Base64.Symbols(Base64.Group(a, b, c)) + Base64.Encode(rest)
  {
    Base64.GroupFirst(a, b, c, rest);
  }

  lemma EncodeEight(a: byte, b: byte, c: byte, d: byte, e: byte, f: byte, g: byte, h: byte)
    ensures Base64.Encode([a, b, c] + ([d, e, f] + [g, h]))
         == Base64.Symbols(Base64.Group(a, b, c))
          + (Base64.Symbols(Base64.Group(d, e, f)) + Base64.Symbols(Base64.Group(g, h, 0)[..3]))
  {
    EncodeGroup(a, b, c, [d, e, f] + [g, h]);
    EncodeGroup(d, e, f, [g, h]);
  }

  // ----- A version 1 signature -----

  const MIDNIGHT: int64 := 946_684_800

  const KeyA := KeyDown([], 4, false, false, false)
  const ControlV := KeyDown([], 25, true, false, false)

  // A key and a click, a paste after a pause of 100 seconds, and two keys four seconds apart.
  function Played(): Sig {
    var s1 := Step(Fresh(1, MIDNIGHT), Tick(MIDNIGHT, KeyA));
    var s2 := Step(s1, Tick(MIDNIGHT, MouseUp));
    var s3 := Step(s2, Tick(MIDNIGHT + 100, ControlV));
    var s4 := Step(s3, Tick(MIDNIGHT + 104, KeyA));
    Step(s4, Tick(MIDNIGHT + 108, KeyA))
  }

  // gENtOAAAAAA and AwAZgAEB.
  const StartText: Text := [103, 69, 78, 116] + ([79, 65, 65, 65] + [65, 65, 65])
  const DataText: Text := [65, 119, 65, 90] + [103, 65, 69, 66]

  // The test's string is 1.gENtOAAAAAA..AwAZgAEB, of the bytes 3 0 25 128 1 1.
  lemma Version1Example()
    ensures Played().data == [3, 0, 25, 128, 1, 1]
    ensures StringOf(Played()) == [49] + [46] + StartText + [46] + [46] + DataText
  {
    PlayedData();
    var s := Sig(VERSION1, MIDNIGHT, MIDNIGHT + 108, [3, 0, 25, 128, 1, 1]);
    FieldsJoined(s);
    StartField();
    DataField();
    assert Decimal.FormatUint(1) == [49];
  }

  lemma PlayedData()
    ensures Played() == Sig(VERSION1, MIDNIGHT, MIDNIGHT + 108, [3, 0, 25, 128, 1, 1])
  {
    var s1 := Step(Fresh(VERSION1, MIDNIGHT), Tick(MIDNIGHT, KeyA));
    var s2 := Step(s1, Tick(MIDNIGHT, MouseUp));
    var s3 := Step(s2, Tick(MIDNIGHT + 100, ControlV));
    assert s2.data == [3];
    assert s3.data == [3, 0, 25, 128] && s3.current == MIDNIGHT + 100;
  }

  lemma StartBytes()
    ensures SecondsField(MIDNIGHT) == [128, 67, 109] + ([56, 0, 0] + [0, 0])
  {
    assert LittleEndian(0, 4) == [0, 0, 0, 0] by {
      assert LittleEndian(0, 2) == [0, 0];
    }
    assert LittleEndian(14_445, 6) == [109, 56] + LittleEndian(0, 4);
    assert LittleEndian(MIDNIGHT, 8) == [128, 67] + LittleEndian(14_445, 6);
  }

  lemma StartGroups()
    ensures Base64.Symbols(Base64.Group(128, 67, 109)) == [103, 69, 78, 116]
    ensures Base64.Symbols(Base64.Group(56, 0, 0)) == [79, 65, 65, 65]
    ensures Base64.Symbols(Base64.Group(0, 0, 0)[..3]) == [65, 65, 65]
  {
  }

  lemma StartField()
    ensures Base64.Encode(SecondsField(MIDNIGHT)) == StartText
  {
    StartBytes();
    EncodeEight(128, 67, 109, 56, 0, 0, 0, 0);
    StartGroups();
  }

  lemma DataField()
    ensures Base64.Encode([3, 0, 25, 128, 1, 1]) == DataText
  {
    EncodeGroup(3, 0, 25, [128, 1, 1]);
    EncodeGroup(128, 1, 1, []);
    assert [3, 0, 25] + [128, 1, 1] == [3, 0, 25, 128, 1, 1];
    assert [128, 1, 1] + [] == [128, 1, 1];
    assert Base64.Group(3, 0, 25) == [0, 48, 0, 25];
    assert Base64.Group(128, 1, 1) == [32, 0, 4, 1];
  }

  // The packed form of the same start, with one byte of data.
  lemma PackedExample()
    ensures BytesOf(Sig(1, MIDNIGHT, MIDNIGHT, [9]))
         == [1, 0, 0, 0, 0, 0, 0, 0] + ([128, 67, 109] + ([56, 0, 0] + [0, 0])) + [0, 0, 0, 0] + [9]
  {
    StartBytes();
    assert LittleEndian(0, 7) == [0, 0, 0, 0, 0, 0, 0] by {
      assert LittleEndian(0, 4) == [0, 0, 0, 0] by {
        assert LittleEndian(0, 2) == [0, 0];
      }
    }
    assert LittleEndian(1, 8) == [1] + LittleEndian(0, 7);
  }

  // ----- Parsing -----

  // CHBGagAAAAA, the second 1783001096.
  const ParsedStart: Text := [67, 72, 66, 71] + ([97, 103, 65, 65] + [65, 65, 65])

  lemma ParsedStartBytes()
    ensures SecondsField(1_783_001_096) == [8, 112, 70] + ([106, 0, 0] + [0, 0])
  {
    assert LittleEndian(0, 4) == [0, 0, 0, 0] by {
      assert LittleEndian(0, 2) == [0, 0];
    }
    assert LittleEndian(27_206, 6) == [70, 106] + LittleEndian(0, 4);
    assert LittleEndian(1_783_001_096, 8) == [8, 112] + LittleEndian(27_206, 6);
  }

  lemma ParsedStartGroups()
    ensures Base64.Symbols(Base64.Group(8, 112, 70)) == [67, 72, 66, 71]
    ensures Base64.Symbols(Base64.Group(106, 0, 0)) == [97, 103, 65, 65]
    ensures Base64.Symbols(Base64.Group(0, 0, 0)[..3]) == [65, 65, 65]
  {
  }

  lemma ParsedStartDecodes()
    ensures Base64.Decode(ParsedStart) == Some(SecondsField(1_783_001_096))
    ensures AsInt64(GetUint64(SecondsField(1_783_001_096))) == 1_783_001_096
    ensures 46 !in ParsedStart
  {
    ParsedStartBytes();
    EncodeEight(8, 112, 70, 106, 0, 0, 0, 0);
    ParsedStartGroups();
    Base64.RoundTrip(SecondsField(1_783_001_096));
    SecondsRoundTrip(1_783_001_096);
  }

  lemma SixSextets(v: seq<Base64.sextet>)
    requires |v| == 6
    ensures Base64.FromSextets(v)
         == Some(Base64.Ungroup(v[0], v[1], v[2], v[3]) + Base64.Ungroup(v[4], v[5], 0, 0)[..1])
  {
    assert v[4..] == [v[4], v[5]];
  }

  lemma SixSymbols(t: Text, v: seq<Base64.sextet>)
    requires |t| == |v| == 6 && forall i :: 0 <= i < 6 ==> t[i] == Base64.Symbol(v[i])
    ensures Base64.Decode(t)
         == Some(Base64.Ungroup(v[0], v[1], v[2], v[3]) + Base64.Ungroup(v[4], v[5], 0, 0)[..1])
  {
    assert t == Base64.Symbols(v);
    Base64.SkipNothing(t);
    Base64.SymbolsRoundTrip(v);
    SixSextets(v);
  }

  // aaabbb: the last four bits are not clear, and are ignored.
  lemma LooseDataDecodes()
    ensures Base64.Decode([97, 97, 97, 98, 98, 98]) == Some([105, 166, 155, 109])
  {
    var v: seq<Base64.sextet> := [26, 26, 26, 27, 27, 27];
    SixSymbols([97, 97, 97, 98, 98, 98], v);
    assert Base64.Ungroup(26, 26, 26, 27) == [105, 166, 155];
    assert Base64.Ungroup(27, 27, 0, 0)[..1] == [109];
    assert [105, 166, 155] + [109] == [105, 166, 155, 109];
  }

  lemma OneLetterTooMany(t: Text)
    requires Base64.AllSymbols(t) && |t| % 4 == 1
    ensures Base64.Decode(t) == None
  {
    Base64.SkipNothing(t);
    Base64Bits.SextetsDecode(Base64.Values(t));
  }

  // notbase64: nine letters.
  lemma NineLettersRefused()
    ensures Base64.Decode([110, 111, 116, 98, 97, 115, 101, 54, 52]) == None
  {
    OneLetterTooMany([110, 111, 116, 98, 97, 115, 101, 54, 52]);
  }

  lemma FourFieldsParse(data: Text)
    requires 46 !in data
    ensures ParseString(Join([[48], ParsedStart, [], data], 46))
         == match Base64.Decode(data)
            case None => Err(BadData)
            case Some(d) => Ok(Sig(0, 1_783_001_096, 0, NonEmpty(d)))
  {
    ParsedStartDecodes();
    ParseMeaning([[48], ParsedStart, [], data]);
    ZeroVersion();
  }

  lemma ZeroVersion()
    ensures Decimal.ParseUint([48]) == Some(0)
  {
    assert Decimal.FormatUint(0) == [48];
    Decimal.ParseFormatUint(0);
  }

  // 0.CHBGagAAAAA..aaabbb
  lemma ParsedExample()
    ensures ParseString(Join([[48], ParsedStart, [], [97, 97, 97, 98, 98, 98]], 46))
         == Ok(Sig(0, 1_783_001_096, 0, [105, 166, 155, 109]))
  {
    LooseDataDecodes();
    FourFieldsParse([97, 97, 97, 98, 98, 98]);
  }

  // 0.CHBGagAAAAA..
  lemma EmptyDataExample()
    ensures ParseString(Join([[48], ParsedStart, [], []], 46)) == Ok(Sig(0, 1_783_001_096, 0, [0]))
  {
    Base64.RoundTrip([]);
    assert Base64.Encode([]) == [];
    FourFieldsParse([]);
  }

  // 0.CHBGagAAAAA..notbase64
  lemma BadDataExample()
    ensures ParseString(Join([[48], ParsedStart, [], [110, 111, 116, 98, 97, 115, 101, 54, 52]], 46)) == Err(BadData)
  {
    NineLettersRefused();
    FourFieldsParse([110, 111, 116, 98, 97, 115, 101, 54, 52]);
  }

  // not.enough.separators and string....
  lemma RefusedExamples()
    ensures ParseString(Join([Not, Enough, Separators], 46)) == Err(InsufficientDividerBytes)
    ensures ParseString(Join([String, [], [], [], []], 46)) == Err(BadVersion)
  {
    ParseMeaning([Not, Enough, Separators]);
    ParseMeaning([String, [], [], [], []]);
    SixLetters();
  }

  // 0.string... and 0.1..
  lemma BadStartExamples()
    ensures ParseString(Join([[48], String, [], [], []], 46)) == Err(BadStart)
    ensures ParseString(Join([[48], [49], [], []], 46)) == Err(BadStart)
  {
    ParseMeaning([[48], String, [], [], []]);
    ParseMeaning([[48], [49], [], []]);
    ZeroVersion();
    SixLetters();
    Base64.SkipNothing([49]);
  }

  const Not: Text := [110, 111, 116]
  const Enough: Text := [101, 110, 111, 117, 103, 104]
  const Separators: Text := [115, 101, 112, 97, 114, 97, 116, 111, 114, 115]
  const String: Text := [115, 116, 114, 105, 110, 103]

  lemma SixLetters()
    ensures Base64.Decode(String).Some? && |Base64.Decode(String).value| == 4
    ensures Decimal.ParseUint(String) == None
  {
    SixDecode(String);
    assert !Decimal.IsDigit(String[0]);
  }

  lemma SixDecode(t: Text)
    requires Base64.AllSymbols(t) && |t| == 6
    ensures Base64.Decode(t).Some? && |Base64.Decode(t).value| == 4
  {
    Base64.SkipNothing(t);
    SixSextets(Base64.Values(t));
  }

  // Twenty bytes of head and four of data, or none.
  lemma UnpackedExamples()
    ensures BytesParsed([0, 0, 0, 0, 0, 0, 0, 0] + [1, 0, 0, 0, 0, 0, 0, 0] + [0, 0, 0, 0] + [2, 3, 4, 5])
         == Ok(Sig(0, 1, 0, [2, 3, 4, 5]))
    ensures BytesParsed([0, 0, 0, 0, 0, 0, 0, 0] + [1, 0, 0, 0, 0, 0, 0, 0] + [0, 0, 0, 0])
         == Ok(Sig(0, 1, 0, [0]))
  {
    SmallNumbers();
    UnpackedHead([2, 3, 4, 5]);
    UnpackedHead([]);
    var head: seq<byte> := [0, 0, 0, 0, 0, 0, 0, 0] + [1, 0, 0, 0, 0, 0, 0, 0] + [0, 0, 0, 0];
    assert head + [] == head;
  }

  lemma SmallNumbers()
    ensures PutUint64(0) == [0, 0, 0, 0, 0, 0, 0, 0] && PutUint64(1) == [1, 0, 0, 0, 0, 0, 0, 0]
  {
    assert LittleEndian(0, 7) == [0, 0, 0, 0, 0, 0, 0] by {
      assert LittleEndian(0, 4) == [0, 0, 0, 0] by {
        assert LittleEndian(0, 2) == [0, 0];
      }
    }
    assert LittleEndian(1, 8) == [1] + LittleEndian(0, 7) && LittleEndian(0, 8) == [0] + LittleEndian(0, 7);
  }

  lemma UnpackedHead(data: seq<byte>)
    ensures BytesParsed(PutUint64(0) + PutUint64(1) + [0, 0, 0, 0] + data) == Ok(Sig(0, 1, 0, NonEmpty(data)))
  {
    var b: seq<byte> := PutUint64(0) + PutUint64(1) + [0, 0, 0, 0] + data;
    assert b[..8] == PutUint64(0) && b[8..16] == PutUint64(1) && b[20..] == data;
    Uint64RoundTrip(0);
    Uint64RoundTrip(1);
  }

  // ----- A record -----

  function Typed(text: Text): Tick { Tick(MIDNIGHT, KeyDown(text, 4, false, false, false)) }

  // An a, a NUL, a key without text, a b and a click are the three lines 1.gENtOAAAAAA..Bg, ab, 5.
  lemma RecordExample()
    ensures var ticks := [] + [Typed([97])] + [Typed([0])] + [Typed([])] + [Typed([98])] + [Tick(MIDNIGHT, MouseUp)];
            RecordString(RunRec(FreshRec(MIDNIGHT), ticks))
            == ([49] + [46] + StartText + [46] + [46] + [66, 103]) + [10] + ([97, 98] + [10] + [53])
  {
    var r := Rec(Sig(VERSION1, MIDNIGHT, MIDNIGHT, [6]), [97, 98], 5, CHAR_LIMIT);
    TypedRecord();
    RecordLines(r);
    FieldsJoined(r.sig);
    StartField();
    assert Base64.Encode([6]) == [66, 103];
    assert Decimal.FormatUint(1) == [49] && Decimal.Itoa(5) == [53];
  }

  lemma OneTick(r: Rec, ticks: seq<Tick>, t: Tick)
    requires r.sig.data != []
    ensures RunRec(r, ticks + [t]) == StepRec(RunRec(r, ticks), t)
  {
    assert Init(ticks + [t]) == ticks;
  }

  lemma TypedRecord()
    ensures var ticks := [] + [Typed([97])] + [Typed([0])] + [Typed([])] + [Typed([98])] + [Tick(MIDNIGHT, MouseUp)];
            RunRec(FreshRec(MIDNIGHT), ticks)
            == Rec(Sig(VERSION1, MIDNIGHT, MIDNIGHT, [6]), [97, 98], 5, CHAR_LIMIT)
  {
    var r0, none: seq<Tick> := FreshRec(MIDNIGHT), [];
    OneTick(r0, none, Typed([97]));
    OneTick(r0, none + [Typed([97])], Typed([0]));
    OneTick(r0, none + [Typed([97])] + [Typed([0])], Typed([]));
    OneTick(r0, none + [Typed([97])] + [Typed([0])] + [Typed([])], Typed([98]));
    OneTick(r0, none + [Typed([97])] + [Typed([0])] + [Typed([])] + [Typed([98])], Tick(MIDNIGHT, MouseUp));
  }

  // ----- The event pipe -----

  // The text ab and the key 0x01020304 with control and shift.
  lemma PipedExample()
    ensures Pipe.EncodeEvent(KeyDown([97, 98], 0x0102_0304, true, false, true))
         == [97, 98, 0, 0] + [4, 3, 2, 1] + [1, 0, 1, 0]
  {
    assert LittleEndian(0x0102_0304, 4) == [4, 3, 2, 1];
    assert Pipe.FourBytes([97, 98]) == [97, 98, 0, 0];
  }
}

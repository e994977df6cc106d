// The two printed forms of a signature: text with dot-separated fields, and packed bytes.
module SigCodec {
  import opened Words
  import opened Signatures
  import Base64
  import Decimal
  import opened Splitting

  datatype ParseError =
    | InsufficientDividerBytes
    | BadVersion
    | BadStart
    | BadData
    | BytesTooShort

  function SecondsField(second: int64): (b: seq<byte>)
    ensures |b| == 8
  {
    PutUint64(AsUint64(second))
  }

  // The fields of the text form; the third is a placeholder.
  function Fields(s: Sig): (f: seq<Text>)
    ensures |f| == 4
  {
    [Decimal.FormatUint(s.version), Base64.Encode(SecondsField(s.start)), [], Base64.Encode(s.data)]
  }

  function StringOf(s: Sig): Text { Join(Fields(s), DOT) }

  function NonEmpty(data: seq<byte>): seq<byte> { if data == [] then [0] else data }

  function ParseString(t: Text): Result<Sig, ParseError> {
    var fields := Split(t, DOT);
    if |fields| < 4 then Err(InsufficientDividerBytes)
    else
      match Decimal.ParseUint(fields[0])
      case None => Err(BadVersion)
      case Some(version) =>
        match Base64.Decode(fields[1])
        case None => Err(BadStart)
        case Some(seconds) =>
          if |seconds| != 8 then Err(BadStart)
          else
            match Base64.Decode(fields[|fields| - 1])
            case None => Err(BadData)
            case Some(data) => Ok(Sig(version, AsInt64(GetUint64(seconds)), 0, NonEmpty(data)))
  }

  const Placeholder: seq<byte> := [0, 0, 0, 0]

  function BytesOf(s: Sig): seq<byte> {
    PutUint64(s.version) + SecondsField(s.start) + Placeholder + s.data
  }

  // What survives printing: everything but the clock, which marks the copy as not writable.
  function Printed(s: Sig): Sig { Sig(s.version, s.start, 0, NonEmpty(s.data)) }

  method String(a: Asig) returns (s: Text)
    ensures s == StringOf(a.Value())
  {
    s := [];
    s := s + Decimal.FormatUint(a.Version);
    s := s + [DOT];
    var secBytes := SecondsField(a.StartSecond);
    s := s + Base64.Encode(secBytes);
    s := s + [DOT];
    s := s + [DOT];
    s := s + Base64.Encode(a.Data);
    ghost var f := Fields(a.Value());
    assert s == f[0] + [DOT] + f[1] + [DOT] + [DOT] + f[3];
    FieldsJoined(a.Value());
  }

  lemma FieldsJoined(s: Sig)
    ensures StringOf(s) == Fields(s)[0] + [DOT] + Fields(s)[1] + [DOT] + [DOT] + Fields(s)[3]
  {
    var f := Fields(s);
    assert Join(f[1..][1..][1..], DOT) == f[3];
    assert Join(f[1..][1..], DOT) == [] + [DOT] + f[3];
    assert Join(f[1..], DOT) == f[1] + [DOT] + ([] + [DOT] + f[3]);
  }

  method Bytes(a: Asig) returns (buff: seq<byte>)
    ensures buff == BytesOf(a.Value())
  {
    buff := [];
    buff := buff + PutUint64(a.Version);
    buff := buff + PutUint64(AsUint64(a.StartSecond));
    buff := buff + [0, 0, 0, 0];
    buff := buff + a.Data;
  }

  function BytesParsed(b: seq<byte>): Result<Sig, ParseError> {
    if |b| < 20 then Err(BytesTooShort)
    else Ok(Sig(GetUint64(b[..8]), AsInt64(GetUint64(b[8..16])), 0, NonEmpty(b[20..])))
  }

  method ParseBytes(b: seq<byte>) returns (r: Result<Sig, ParseError>)
    ensures r == BytesParsed(b)
  {
    if |b| < 20 {
      return Err(BytesTooShort);
    }
    var i := 0;
    var version := GetUint64(b[i..i + 8]);
    i := i + 8;
    var startSecond := GetUint64(b[i..i + 8]);
    i := i + 8;
    i := i + 4;
    var data := b[i..];
    if |data| == 0 {
      data := data + [0];
      assert data == [0];
    }
    return Ok(Sig(version, AsInt64(startSecond), 0, data));
  }

  lemma SecondsRoundTrip(second: int64)
    ensures AsInt64(GetUint64(SecondsField(second))) == second
  {
    Uint64RoundTrip(AsUint64(second));
  }

  lemma SecondsFieldOf(b: seq<byte>)
    requires |b| == 8
    ensures SecondsField(AsInt64(GetUint64(b))) == b
  {
    LittleEndianEncodes(b);
    assert AsUint64(AsInt64(GetUint64(b))) == GetUint64(b);
  }

  lemma SplitString(s: Sig)
    ensures Split(StringOf(s), DOT) == Fields(s)
    ensures NEWLINE !in StringOf(s)
  {
    Base64.EncodeSymbols(SecondsField(s.start));
    Base64.EncodeSymbols(s.data);
    SplitJoin(Fields(s), DOT);
    FieldsJoined(s);
  }

  // The text form parses back to the same version, start and data.
  lemma TextRoundTrip(s: Sig)
    ensures ParseString(StringOf(s)) == Ok(Printed(s))
  {
    SplitString(s);
    Decimal.ParseFormatUint(s.version);
    Base64.RoundTrip(SecondsField(s.start));
    Base64.RoundTrip(s.data);
    SecondsRoundTrip(s.start);
  }

  // The packed form agrees with it.
  lemma CodecsAgree(s: Sig)
    ensures BytesParsed(BytesOf(s)) == ParseString(StringOf(s)) == Ok(Printed(s))
  {
    TextRoundTrip(s);
    var b := BytesOf(s);
    assert b[..8] == PutUint64(s.version);
    assert b[8..16] == SecondsField(s.start);
    assert b[20..] == s.data;
    Uint64RoundTrip(s.version);
    SecondsRoundTrip(s.start);
  }

  // Packing what was unpacked gives the bytes back exactly when there was data and the reserved
  // bytes were clear.
  lemma BytesNormalForm(b: seq<byte>)
    requires BytesParsed(b).Ok?
    ensures BytesOf(BytesParsed(b).value) == b <==> |b| > 20 && b[16..20] == Placeholder
  {
    LittleEndianEncodes(b[..8]);
    SecondsFieldOf(b[8..16]);
    var data, p := NonEmpty(b[20..]), BytesOf(BytesParsed(b).value);
    assert p == b[..8] + b[8..16] + Placeholder + data;
    assert b == b[..8] + b[8..16] + b[16..20] + b[20..];
    FourParts(b[..8], b[8..16], Placeholder, data, b[16..20], b[20..]);
  }

  lemma FourParts(w: seq<byte>, x: seq<byte>, y: seq<byte>, z: seq<byte>, y': seq<byte>, z': seq<byte>)
    requires |y| == |y'|
    ensures w + x + y + z == w + x + y' + z' <==> y == y' && z == z'
  {
    var p, p', n := w + x + y + z, w + x + y' + z', |w| + |x|;
    assert p[n..n + |y|] == y && p'[n..n + |y|] == y';
    assert p[n + |y|..] == z && p'[n + |y|..] == z';
  }

  // Fields joined by dots: there must be four, the first a version, the second eight bytes of
  // seconds, and the last the data; whatever comes between is ignored.
  lemma ParseMeaning(fields: seq<Text>)
    requires |fields| >= 1 && forall f :: f in fields ==> 46 !in f
    ensures var parsed, n := ParseString(Join(fields, 46)), |fields|;
            && (n < 4 ==> parsed == Err(InsufficientDividerBytes))
            && (n >= 4 ==>
                  var version := Decimal.ParseUint(fields[0]);
                  var seconds, data := Base64.Decode(fields[1]), Base64.Decode(fields[n - 1]);
                  && (version.None? ==> parsed == Err(BadVersion))
                  && (version.Some? && (seconds.None? || |seconds.value| != 8) ==> parsed == Err(BadStart))
                  && (version.Some? && seconds.Some? && |seconds.value| == 8 ==>
                        parsed == if data.None? then Err(BadData)
                                  else Ok(Sig(version.value, AsInt64(GetUint64(seconds.value)), 0,
                                              if data.value == [] then [0] else data.value))))
  {
    SplitJoin(fields, 46);
  }

  // However irregular the accepted text, printing what was parsed settles it.
  lemma ReparseStable(t: Text)
    requires ParseString(t).Ok?
    ensures ParseString(StringOf(ParseString(t).value)) == ParseString(t)
  {
    TextRoundTrip(ParseString(t).value);
  }

  // The accepted texts that String can have printed: no superfluous zeros in the version, no
  // extra fields, line breaks or stray bits, and some data.
  predicate Canonical(t: Text) {
    var f := Split(t, DOT);
    && |f| == 4
    && (|f[0]| == 1 || (f[0] != [] && f[0][0] != ZERO_DIGIT))
    && Base64.Canonical(f[1])
    && f[2] == []
    && f[3] != [] && Base64.Canonical(f[3])
  }

  lemma PrintedExactly(t: Text)
    requires ParseString(t).Ok?
    ensures StringOf(ParseString(t).value) == t <==> Canonical(t)
  {
    var s, f := ParseString(t).value, Split(t, DOT);
    SplitString(s);
    JoinSplit(t, DOT);
    assert StringOf(s) == t <==> Fields(s) == f;
    if |f| == 4 {
      Decimal.FormatUintCanonical(f[0]);
      Base64.DecodeEncodeCanonical(f[1]);
      SecondsFieldOf(Base64.Decode(f[1]).value);
      DataFieldCanonical(f[3]);
      FourFields(Fields(s), f);
    }
  }

  lemma FourFields(f: seq<Text>, g: seq<Text>)
    requires |f| == |g| == 4
    ensures f == g <==> f[0] == g[0] && f[1] == g[1] && f[2] == g[2] && f[3] == g[3]
  {
  }

  lemma DataFieldCanonical(t: Text)
    requires Base64.Decode(t).Some?
    ensures Base64.Encode(NonEmpty(Base64.Decode(t).value)) == t <==> t != [] && Base64.Canonical(t)
  {
    Base64.DecodeEncodeCanonical(t);
    Base64.RoundTrip([0]);
    if Base64.Decode(t).value == [] && Base64.Canonical(t) {
      EmptyDecodes(t);
    }
  }

  lemma EmptyDecodes(t: Text)
    requires Base64.Decode(t) == Some([]) && Base64.Canonical(t)
    ensures t == []
  {
    Base64.DecodeEncodeCanonical(t);
    Base64.EncodedLength([]);
  }
}

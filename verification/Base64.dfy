// Unpadded base64url (section 5 of RFC 4648) as Go's base64.RawURLEncoding reads and writes it:
// the decoder skips CR and LF anywhere, rejects padding, and ignores nonzero trailing bits.
module Base64 {
  import opened Words

  type sextet = n: int | 0 <= n < 64

  function Symbol(v: sextet): byte {
    if v < 26 then 65 + v          // A-Z
    else if v < 52 then 71 + v     // a-z
    else if v < 62 then v - 4      // 0-9
    else if v == 62 then 45        // -
    else 95                        // _
  }

  predicate IsSymbol(c: byte) {
    65 <= c <= 90 || 97 <= c <= 122 || 48 <= c <= 57 || c == 45 || c == 95
  }

  function Value(c: byte): sextet
    requires IsSymbol(c)
  {
    if 65 <= c <= 90 then c - 65
    else if 97 <= c <= 122 then c - 71
    else if 48 <= c <= 57 then c + 4
    else if c == 45 then 62
    else 63
  }

  predicate AllSymbols(s: Text) { forall i :: 0 <= i < |s| ==> IsSymbol(s[i]) }

  function Symbols(v: seq<sextet>): (s: Text)
    ensures |s| == |v| && AllSymbols(s)
  {
    seq(|v|, i requires 0 <= i < |v| => Symbol(v[i]))
  }

  function Values(s: Text): (v: seq<sextet>)
    requires AllSymbols(s)
    ensures |v| == |s|
  {
    seq(|s|, i requires 0 <= i < |s| => Value(s[i]))
  }

  // Three bytes are four sextets, most significant bits first.
  function Group(x: byte, y: byte, z: byte): (v: seq<sextet>)
    ensures |v| == 4
  {
    [x / 4, x % 4 * 16 + y / 16, y % 16 * 4 + z / 64, z % 64]
  }

  function Ungroup(a: sextet, b: sextet, c: sextet, d: sextet): (s: seq<byte>)
    ensures |s| == 3
  {
    var i, j, k, l: int := a, b, c, d;
    [i * 4 + j / 16, j % 16 * 16 + k / 4, k % 4 * 64 + l]
  }

  // One or two bytes left over become two or three sextets, padded with zero bits.
  function ToSextets(b: seq<byte>): seq<sextet> {
    if b == [] then []
    else if |b| == 1 then Group(b[0], 0, 0)[..2]
    else if |b| == 2 then Group(b[0], b[1], 0)[..3]
    else Group(b[0], b[1], b[2]) + ToSextets(b[3..])
  }

  function FromSextets(v: seq<sextet>): Option<seq<byte>> {
    if v == [] then Some([])
    else if |v| == 1 then None
    else if |v| == 2 then Some(Ungroup(v[0], v[1], 0, 0)[..1])
    else if |v| == 3 then Some(Ungroup(v[0], v[1], v[2], 0)[..2])
    else
      match FromSextets(v[4..])
      case None => None
      case Some(rest) => Some(Ungroup(v[0], v[1], v[2], v[3]) + rest)
  }

  function Encode(b: seq<byte>): Text { Symbols(ToSextets(b)) }

  function SkipLineBreaks(s: Text): Text {
    if s == [] then []
    else (if s[0] == NEWLINE || s[0] == RETURN then [] else [s[0]]) + SkipLineBreaks(s[1..])
  }

  function Decode(s: Text): Option<seq<byte>> {
    var t := SkipLineBreaks(s);
    if AllSymbols(t) then FromSextets(Values(t)) else None
  }

  lemma GroupRoundTrip(x: byte, y: byte, z: byte)
    ensures var v := Group(x, y, z); Ungroup(v[0], v[1], v[2], v[3]) == [x, y, z]
  {
  }

  lemma UngroupRoundTrip(a: sextet, b: sextet, c: sextet, d: sextet)
    ensures var s := Ungroup(a, b, c, d); Group(s[0], s[1], s[2]) == [a, b, c, d]
  {
    var i, j, k, l: int := a, b, c, d;
    var x, y, z := i * 4 + j / 16, j % 16 * 16 + k / 4, k % 4 * 64 + l;
    assert x / 4 == i && x % 4 == j / 16;
    assert y / 16 == j % 16 && y % 16 == k / 4;
    assert z / 64 == k % 4 && z % 64 == l;
  }

  lemma {:induction false} SextetsRoundTrip(b: seq<byte>)
    ensures FromSextets(ToSextets(b)) == Some(b)
  {
    if |b| == 1 {
      GroupRoundTrip(b[0], 0, 0);
      assert b == [b[0], 0, 0][..1];
    } else if |b| == 2 {
      GroupRoundTrip(b[0], b[1], 0);
      assert b == [b[0], b[1], 0][..2];
    } else if |b| >= 3 {
      SextetsRoundTrip(b[3..]);
      GroupRoundTrip(b[0], b[1], b[2]);
      assert ToSextets(b)[4..] == ToSextets(b[3..]);
      assert b == [b[0], b[1], b[2]] + b[3..];
    }
  }

  lemma SymbolsRoundTrip(v: seq<sextet>)
    ensures Values(Symbols(v)) == v
  {
  }

  lemma {:induction false} SkipNothing(s: Text)
    requires AllSymbols(s)
    ensures SkipLineBreaks(s) == s
  {
    if s != [] {
      SkipNothing(s[1..]);
      assert s == [s[0]] + s[1..];
    }
  }

  lemma {:induction false} SkipTrailing(s: Text, c: byte)
    requires c == NEWLINE || c == RETURN
    ensures SkipLineBreaks(s + [c]) == SkipLineBreaks(s)
  {
    if s == [] {
      assert (s + [c])[1..] == [];
    } else {
      SkipTrailing(s[1..], c);
      assert (s + [c])[1..] == s[1..] + [c];
    }
  }

  lemma EncodeSymbols(b: seq<byte>)
    ensures AllSymbols(Encode(b))
    ensures DOT !in Encode(b) && NEWLINE !in Encode(b)
  {
  }

  // Decoding undoes encoding for all three length residues.
  lemma RoundTrip(b: seq<byte>)
    ensures Decode(Encode(b)) == Some(b)
  {
    SkipNothing(Encode(b));
    SymbolsRoundTrip(ToSextets(b));
    SextetsRoundTrip(b);
  }

  lemma {:induction false} EncodedLength(b: seq<byte>)
    ensures |Encode(b)| == (4 * |b| + 2) / 3
  {
    if |b| >= 3 {
      EncodedLength(b[3..]);
    }
  }

  // The bits of the last symbol that carry no data (section 3.5 of RFC 4648).
  predicate TrailingBitsClear(v: seq<sextet>) {
    && (|v| % 4 == 2 ==> v[|v| - 1] % 16 == 0)
    && (|v| % 4 == 3 ==> v[|v| - 1] % 4 == 0)
  }

  predicate Canonical(s: Text) { AllSymbols(s) && TrailingBitsClear(Values(s)) }

  lemma GroupFirst(x: byte, y: byte, z: byte, rest: seq<byte>)
    ensures ToSextets([x, y, z] + rest) == Group(x, y, z) + ToSextets(rest)
  {
    assert ([x, y, z] + rest)[3..] == rest;
  }

  lemma SamePrefix(v: seq<sextet>, w: seq<sextet>)
    requires |v| >= 4
    ensures [v[0], v[1], v[2], v[3]] + w == v <==> w == v[4..]
  {
    assert ([v[0], v[1], v[2], v[3]] + w)[4..] == w;
    assert v == [v[0], v[1], v[2], v[3]] + v[4..];
  }

  lemma GroupCanonical(v: seq<sextet>)
    requires |v| >= 4 && FromSextets(v).Some?
    ensures ToSextets(FromSextets(v).value) == v <==> ToSextets(FromSextets(v[4..]).value) == v[4..]
  {
    var s, rest := Ungroup(v[0], v[1], v[2], v[3]), FromSextets(v[4..]).value;
    GroupFirst(s[0], s[1], s[2], rest);
    UngroupRoundTrip(v[0], v[1], v[2], v[3]);
    SamePrefix(v, ToSextets(rest));
    assert s == [s[0], s[1], s[2]];
  }

  lemma {:induction false} SextetsCanonical(v: seq<sextet>)
    requires FromSextets(v).Some?
    ensures ToSextets(FromSextets(v).value) == v <==> TrailingBitsClear(v)
  {
    if |v| >= 4 {
      SextetsCanonical(v[4..]);
      GroupCanonical(v);
      TrailingBitsOfTail(v);
    } else if |v| == 2 {
      assert v == [v[0], v[1]];
      TwoSextets(v[0], v[1]);
    } else if |v| == 3 {
      assert v == [v[0], v[1], v[2]];
      ThreeSextets(v[0], v[1], v[2]);
    }
  }

  lemma TrailingBitsOfTail(v: seq<sextet>)
    requires |v| >= 4
    ensures TrailingBitsClear(v) <==> TrailingBitsClear(v[4..])
  {
  }

  // Decoding two or three sextets and encoding again clears the trailing bits.
  lemma TwoSextets(a: sextet, b: sextet)
    ensures ToSextets(FromSextets([a, b]).value) == [a, b / 16 * 16]
    ensures [a, b / 16 * 16] == [a, b] <==> TrailingBitsClear([a, b])
  {
    var x := Ungroup(a, b, 0, 0)[0];
    assert FromSextets([a, b]).value == [x];
    assert Group(x, 0, 0)[..2] == [x / 4, x % 4 * 16];
    var i, j: int := a, b;
    assert x == i * 4 + j / 16;
    assert [a, b][1] == b && [a, b / 16 * 16][1] == b / 16 * 16;
  }

  lemma ThreeSextets(a: sextet, b: sextet, c: sextet)
    ensures ToSextets(FromSextets([a, b, c]).value) == [a, b, c / 4 * 4]
    ensures [a, b, c / 4 * 4] == [a, b, c] <==> TrailingBitsClear([a, b, c])
  {
    var s := Ungroup(a, b, c, 0);
    var x, y := s[0], s[1];
    assert FromSextets([a, b, c]).value == [x, y];
    assert Group(x, y, 0)[..3] == [x / 4, x % 4 * 16 + y / 16, y % 16 * 4];
    UngroupRoundTrip(a, b, c, 0);
    assert Group(x, y, s[2])[..2] == Group(x, y, 0)[..2];
    var j, k: int := b, c;
    assert y == j % 16 * 16 + k / 4;
    assert y % 16 == k / 4;
    assert [a, b, c][2] == c && [a, b, c / 4 * 4][2] == c / 4 * 4;
  }

  // Re-encoding what was decoded gives the text back exactly when the text is canonical.
  lemma DecodeEncodeCanonical(s: Text)
    requires Decode(s).Some?
    ensures Encode(Decode(s).value) == s <==> Canonical(s)
  {
    if AllSymbols(s) {
      SkipNothing(s);
      var v := Values(s);
      SextetsCanonical(v);
      assert Symbols(v) == s;
      SymbolsRoundTrip(ToSextets(Decode(s).value));
    } else {
      EncodeSymbols(Decode(s).value);
    }
  }
}

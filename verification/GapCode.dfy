// The byte language of version 1 and its decoder. The first byte is a window, which may be
// empty; after it, a nonzero byte is a window and `0, k` stands for k - 1 empty windows and must
// be followed by a nonzero window.
module GapCode {
  import opened Words

  const LONGEST_GAP: byte := 255

  function Decode(d: seq<byte>): Option<seq<byte>> {
    if d == [] then None
    else
      match DecodeTail(d[1..])
      case None => None
      case Some(t) => Some([d[0]] + t)
  }

  function DecodeTail(d: seq<byte>): Option<seq<byte>> {
    if d == [] then Some([])
    else if d[0] != 0 then
      match DecodeTail(d[1..])
      case None => None
      case Some(t) => Some([d[0]] + t)
    else if |d| >= 3 && d[1] >= 2 && d[2] != 0 then
      match DecodeTail(d[3..])
      case None => None
      case Some(t) => Some(Windows(d[1] - 1, d[2]) + t)
    else None
  }

  function LeadingZeros(t: seq<byte>): (n: nat)
    ensures n <= |t| && (n < |t| ==> t[n] != 0)
    ensures forall i :: 0 <= i < n ==> t[i] == 0
  {
    if t == [] || t[0] != 0 then 0 else 1 + LeadingZeros(t[1..])
  }

  // A window sequence has an encoding when it does not end in empty windows and every silence
  // between two windows is short enough for one gap byte.
  predicate Encodable(t: seq<byte>) { t != [] && EncodableTail(t[1..]) }

  predicate EncodableTail(t: seq<byte>) {
    t == [] ||
    var n := LeadingZeros(t);
    n < |t| && n < LONGEST_GAP && EncodableTail(t[n + 1..])
  }

  // A silence of gap windows and the window that ends it, encoded and decoded.
  function Token(gap: nat, w: byte): seq<byte>
    requires gap < LONGEST_GAP
  {
    if gap == 0 then [w] else [0, gap + 1, w]
  }

  function Windows(gap: nat, w: byte): (t: seq<byte>)
    ensures |t| == gap + 1 && t[gap] == w
  {
    Zeros(gap) + [w]
  }

  function Encode(t: seq<byte>): seq<byte>
    requires Encodable(t)
  {
    [t[0]] + EncodeTail(t[1..])
  }

  function EncodeTail(t: seq<byte>): seq<byte>
    requires EncodableTail(t)
  {
    if t == [] then []
    else
      var n := LeadingZeros(t);
      Token(n, t[n]) + EncodeTail(t[n + 1..])
  }

  lemma DecodeToken(gap: nat, w: byte, rest: seq<byte>)
    requires gap < LONGEST_GAP && w != 0
    requires DecodeTail(rest).Some?
    ensures DecodeTail(Token(gap, w) + rest) == Some(Windows(gap, w) + DecodeTail(rest).value)
  {
    var d := Token(gap, w) + rest;
    if gap == 0 {
      assert d[1..] == rest;
      assert Windows(gap, w) == [w];
    } else {
      assert d[3..] == rest;
    }
  }

  // A decodable tail starts with a token.
  lemma FirstToken(d: seq<byte>) returns (gap: nat, w: byte, rest: seq<byte>)
    requires DecodeTail(d).Some? && d != []
    ensures gap < LONGEST_GAP && w != 0 && d == Token(gap, w) + rest && |rest| < |d|
    ensures DecodeTail(rest).Some?
    ensures DecodeTail(d) == Some(Windows(gap, w) + DecodeTail(rest).value)
  {
    if d[0] == 0 {
      gap, w, rest := d[1] - 1, d[2], d[3..];
    } else {
      gap, w, rest := 0, d[0], d[1..];
    }
    assert d == Token(gap, w) + rest;
    DecodeToken(gap, w, rest);
  }

  lemma FirstWindows(gap: nat, w: byte, t: seq<byte>)
    requires w != 0
    ensures LeadingZeros(Windows(gap, w) + t) == gap
    ensures (Windows(gap, w) + t)[gap + 1..] == t
  {
    var s := Windows(gap, w) + t;
    assert s[gap] == w;
    assert forall i :: 0 <= i < gap ==> s[i] == 0;
  }

  lemma SplitAfterSilence(t: seq<byte>, n: nat)
    requires n < |t| && forall i :: 0 <= i < n ==> t[i] == 0
    ensures t == Windows(n, t[n]) + t[n + 1..]
  {
    assert t[..n] == Zeros(n);
  }

  lemma {:induction false} EncodeTailDecodes(t: seq<byte>)
    requires EncodableTail(t)
    ensures DecodeTail(EncodeTail(t)) == Some(t)
  {
    if t != [] {
      var n := LeadingZeros(t);
      var w, rest := t[n], t[n + 1..];
      EncodeTailDecodes(rest);
      var e := EncodeTail(rest);
      assert EncodeTail(t) == Token(n, w) + e;
      DecodeToken(n, w, e);
      SplitAfterSilence(t, n);
    }
  }

  lemma {:induction false} DecodeTailEncodes(d: seq<byte>)
    requires DecodeTail(d).Some?
    ensures EncodableTail(DecodeTail(d).value) && EncodeTail(DecodeTail(d).value) == d
    decreases |d|
  {
    if d != [] {
      var gap, w, rest := FirstToken(d);
      DecodeTailEncodes(rest);
      FirstWindows(gap, w, DecodeTail(rest).value);
    }
  }

  // Encoding and decoding are inverse bijections between encodable window sequences and
  // well-formed byte strings.
  lemma RoundTrip(t: seq<byte>)
    requires Encodable(t)
    ensures Decode(Encode(t)) == Some(t)
  {
    EncodeTailDecodes(t[1..]);
    assert Encode(t)[1..] == EncodeTail(t[1..]);
    assert t == [t[0]] + t[1..];
  }

  lemma DecodeEncodes(d: seq<byte>)
    requires Decode(d).Some?
    ensures Encodable(Decode(d).value) && Encode(Decode(d).value) == d
  {
    DecodeTailEncodes(d[1..]);
    assert Decode(d).value[1..] == DecodeTail(d[1..]).value;
    assert d == [d[0]] + d[1..];
  }

  lemma ConcatAssociates(a: seq<byte>, b: seq<byte>, c: seq<byte>)
    ensures (a + b) + c == a + (b + c)
  {
  }

  lemma {:induction false} DecodeTailConcat(a: seq<byte>, b: seq<byte>)
    requires DecodeTail(a).Some? && DecodeTail(b).Some?
    ensures DecodeTail(a + b) == Some(DecodeTail(a).value + DecodeTail(b).value)
    decreases |a|
  {
    if a == [] {
      assert a + b == b;
      assert [] + DecodeTail(b).value == DecodeTail(b).value;
    } else {
      var gap, w, rest := FirstToken(a);
      DecodeTailConcat(rest, b);
      var t, u, v := Windows(gap, w), DecodeTail(rest).value, DecodeTail(b).value;
      ConcatAssociates(Token(gap, w), rest, b);
      ConcatAssociates(t, u, v);
      DecodeToken(gap, w, rest + b);
    }
  }

  // Appending a token appends its windows.
  lemma AppendToken(d: seq<byte>, gap: nat, w: byte)
    requires Decode(d).Some? && gap < LONGEST_GAP && w != 0
    ensures Decode(d + Token(gap, w)) == Some(Decode(d).value + Windows(gap, w))
  {
    var token, t := Token(gap, w), Windows(gap, w);
    DecodeToken(gap, w, []);
    assert token + [] == token && t + [] == t;
    DecodeTailConcat(d[1..], token);
    assert (d + token)[1..] == d[1..] + token;
    ConcatAssociates([d[0]], DecodeTail(d[1..]).value, t);
  }

  lemma SetLast(t: seq<byte>, u: seq<byte>, w: byte)
    requires u != []
    ensures var s: seq<byte> := t + u; s[|s| - 1 := w] == t + u[|u| - 1 := w]
  {
  }

  ghost predicate LastReplaceable(d: seq<byte>, w: byte)
    requires d != [] && DecodeTail(d).Some?
  {
    var t := DecodeTail(d).value;
    && t != [] && t[|t| - 1] == d[|d| - 1]
    && DecodeTail(d[|d| - 1 := w]) == Some(t[|t| - 1 := w])
  }

  lemma LastTokenReplaceable(gap: nat, v: byte, w: byte)
    requires gap < LONGEST_GAP && v != 0 && w != 0
    ensures DecodeTail(Token(gap, v)).Some? && LastReplaceable(Token(gap, v), w)
  {
    var d := Token(gap, v);
    DecodeToken(gap, v, []);
    DecodeToken(gap, w, []);
    assert d + [] == d && d[|d| - 1 := w] == Token(gap, w) + [];
    assert Windows(gap, v) + [] == Windows(gap, v);
    assert Windows(gap, w) + [] == Windows(gap, v)[gap := w];
  }

  lemma EarlierTokenKept(gap: nat, v: byte, rest: seq<byte>, w: byte)
    requires gap < LONGEST_GAP && v != 0
    requires rest != [] && DecodeTail(rest).Some? && LastReplaceable(rest, w)
    ensures DecodeTail(Token(gap, v) + rest).Some? && LastReplaceable(Token(gap, v) + rest, w)
  {
    DecodeToken(gap, v, rest);
    DecodeToken(gap, v, rest[|rest| - 1 := w]);
    SetLast(Token(gap, v), rest, w);
    SetLast(Windows(gap, v), DecodeTail(rest).value, w);
  }

  lemma {:induction false} ReplaceTailLast(d: seq<byte>, w: byte)
    requires DecodeTail(d).Some? && d != [] && w != 0
    ensures LastReplaceable(d, w)
    decreases |d|
  {
    var gap, v, rest := FirstToken(d);
    if rest == [] {
      assert d == Token(gap, v);
      LastTokenReplaceable(gap, v, w);
    } else {
      ReplaceTailLast(rest, w);
      EarlierTokenKept(gap, v, rest, w);
    }
  }

  // The last byte is always a window, so refilling it refills the last window.
  lemma ReplaceLast(d: seq<byte>, w: byte)
    requires Decode(d).Some? && w != 0
    ensures Decode(d).value[|Decode(d).value| - 1] == d[|d| - 1]
    ensures Decode(d[|d| - 1 := w]) == Some(Decode(d).value[|Decode(d).value| - 1 := w])
  {
    var d' := d[|d| - 1 := w];
    if |d| == 1 {
      assert d[1..] == [] && d'[1..] == [];
      var t, t' := Decode(d).value, Decode(d').value;
      assert t == [d[0]] && t' == [w];
      assert t' == t[|t| - 1 := w];
    } else {
      ReplaceTailLast(d[1..], w);
      assert d'[1..] == d[1..][|d| - 2 := w];
      SetLast([d[0]], DecodeTail(d[1..]).value, w);
    }
  }
}

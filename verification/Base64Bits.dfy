// Which texts base64url decoding accepts and what it makes of them, bit by bit.
module Base64Bits {
  import opened Words
  import opened Base64

  // The alphabet of section 5 of RFC 4648.
  function Letter(v: sextet): byte {
    if v < 26 then 'A' as int + v
    else if v < 52 then 'a' as int + (v - 26)
    else if v < 62 then '0' as int + (v - 52)
    else if v == 62 then '-' as int
    else '_' as int
  }

  function Spelled(v: seq<sextet>): (t: Text)
    ensures |t| == |v|
  {
    seq(|v|, i requires 0 <= i < |v| => Letter(v[i]))
  }

  // The low bits of a number, most significant first.
  function Bits(n: nat, width: nat): (bits: seq<bool>)
    ensures |bits| == width
  {
    if width == 0 then [] else Bits(n / 2, width - 1) + [n % 2 == 1]
  }

  function SextetBits(v: seq<sextet>): (bits: seq<bool>)
    ensures |bits| == 6 * |v|
  {
    if v == [] then [] else Bits(v[0], 6) + SextetBits(v[1..])
  }

  function ByteBits(b: seq<byte>): (bits: seq<bool>)
    ensures |bits| == 8 * |b|
  {
    if b == [] then [] else Bits(b[0], 8) + ByteBits(b[1..])
  }

  function Pow2(k: nat): (p: nat)
    ensures p >= 1
  {
    if k == 0 then 1 else 2 * Pow2(k - 1)
  }

  lemma HalfOfSum(high: nat, p: nat, low: nat)
    ensures (high * (2 * p) + low) / 2 == high * p + low / 2 && (high * (2 * p) + low) % 2 == low % 2
  {
    assert high * (2 * p) == 2 * (high * p);
  }

  // A number put together from two parts has the bits of both.
  lemma {:induction false} BitsJoined(high: nat, low: nat, width: nat, k: nat)
    requires low < Pow2(k)
    ensures Bits(high * Pow2(k) + low, width + k) == Bits(high, width) + Bits(low, k)
    decreases k
  {
    if k == 0 {
      assert Bits(high, width) + [] == Bits(high, width);
    } else {
      HalfOfSum(high, Pow2(k - 1), low);
      BitsJoined(high, low / 2, width, k - 1);
    }
  }

  // A byte of six bits and two, of four and four, of two and six.
  lemma FirstByte(a: sextet, t: nat, s: int)
    requires t < 4 && var i: int := a; s == i * 4 + t
    ensures Bits(s, 8) == Bits(a, 6) + Bits(t, 2)
  {
    PowersOfTwo();
    BitsJoined(a, t, 6, 2);
  }

  lemma SecondByte(u: nat, w: nat, s: int)
    requires w < 16 && s == u * 16 + w
    ensures Bits(s, 8) == Bits(u, 4) + Bits(w, 4)
  {
    PowersOfTwo();
    BitsJoined(u, w, 4, 4);
  }

  lemma ThirdByte(t: nat, d: sextet, s: int)
    requires var l: int := d; s == t * 64 + l
    ensures Bits(s, 8) == Bits(t, 2) + Bits(d, 6)
  {
    PowersOfTwo();
    BitsJoined(t, d, 2, 6);
  }

  // A sextet of two bits and four, or of four and two.
  lemma TwoAndFour(v: sextet, t: nat, u: nat)
    requires u < 16 && var n: int := v; n == t * 16 + u
    ensures Bits(v, 6) == Bits(t, 2) + Bits(u, 4)
  {
    PowersOfTwo();
    BitsJoined(t, u, 2, 4);
  }

  lemma FourAndTwo(v: sextet, u: nat, t: nat)
    requires t < 4 && var n: int := v; n == u * 4 + t
    ensures Bits(v, 6) == Bits(u, 4) + Bits(t, 2)
  {
    PowersOfTwo();
    BitsJoined(u, t, 4, 2);
  }

  lemma PowersOfTwo()
    ensures Pow2(2) == 4 && Pow2(4) == 16 && Pow2(6) == 64
  {
    assert Pow2(3) == 8 && Pow2(5) == 32;
  }

  lemma ByteBitsFirst(x: byte, rest: seq<byte>)
    ensures ByteBits([x] + rest) == Bits(x, 8) + ByteBits(rest)
  {
    assert ([x] + rest)[1..] == rest;
  }

  lemma SextetBitsFrom(v: seq<sextet>, k: nat)
    requires k < |v|
    ensures SextetBits(v[k..]) == Bits(v[k], 6) + SextetBits(v[k + 1..])
  {
    assert v[k..][1..] == v[k + 1..];
  }

  lemma Regrouped(a: seq<bool>, b: seq<bool>, b': seq<bool>, c: seq<bool>, c': seq<bool>, d: seq<bool>, rest: seq<bool>)
    ensures (a + b) + ((b' + c) + ((c' + d) + rest)) == a + ((b + b') + ((c + c') + d)) + rest
  {
  }

  lemma Appended(a: seq<bool>, b: seq<bool>, c: seq<bool>, d: seq<bool>, rest: seq<bool>)
    ensures a + (b + (c + (d + rest))) == a + (b + (c + d)) + rest
  {
  }

  // The bits of the first four sextets.
  function GroupBits(a: sextet, b: sextet, c: sextet, d: sextet): (bits: seq<bool>)
    ensures |bits| == 24
  {
    Bits(a, 6) + (Bits(b, 6) + (Bits(c, 6) + Bits(d, 6)))
  }

  // Three bytes have the bits of the four sextets they came from.
  lemma PartsJoined(a: sextet, b: sextet, c: sextet, d: sextet, b1: nat, b2: nat, c1: nat, c2: nat, s: seq<byte>, rest: seq<byte>)
    requires b2 < 16 && c2 < 4 && b1 < 4 && c1 < 16 && |s| == 3
    requires var i, j, k, l: int := a, b, c, d;
             && j == b1 * 16 + b2 && k == c1 * 4 + c2
             && s[0] == i * 4 + b1 && s[1] == b2 * 16 + c1 && s[2] == c2 * 64 + l
    ensures Bits(s[0], 8) + (Bits(s[1], 8) + (Bits(s[2], 8) + ByteBits(rest))) == GroupBits(a, b, c, d) + ByteBits(rest)
  {
    FirstByte(a, b1, s[0]);
    SecondByte(b2, c1, s[1]);
    ThirdByte(c2, d, s[2]);
    TwoAndFour(b, b1, b2);
    FourAndTwo(c, c1, c2);
    Regrouped(Bits(a, 6), Bits(b1, 2), Bits(b2, 4), Bits(c1, 4), Bits(c2, 2), Bits(d, 6), ByteBits(rest));
  }

  lemma GroupBytes(a: sextet, b: sextet, c: sextet, d: sextet, rest: seq<byte>)
    ensures ByteBits(Ungroup(a, b, c, d) + rest) == GroupBits(a, b, c, d) + ByteBits(rest)
  {
    var s := Ungroup(a, b, c, d);
    assert s + rest == [s[0]] + ([s[1]] + ([s[2]] + rest));
    ByteBitsFirst(s[0], [s[1]] + ([s[2]] + rest));
    ByteBitsFirst(s[1], [s[2]] + rest);
    ByteBitsFirst(s[2], rest);
    var j, k: int := b, c;
    PartsJoined(a, b, c, d, j / 16, j % 16, k / 4, k % 4, s, rest);
  }

  lemma GroupSextets(v: seq<sextet>)
    requires |v| >= 4
    ensures SextetBits(v) == GroupBits(v[0], v[1], v[2], v[3]) + SextetBits(v[4..])
  {
    assert v[0..] == v;
    SextetBitsFrom(v, 0);
    SextetBitsFrom(v, 1);
    SextetBitsFrom(v, 2);
    SextetBitsFrom(v, 3);
    Appended(Bits(v[0], 6), Bits(v[1], 6), Bits(v[2], 6), Bits(v[3], 6), SextetBits(v[4..]));
  }

  lemma PrefixAfter(a: seq<bool>, b: seq<bool>, n: nat)
    requires n <= |b|
    ensures a + b[..n] == (a + b)[..|a| + n]
  {
  }

  // The whole bytes of some sextets.
  ghost predicate WholeBytes(v: seq<sextet>, b: seq<byte>) {
    |b| == 6 * |v| / 8 && ByteBits(b) == SextetBits(v)[..8 * |b|]
  }

  lemma GroupDecodes(v: seq<sextet>, rest: seq<byte>)
    requires |v| >= 4 && WholeBytes(v[4..], rest)
    ensures WholeBytes(v, Ungroup(v[0], v[1], v[2], v[3]) + rest)
  {
    GroupBytes(v[0], v[1], v[2], v[3], rest);
    GroupSextets(v);
    PrefixAfter(GroupBits(v[0], v[1], v[2], v[3]), SextetBits(v[4..]), 8 * |rest|);
  }

  // Sextets decode exactly when they are not one more than a multiple of four, to the whole bytes
  // of their bits; the bits left over do not matter.
  lemma SextetsDecode(v: seq<sextet>)
    ensures FromSextets(v).None? <==> |v| % 4 == 1
    ensures FromSextets(v).Some? ==> WholeBytes(v, FromSextets(v).value)
  {
    RefusedExactly(v);
    DecodedWhole(v);
  }

  lemma {:induction false} RefusedExactly(v: seq<sextet>)
    ensures FromSextets(v).None? <==> |v| % 4 == 1
  {
    if |v| >= 4 {
      RefusedExactly(v[4..]);
    }
  }

  lemma {:induction false} DecodedWhole(v: seq<sextet>)
    ensures FromSextets(v).Some? ==> WholeBytes(v, FromSextets(v).value)
  {
    if |v| >= 4 {
      DecodedWhole(v[4..]);
      if FromSextets(v[4..]).Some? {
        GroupDecodes(v, FromSextets(v[4..]).value);
      }
    } else if |v| == 2 {
      PaddedDecodes(v, [0, 0]);
    } else if |v| == 3 {
      PaddedDecodes(v, [0]);
    }
  }

  lemma SextetBitsPrefix(v: seq<sextet>, w: seq<sextet>)
    ensures SextetBits(v) <= SextetBits(v + w)
  {
    if v != [] {
      SextetBitsPrefix(v[1..], w);
      assert (v + w)[1..] == v[1..] + w;
    }
  }

  lemma ByteBitsPrefix(b: seq<byte>, n: nat)
    requires n <= |b|
    ensures ByteBits(b[..n]) == ByteBits(b)[..8 * n]
  {
    if n > 0 {
      ByteBitsPrefix(b[1..], n - 1);
      assert b[..n][1..] == b[1..][..n - 1];
    }
  }

  // Two or three sextets are filled up with zeros and cut off again.
  lemma PaddedDecodes(v: seq<sextet>, zeros: seq<sextet>)
    requires 2 <= |v| < 4 && |v + zeros| == 4 && forall i :: 0 <= i < |zeros| ==> zeros[i] == 0
    ensures FromSextets(v).Some? && WholeBytes(v, FromSextets(v).value)
  {
    var w, n := v + zeros, |v| - 1;
    var s := Ungroup(w[0], w[1], w[2], w[3]);
    assert FromSextets(v).value == s[..n];
    GroupBytes(w[0], w[1], w[2], w[3], []);
    assert s + [] == s && ByteBits(s) == GroupBits(w[0], w[1], w[2], w[3]) + [];
    GroupSextets(w);
    SextetBitsPrefix(v, zeros);
    ByteBitsPrefix(s, n);
  }

  // ----- Texts -----

  // A text with line breaks inserted anywhere.
  predicate Broken(s: Text, t: Text) {
    if s == [] then t == []
    else if s[0] == 10 || s[0] == 13 then Broken(s[1..], t)
    else t != [] && s[0] == t[0] && Broken(s[1..], t[1..])
  }

  lemma {:induction false} BrokenSkips(s: Text, t: Text)
    requires Broken(s, t)
    ensures SkipLineBreaks(s) == t
  {
    if s != [] {
      if s[0] == 10 || s[0] == 13 {
        BrokenSkips(s[1..], t);
      } else {
        BrokenSkips(s[1..], t[1..]);
        assert t == [t[0]] + t[1..];
      }
    }
  }

  lemma LetterIsSymbol(v: sextet)
    ensures Letter(v) == Symbol(v) && IsSymbol(Letter(v)) && Value(Letter(v)) == v
  {
  }

  lemma SymbolIsLetter(c: byte)
    requires IsSymbol(c)
    ensures exists v: sextet :: Letter(v) == c
  {
    assert Letter(Value(c)) == c;
  }

  lemma SpelledValues(v: seq<sextet>)
    ensures AllSymbols(Spelled(v)) && Values(Spelled(v)) == v
  {
    forall i | 0 <= i < |v|
      ensures IsSymbol(Spelled(v)[i]) && Value(Spelled(v)[i]) == v[i]
    {
      LetterIsSymbol(v[i]);
    }
  }

  // Letters, line breaks inserted anywhere, decode unless there is one more than a multiple of
  // four, to the whole bytes of their bits.
  lemma DecodeMeaning(s: Text, v: seq<sextet>)
    requires Broken(s, Spelled(v))
    ensures Decode(s).None? <==> |v| % 4 == 1
    ensures Decode(s).Some? ==>
              |Decode(s).value| == 6 * |v| / 8
              && ByteBits(Decode(s).value) == SextetBits(v)[..8 * (6 * |v| / 8)]
  {
    BrokenSkips(s, Spelled(v));
    SpelledValues(v);
    SextetsDecode(v);
  }

  // Any other byte is refused.
  lemma DecodeRefuses(s: Text, i: nat)
    requires i < |s| && s[i] != 10 && s[i] != 13 && forall v: sextet :: Letter(v) != s[i]
    ensures Decode(s) == None
  {
    KeptBySkipping(s, i);
    if IsSymbol(s[i]) {
      SymbolIsLetter(s[i]);
      assert false;
    }
  }

  lemma {:induction false} KeptBySkipping(s: Text, i: nat)
    requires i < |s| && s[i] != 10 && s[i] != 13
    ensures s[i] in SkipLineBreaks(s)
  {
    if i > 0 {
      KeptBySkipping(s[1..], i - 1);
    }
  }

  // And every text is of one kind or the other.
  lemma {:induction false} EveryText(s: Text) returns (v: seq<sextet>)
    requires forall i :: 0 <= i < |s| ==> s[i] == 10 || s[i] == 13 || exists v: sextet :: Letter(v) == s[i]
    ensures Broken(s, Spelled(v))
  {
    if s == [] {
      v := [];
    } else {
      assert forall i :: 0 <= i < |s[1..]| ==> s[1..][i] == s[i + 1];
      v := EveryText(s[1..]);
      if s[0] != 10 && s[0] != 13 {
        var first: sextet :| Letter(first) == s[0];
        var rest := v;
        v := [first] + rest;
        assert Spelled(v)[1..] == Spelled(rest);
      }
    }
  }
}

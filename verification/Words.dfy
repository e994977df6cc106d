// Machine integers, byte strings and the little-endian layout that every binary format of the
// program uses.
module Words {
  type byte = n: int | 0 <= n < 0x100
  type uint16 = n: int | 0 <= n < 0x1_0000
  type uint32 = n: int | 0 <= n < 0x1_0000_0000
  type uint64 = n: int | 0 <= n < 0x1_0000_0000_0000_0000
  type int32 = n: int | -0x8000_0000 <= n < 0x8000_0000
  type int64 = n: int | -0x8000_0000_0000_0000 <= n < 0x8000_0000_0000_0000

  // A Go string is a sequence of bytes, so text and binary data share one type.
  type Text = seq<byte>

  const MAX_INT64: int64 := 0x7fff_ffff_ffff_ffff
  const MAX_UINT64: uint64 := 0xffff_ffff_ffff_ffff

  const NEWLINE: byte := 10
  const RETURN: byte := 13
  const DOT: byte := 46
  const ZERO_DIGIT: byte := 48

  datatype Option<+T> = None | Some(value: T)

  datatype Result<+T, +E> = Ok(value: T) | Err(error: E)

  function Max(a: int, b: int): int { if a < b then b else a }

  function Min(a: int, b: int): int { if a < b then a else b }

  function Zeros(n: nat): (z: seq<byte>)
    ensures |z| == n && forall i :: 0 <= i < n ==> z[i] == 0
  {
    seq(n, _ => 0)
  }

  // The least significant byte comes first; bits beyond the width are dropped.
  function LittleEndian(n: nat, width: nat): (b: seq<byte>)
    ensures |b| == width
  {
    if width == 0 then [] else [n % 256] + LittleEndian(n / 256, width - 1)
  }

  function FromLittleEndian(b: seq<byte>): nat {
    if b == [] then 0 else b[0] + 256 * FromLittleEndian(b[1..])
  }

  function Pow256(width: nat): (p: nat)
    ensures p >= 1
  {
    if width == 0 then 1 else 256 * Pow256(width - 1)
  }

  lemma {:induction false} LittleEndianDecodes(n: nat, width: nat)
    requires n < Pow256(width)
    ensures FromLittleEndian(LittleEndian(n, width)) == n
  {
    if width > 0 {
      LittleEndianDecodes(n / 256, width - 1);
      assert LittleEndian(n, width)[1..] == LittleEndian(n / 256, width - 1);
    }
  }

  lemma {:induction false} LittleEndianEncodes(b: seq<byte>)
    ensures FromLittleEndian(b) < Pow256(|b|)
    ensures LittleEndian(FromLittleEndian(b), |b|) == b
  {
    if b != [] {
      LittleEndianEncodes(b[1..]);
      var n := FromLittleEndian(b[1..]);
      assert (b[0] + 256 * n) % 256 == b[0] && (b[0] + 256 * n) / 256 == n;
      assert b == [b[0]] + b[1..];
    }
  }

  // The two's-complement reinterpretations uint64(x) and int64(u).
  function AsUint64(x: int64): uint64 { if x < 0 then x + 0x1_0000_0000_0000_0000 else x }

  function AsInt64(u: uint64): int64 {
    if u < 0x8000_0000_0000_0000 then u else u - 0x1_0000_0000_0000_0000
  }

  function PutUint64(u: uint64): (b: seq<byte>)
    ensures |b| == 8
  {
    LittleEndian(u, 8)
  }

  function GetUint64(b: seq<byte>): uint64
    requires |b| == 8
  {
    LittleEndianEncodes(b);
    assert Pow256(8) == 0x1_0000_0000_0000_0000;
    FromLittleEndian(b)
  }

  lemma Uint64RoundTrip(u: uint64)
    ensures GetUint64(PutUint64(u)) == u
  {
    assert Pow256(8) == 0x1_0000_0000_0000_0000;
    LittleEndianDecodes(u, 8);
  }
}

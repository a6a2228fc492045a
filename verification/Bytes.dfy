/** Bytes, and the fixed-width little-endian numbers of encoding/binary. */
module Bytes {

  type byte = x: int | 0 <= x < 0x100
  type bytes = seq<byte>
  type uint32 = x: int | 0 <= x < 0x1_0000_0000
  type int64 = x: int | -0x8000_0000_0000_0000 <= x < 0x8000_0000_0000_0000

  datatype Option<+T> = None | Some(value: T)

  function Pow256(width: nat): (p: nat)
    ensures p > 0
  {
    if width == 0 then 1 else 0x100 * Pow256(width - 1)
  }

  /** The low `width` bytes of `n`, least significant first. */
  function ToLE(n: nat, width: nat): (b: bytes)
    ensures |b| == width
  {
    if width == 0 then [] else [n % 0x100] + ToLE(n / 0x100, width - 1)
  }

  function FromLE(b: bytes): (n: nat)
    ensures n < Pow256(|b|)
  {
    if b == [] then 0 else b[0] + 0x100 * FromLE(b[1..])
  }

  lemma {:induction false} FromToLE(n: nat, width: nat)
    ensures n < Pow256(width) ==> FromLE(ToLE(n, width)) == n
  {
    if width == 0 {
    } else {
      FromToLE(n / 0x100, width - 1);
      assert ToLE(n, width)[1..] == ToLE(n / 0x100, width - 1);
    }
  }

  lemma SplitLow(low: byte, high: nat)
    ensures (low + 0x100 * high) % 0x100 == low && (low + 0x100 * high) / 0x100 == high
  {
  }

  lemma {:induction false} ToFromLE(b: bytes)
    ensures ToLE(FromLE(b), |b|) == b
  {
    if b == [] {
    } else {
      ToFromLE(b[1..]);
      SplitLow(b[0], FromLE(b[1..]));
      assert b == [b[0]] + b[1..];
    }
  }

  /** The number whose first byte counts ones, the second 256s, and so on. */
  function Number(b0: int, b1: int, b2: int, b3: int): int {
    b0 + 0x100 * b1 + 0x1_0000 * b2 + 0x100_0000 * b3
  }

  lemma FourBytes(b: bytes)
    requires |b| == 4
    ensures FromLE(b) == Number(b[0], b[1], b[2], b[3])
  {
    var b1, b2, b3 := b[1..], b[1..][1..], b[1..][1..][1..];
    assert b3[1..] == [] && FromLE(b3) == b[3];
    assert FromLE(b2) == b[2] + 0x100 * FromLE(b3);
    assert FromLE(b1) == b[1] + 0x100 * FromLE(b2);
  }

  lemma Pow256Values()
    ensures Pow256(4) == 0x1_0000_0000
    ensures Pow256(8) == 0x1_0000_0000_0000_0000
  {
    assert Pow256(2) == 0x1_0000;
    assert Pow256(4) == 0x1_0000_0000;
    assert Pow256(6) == 0x1_0000_0000_0000;
  }

  /** A signed 64-bit number as the unsigned number with the same bits. */
  function TwosComplement(t: int64): (n: nat)
    ensures n < 0x1_0000_0000_0000_0000
    ensures (n - t) % 0x1_0000_0000_0000_0000 == 0
  {
    if t < 0 then t + 0x1_0000_0000_0000_0000 else t
  }

  function FromTwosComplement(n: nat): (t: int64)
    requires n < 0x1_0000_0000_0000_0000
    ensures TwosComplement(t) == n
  {
    if n >= 0x8000_0000_0000_0000 then n - 0x1_0000_0000_0000_0000 else n
  }

  /** The bytes of a text of single-byte characters. */
  function Ascii(s: string): (b: bytes)
    ensures |b| == |s|
    ensures forall i :: 0 <= i < |s| && s[i] as int < 0x100 ==> b[i] == s[i] as int
  {
    seq(|s|, i requires 0 <= i < |s| => s[i] as int % 0x100)
  }
}

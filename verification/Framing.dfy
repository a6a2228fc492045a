/** The packets of a MySQL byte stream: a 3-byte little-endian length, a sequence id, and the payload. */
module Framing {
  import opened Bytes

  const HEADER_SIZE: nat := 4
  const MAX_PAYLOAD: nat := 0xff_ffff
  const MAX_PACKET_SIZE: nat := MAX_PAYLOAD + HEADER_SIZE

  function Pow2(k: nat): (p: nat)
    ensures p > 0
  {
    if k == 0 then 1 else 2 * Pow2(k - 1)
  }

  /** Bitwise or of unsigned numbers. */
  function BitOr(a: nat, b: nat): nat
    decreases a + b
  {
    if a == 0 && b == 0 then 0
    else (if a % 2 == 1 || b % 2 == 1 then 1 else 0) + 2 * BitOr(a / 2, b / 2)
  }

  /** The payload length a header announces, as the worker computes it: shifts and ors of its first three bytes. */
  function HeaderLength(header: bytes): nat
    requires |header| >= 3
  {
    BitOr(BitOr(header[0], header[1] * Pow2(8)), header[2] * Pow2(16))
  }

  lemma {:induction false} BitOrZero(b: nat)
    ensures BitOr(0, b) == b
    decreases b
  {
    if b > 0 {
      BitOrZero(b / 2);
    }
  }

  lemma {:induction false} BitOrShifted(a: nat, b: nat, k: nat)
    requires a < Pow2(k)
    ensures BitOr(a, b * Pow2(k)) == a + b * Pow2(k)
    decreases k
  {
    if k == 0 {
      BitOrZero(b);
    } else {
      var high := b * Pow2(k - 1);
      assert b * Pow2(k) == 2 * high by {
        assert b * (2 * Pow2(k - 1)) == 2 * (b * Pow2(k - 1));
      }
      BitOrShifted(a / 2, b, k - 1);
    }
  }

  lemma Pow2Values()
    ensures Pow2(8) == 0x100 && Pow2(16) == 0x1_0000
  {
    assert Pow2(4) == 0x10;
    assert Pow2(8) == 0x100;
    assert Pow2(12) == 0x1000;
  }

  /** The bit operations give the little-endian number, so never more than MAX_PAYLOAD. */
  lemma HeaderLengthIsLittleEndian(header: bytes)
    requires |header| >= 3
    ensures HeaderLength(header) == FromLE(header[..3]) <= MAX_PAYLOAD
  {
    var h0: nat, h1: nat, h2: nat := header[0], header[1], header[2];
    Pow2Values();
    BitOrShifted(h0, h1, 8);
    BitOrShifted(h0 + h1 * 0x100, h2, 16);
    hide BitOr, Pow2;
    var b := header[..3];
    assert b[1..][1..][1..] == [];
    assert FromLE(b[1..][1..]) == h2;
    assert FromLE(b[1..]) == h1 + 0x100 * h2;
  }

  // The reference framing

  /** A whole packet stands at the front of the stream. */
  predicate HasPacket(s: bytes) {
    |s| >= HEADER_SIZE && |s| >= HEADER_SIZE + HeaderLength(s)
  }

  function FirstPacket(s: bytes): (p: bytes)
    requires HasPacket(s)
    ensures HEADER_SIZE <= |p| <= |s|
  {
    s[..HEADER_SIZE + HeaderLength(s)]
  }

  predicate IsPacket(p: bytes) {
    HasPacket(p) && |p| == HEADER_SIZE + HeaderLength(p)
  }

  /** A packet is its header of four bytes and as many more as the first three of them say. */
  lemma PacketShape(p: bytes)
    ensures IsPacket(p) <==> |p| >= 4 && |p| == 4 + Number(p[0], p[1], p[2], 0)
    ensures HasPacket(p) <==> |p| >= 4 && |p| >= 4 + Number(p[0], p[1], p[2], 0)
  {
    if |p| >= 3 {
      HeaderLengthIsLittleEndian(p);
      ThreeBytes(p[..3]);
    }
    hide BitOr, Pow2;
  }

  lemma ThreeBytes(b: bytes)
    requires |b| == 3
    ensures FromLE(b) == Number(b[0], b[1], b[2], 0)
  {
    assert b[1..][1..][1..] == [];
    assert FromLE(b[1..][1..]) == b[2];
    assert FromLE(b[1..]) == b[1] + 0x100 * FromLE(b[1..][1..]);
  }

  function Packets(s: bytes): seq<bytes>
    decreases |s|
  {
    if HasPacket(s) then [FirstPacket(s)] + Packets(s[|FirstPacket(s)|..]) else []
  }

  /** What is left of the stream behind its last whole packet. */
  function Leftover(s: bytes): bytes
    decreases |s|
  {
    if HasPacket(s) then Leftover(s[|FirstPacket(s)|..]) else s
  }

  function Flatten(ps: seq<bytes>): bytes {
    if ps == [] then [] else ps[0] + Flatten(ps[1..])
  }

  lemma {:induction false} FlattenAppend(a: seq<bytes>, b: seq<bytes>)
    ensures Flatten(a + b) == Flatten(a) + Flatten(b)
  {
    if a == [] {
      assert a + b == b;
    } else {
      FlattenAppend(a[1..], b);
      assert (a + b)[1..] == a[1..] + b && (a + b)[0] == a[0];
      assert a[0] + (Flatten(a[1..]) + Flatten(b)) == (a[0] + Flatten(a[1..])) + Flatten(b);
    }
  }

  /** Which packet comes first does not depend on what follows it. */
  lemma FirstPacketOf(p: bytes, tail: bytes)
    requires IsPacket(p)
    ensures HasPacket(p + tail) && FirstPacket(p + tail) == p && (p + tail)[|p|..] == tail
  {
    hide BitOr, Pow2;
  }

  lemma FirstPacketIsPacket(s: bytes)
    requires HasPacket(s)
    ensures IsPacket(FirstPacket(s)) && s == FirstPacket(s) + s[|FirstPacket(s)|..]
  {
    hide BitOr, Pow2;
  }

  /** Framing loses and invents nothing, and each frame is a packet. */
  lemma {:induction false} PacketsPartitionStream(s: bytes)
    ensures Flatten(Packets(s)) + Leftover(s) == s
    ensures forall p :: p in Packets(s) ==> IsPacket(p)
    ensures !HasPacket(Leftover(s))
    decreases |s|
  {
    hide HasPacket, IsPacket, FirstPacket;
    if HasPacket(s) {
      var p := FirstPacket(s);
      FirstPacketIsPacket(s);
      var tail := s[|p|..];
      PacketsPartitionStream(tail);
      assert Packets(s)[1..] == Packets(tail);
      assert p + (Flatten(Packets(tail)) + Leftover(tail)) == (p + Flatten(Packets(tail))) + Leftover(tail);
    }
  }

  /** Any list of packets with an incomplete packet behind it frames as that list. */
  lemma {:induction false} PacketsAreUnique(ps: seq<bytes>, rest: bytes)
    requires forall p :: p in ps ==> IsPacket(p)
    requires !HasPacket(rest)
    ensures Packets(Flatten(ps) + rest) == ps && Leftover(Flatten(ps) + rest) == rest
  {
    hide HasPacket, IsPacket, FirstPacket;
    if ps == [] {
      assert [] + rest == rest;
    } else {
      var tail := Flatten(ps[1..]) + rest;
      assert Flatten(ps) + rest == ps[0] + tail;
      FirstPacketOf(ps[0], tail);
      PacketsAreUnique(ps[1..], rest);
      assert ps == [ps[0]] + ps[1..];
    }
  }
}

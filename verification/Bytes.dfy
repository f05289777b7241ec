/** Bytes, 16-bit words and the memory operations the packet programs use. */
module Bytes {

  type byte = x: int | 0 <= x < 256
  type uint16 = x: int | 0 <= x < 0x1_0000
  newtype int32 = x: int | -0x8000_0000 <= x < 0x8000_0000

  /** The four bytes of an IPv4 address, in network order. */
  type Address = s: seq<byte> | |s| == 4 witness [0, 0, 0, 0]

  /** Memory after storing an unsigned short at `offset` on a little-endian host. */
  function Put16(b: seq<byte>, offset: nat, v: uint16): (r: seq<byte>)
    requires offset + 2 <= |b|
  {
    b[offset := v % 256][offset + 1 := v / 256]
  }

  /** The unsigned short a little-endian host reads at `offset`. */
  function Get16(b: seq<byte>, offset: nat): uint16
    requires offset + 2 <= |b|
  {
    (b[offset] as int) + 256 * (b[offset + 1] as int)
  }

  /** The same two bytes read in network order. */
  function Get16BigEndian(b: seq<byte>, offset: nat): uint16
    requires offset + 2 <= |b|
  {
    256 * (b[offset] as int) + (b[offset + 1] as int)
  }

  /** Reading back a store, and storing back what was read. */
  lemma PutGet(b: seq<byte>, offset: nat, v: uint16)
    requires offset + 2 <= |b|
    ensures Get16(Put16(b, offset, v), offset) == v
    ensures Put16(Put16(b, offset, v), offset, Get16(b, offset)) == b
  {
  }

  /** A store changes nothing exactly when the value was already there. */
  lemma PutIsNoOp(b: seq<byte>, offset: nat, v: uint16)
    requires offset + 2 <= |b|
    ensures Put16(b, offset, v) == b <==> Get16(b, offset) == v
  {
  }

  function Zeros(n: nat): (r: seq<byte>)
  {
    seq(n, i => 0)
  }

  predicate AllZero(b: seq<byte>)
  {
    forall k :: 0 <= k < |b| ==> b[k] == 0
  }

  // ----- stores through pointers into a buffer

  method Store16(a: array<byte>, offset: nat, v: uint16)
    requires offset + 2 <= a.Length
    modifies a
    ensures a[..] == Put16(old(a[..]), offset, v)
  {
    a[offset] := v % 256;
    a[offset + 1] := v / 256;
  }

  /** Storing htons(v): the bytes lie in network order. */
  method StoreNetwork16(a: array<byte>, offset: nat, v: uint16)
    requires offset + 2 <= a.Length
    modifies a
    ensures a[..] == old(a[..])[offset := v / 256][offset + 1 := v % 256]
  {
    a[offset] := v / 256;
    a[offset + 1] := v % 256;
  }

  /** Assigning a field of several bytes, given in memory order. */
  method StoreBytes(a: array<byte>, offset: nat, s: seq<byte>)
    requires offset + |s| <= a.Length
    modifies a
    ensures forall k :: 0 <= k < a.Length ==> a[k] == if offset <= k < offset + |s| then s[k - offset] else old(a[k])
  {
    forall k | 0 <= k < |s| {
      a[offset + k] := s[k];
    }
  }
}

/** The Internet checksum: what RFC 1071 defines, and the deferred-carry program that computes it. */
module Rfc1071 {
  import opened Bytes

  const INT32_MAX: nat := 0x7fff_ffff
  const MAX_COUNT: nat := 65537  // up to here no buffer overflows the accumulator, see SafeLength

  // ----- the definition, RFC 1071 section 1

  /** The 16-bit word at `i`; an odd last byte is padded with zero. */
  function WordAt(b: seq<byte>, i: nat): uint16
    requires i < |b|
  {
    if i + 1 < |b| then Get16(b, i) else b[i]
  }

  /** The one's complement sum of the words from `i` on: every carry is added back at once. */
  function OnesFrom(b: seq<byte>, i: nat): uint16
    decreases |b| - i
  {
    if i >= |b| then 0
    else
      var s := (WordAt(b, i) as int) + OnesFrom(b, i + 2);
      if s <= 65535 then s else s - 65535
  }

  function OnesSum(b: seq<byte>): uint16
  {
    OnesFrom(b, 0)
  }

  /** The checksum is the one's complement of the one's complement sum. */
  function Checksum(b: seq<byte>): uint16
  {
    65535 - OnesSum(b)
  }

  // ----- the program

  /** The exact sum of the words from `i` on, which the accumulator collects. */
  function SumFrom(b: seq<byte>, i: nat): nat
    decreases |b| - i
  {
    if i >= |b| then 0 else WordAt(b, i) + SumFrom(b, i + 2)
  }

  function WordSum(b: seq<byte>): nat
  {
    SumFrom(b, 0)
  }

  /** Sums the words in a signed 32-bit accumulator, adds an odd last byte as it is, folds the carries
      in at the end and complements. The words must not overflow the accumulator. */
  method InternetChecksum(addr: array<byte>, offset: nat, count: nat) returns (r: uint16)
    requires offset + count <= addr.Length
    requires WordSum(addr[offset..offset + count]) <= INT32_MAX
    ensures r == Checksum(addr[offset..offset + count])
  {
    ghost var data := addr[offset..offset + count];
    var sum: int32 := 0;
    var left, at := count, offset;
    while left > 1
      invariant 0 <= left && at + left == offset + count && at - offset == count - left
      invariant 0 <= sum
      invariant sum as int + SumFrom(data, at - offset) == WordSum(data)
    {
      assert WordAt(data, at - offset) == (addr[at] as int) + 256 * (addr[at + 1] as int);
      sum := sum + (addr[at] as int32 + 256 * addr[at + 1] as int32);
      at := at + 2;
      left := left - 2;
    }
    if left > 0 {
      sum := sum + addr[at] as int32;
    }
    ghost var rounds, k;
    sum, rounds, k := FoldCarries(sum);
    SumFoldsTo(data, sum as int, k);
    r := (-1 - sum as int) % 0x1_0000;
  }

  /** The carry loop: shifting right by 16 is dividing, masking is taking the remainder. One round takes
      away 65535 for every carry; over the whole range of the accumulator there are at most two. */
  method FoldCarries(total: int32) returns (sum: int32, ghost rounds: nat, ghost k: nat)
    requires total >= 0
    ensures 0 <= sum <= 65535 && (sum == 0 <==> total == 0)
    ensures total as int == sum as int + 65535 * k
    ensures rounds <= 2
  {
    sum, rounds, k := total, 0, 0;
    while sum / 0x1_0000 != 0
      invariant 0 <= sum && (sum == 0 <==> total == 0)
      invariant total as int == sum as int + 65535 * k
      invariant rounds >= 1 ==> sum <= 65535 + 32767
      invariant rounds >= 2 ==> sum <= 65535
      invariant rounds <= 2
      decreases sum
    {
      k, rounds := k + (sum / 0x1_0000) as nat, rounds + 1;
      sum := sum % 0x1_0000 + sum / 0x1_0000;
    }
  }

  // ----- deferring the carries keeps the sum

  /** The exact sum exceeds the one's complement sum by a multiple of 65535, and only a zero sum has
      the representation zero. */
  lemma {:induction false} Deferred(b: seq<byte>, i: nat) returns (k: nat)
    ensures SumFrom(b, i) == OnesFrom(b, i) + 65535 * k
    ensures SumFrom(b, i) == 0 <==> OnesFrom(b, i) == 0
    decreases |b| - i
  {
    if i >= |b| {
      k := 0;
    } else {
      k := Deferred(b, i + 2);
      k := if WordAt(b, i) + OnesFrom(b, i + 2) as int <= 65535 then k else k + 1;
    }
  }

  /** These two properties determine the one's complement sum. */
  lemma SumFoldsTo(b: seq<byte>, w: uint16, k: int)
    requires WordSum(b) == w + 65535 * k
    requires WordSum(b) == 0 <==> w == 0
    ensures OnesSum(b) == w
  {
    var k' := Deferred(b, 0);
  }

  /** The closed form of the checksum. */
  lemma ClosedForm(b: seq<byte>)
    ensures Checksum(b) == if WordSum(b) == 0 then 65535 else 65534 - (WordSum(b) - 1) % 65535
  {
    var s := WordSum(b);
    SumFoldsTo(b, if s == 0 then 0 else 1 + (s - 1) % 65535, if s == 0 then 0 else (s - 1) / 65535);
  }

  /** The data verifies exactly when its sum is a positive multiple of 65535. */
  lemma VerifiesIff(b: seq<byte>)
    ensures Checksum(b) == 0 <==> WordSum(b) > 0 && WordSum(b) % 65535 == 0
  {
    var k := Deferred(b, 0);
    assert WordSum(b) % 65535 == OnesSum(b) % 65535;
  }

  // ----- the accumulator

  lemma {:induction false} WordSumBound(b: seq<byte>, i: nat)
    requires i <= |b|
    ensures SumFrom(b, i) <= (|b| - i) / 2 * 65535 + (|b| - i) % 2 * 255
    ensures (forall k :: 0 <= k < |b| ==> b[k] == 255) ==> SumFrom(b, i) == (|b| - i) / 2 * 65535 + (|b| - i) % 2 * 255
    decreases |b| - i
  {
    if i + 2 > |b| {
    } else {
      WordSumBound(b, i + 2);
    }
  }

  /** 65537 is the largest length for which no buffer overflows the accumulator. */
  lemma SafeLength(n: nat)
    ensures (forall b: seq<byte> | |b| == n :: WordSum(b) <= INT32_MAX) <==> n <= MAX_COUNT
  {
    forall b: seq<byte> | |b| == n && n <= MAX_COUNT
      ensures WordSum(b) <= INT32_MAX
    {
      WordSumBound(b, 0);
    }
    if n > MAX_COUNT {
      var full: seq<byte> := seq(n, i => 255);
      WordSumBound(full, 0);
      assert WordSum(full) > INT32_MAX;
    }
  }
}

/** What RFC 1071 promises of the checksum. */
module ChecksumLaws {
  import opened Bytes
  import opened Rfc1071
  import opened Sequences

  // ----- sums over parts

  lemma {:induction false} SumFromSuffix(b: seq<byte>, d: nat, i: nat)
    requires d <= |b|
    ensures SumFrom(b[d..], i) == SumFrom(b, d + i)
    decreases |b| - i
  {
    if d + i >= |b| {
    } else {
      SumFromSuffix(b, d, i + 2);
    }
  }

  lemma WordSumStep(b: seq<byte>)
    requires |b| >= 2
    ensures WordSum(b) == Get16(b, 0) + WordSum(b[2..])
  {
    SumFromSuffix(b, 2, 0);
  }

  lemma {:induction false} WordSumAppend(a: seq<byte>, b: seq<byte>)
    requires |a| % 2 == 0
    ensures WordSum(a + b) == WordSum(a) + WordSum(b)
  {
    if a == [] {
      assert a + b == b;
    } else {
      assert (a + b)[2..] == a[2..] + b;
      WordSumStep(a);
      WordSumStep(a + b);
      WordSumAppend(a[2..], b);
    }
  }

  /** Equal exact sums have equal checksums. */
  lemma SameSum(a: seq<byte>, b: seq<byte>)
    requires WordSum(a) == WordSum(b)
    ensures Checksum(a) == Checksum(b)
  {
    var k := Deferred(a, 0);
    SumFoldsTo(b, OnesSum(a), k);
  }

  /** Adding exact sums is adding one's complement sums with end-around carry. */
  lemma SumsAdd(a: seq<byte>, b: seq<byte>, whole: seq<byte>)
    requires WordSum(whole) == WordSum(a) + WordSum(b)
    ensures var s := (OnesSum(a) as int) + OnesSum(b);
            OnesSum(whole) == if s <= 65535 then s else s - 65535
  {
    var j := Deferred(a, 0);
    var k := Deferred(b, 0);
    var s := (OnesSum(a) as int) + OnesSum(b);
    SumFoldsTo(whole, if s <= 65535 then s else s - 65535, if s <= 65535 then j + k else j + k + 1);
  }

  lemma WordAdds(a: seq<byte>, v: uint16, whole: seq<byte>)
    requires WordSum(whole) == WordSum(a) + v
    ensures var s := (OnesSum(a) as int) + v;
            OnesSum(whole) == if s <= 65535 then s else s - 65535
  {
    var k := Deferred(a, 0);
    var s := (OnesSum(a) as int) + v;
    SumFoldsTo(whole, if s <= 65535 then s else s - 65535, if s <= 65535 then k else k + 1);
  }

  // ----- order of the words and of the segments, RFC 1071 section 2(A)

  /** Adjacent segments of even length may be summed in either order, wherever they lie. */
  lemma SegmentSwap(before: seq<byte>, a: seq<byte>, b: seq<byte>, after: seq<byte>)
    requires |before| % 2 == |a| % 2 == |b| % 2 == 0
    ensures Checksum(before + a + b + after) == Checksum(before + b + a + after)
  {
    WordSumAppend(before + a + b, after);
    WordSumAppend(before + b + a, after);
    WordSumAppend(before + a, b);
    WordSumAppend(before + b, a);
    WordSumAppend(before, a);
    WordSumAppend(before, b);
    SameSum(before + a + b + after, before + b + a + after);
  }

  lemma TwoSegments(a: seq<byte>, b: seq<byte>)
    requires |a| % 2 == |b| % 2 == 0
    ensures Checksum(a + b) == Checksum(b + a)
  {
    WordSumAppend(a, b);
    WordSumAppend(b, a);
    SameSum(a + b, b + a);
  }

  /** The 16-bit words of a buffer from `i` on, an odd last byte padded with zero. */
  function WordsFrom(b: seq<byte>, i: nat): seq<uint16>
    decreases |b| - i
  {
    if i >= |b| then [] else [WordAt(b, i)] + WordsFrom(b, i + 2)
  }

  lemma {:induction false} WordsAt(b: seq<byte>, i: nat, k: nat)
    requires i <= |b|
    ensures |WordsFrom(b, i)| == (|b| - i + 1) / 2
    ensures k < (|b| - i + 1) / 2 ==> WordsFrom(b, i)[k] == WordAt(b, i + 2 * k)
    decreases |b| - i
  {
    if i + 2 <= |b| {
      WordsAt(b, i + 2, if k == 0 then 0 else k - 1);
    }
  }

  function Sum(ws: seq<uint16>): nat
  {
    if ws == [] then 0 else ws[0] + Sum(ws[1..])
  }

  lemma {:induction false} WordSumIsSum(b: seq<byte>, i: nat)
    ensures SumFrom(b, i) == Sum(WordsFrom(b, i))
    decreases |b| - i
  {
    if i >= |b| {
    } else {
      WordSumIsSum(b, i + 2);
    }
  }

  lemma {:induction false} SumWithout(ws: seq<uint16>, i: nat)
    requires i < |ws|
    ensures Sum(ws) == ws[i] + Sum(ws[..i] + ws[i + 1..])
  {
    if i == 0 {
      assert ws[..0] + ws[1..] == ws[1..];
    } else {
      SumWithout(ws[1..], i - 1);
      assert (ws[..i] + ws[i + 1..])[1..] == ws[1..][..i - 1] + ws[1..][i..];
    }
  }

  lemma MultisetWithout(ws: seq<uint16>, i: nat)
    requires i < |ws|
    ensures multiset(ws[..i] + ws[i + 1..]) == multiset(ws) - multiset{ws[i]}
  {
    assert ws == ws[..i] + [ws[i]] + ws[i + 1..];
  }

  lemma TakeOut(x: seq<uint16>, y: seq<uint16>) returns (i: nat)
    requires x != [] && multiset(x) == multiset(y)
    ensures i < |y| && y[i] == x[0]
    ensures multiset(x[1..]) == multiset(y[..i] + y[i + 1..])
  {
    assert x[0] in multiset(y);
    i :| 0 <= i < |y| && y[i] == x[0];
    MultisetWithout(x, 0);
    MultisetWithout(y, i);
    assert x[..0] + x[1..] == x[1..];
  }

  lemma {:induction false} SumPermutation(x: seq<uint16>, y: seq<uint16>)
    requires multiset(x) == multiset(y)
    ensures Sum(x) == Sum(y)
    decreases |x|
  {
    if x == [] {
      assert |y| == |multiset(y)| == 0;
    } else {
      var i := TakeOut(x, y);
      SumPermutation(x[1..], y[..i] + y[i + 1..]);
      SumWithout(y, i);
    }
  }

  /** The checksum depends on the words only as a multiset. */
  lemma WordPermutation(x: seq<byte>, y: seq<byte>)
    requires multiset(WordsFrom(x, 0)) == multiset(WordsFrom(y, 0))
    ensures Checksum(x) == Checksum(y)
  {
    WordSumIsSum(x, 0);
    WordSumIsSum(y, 0);
    SumPermutation(WordsFrom(x, 0), WordsFrom(y, 0));
    SameSum(x, y);
  }

  // ----- bytes at even and odd offsets

  /** The sum of the bytes at even offsets. */
  function EvenSum(b: seq<byte>): nat
    decreases |b|
  {
    if b == [] then 0 else b[0] + OddSum(b[1..])
  }

  /** The sum of the bytes at odd offsets. */
  function OddSum(b: seq<byte>): nat
    decreases |b|
  {
    if b == [] then 0 else EvenSum(b[1..])
  }

  lemma {:induction false} WordSumByParity(b: seq<byte>)
    ensures WordSum(b) == EvenSum(b) + 256 * OddSum(b)
  {
    if |b| < 2 {
      assert SumFrom(b, 2) == 0;
    } else {
      WordSumStep(b);
      WordSumByParity(b[2..]);
      assert b[1..][1..] == b[2..];
    }
  }

  lemma {:induction false} ParityAppend(a: seq<byte>, x: byte)
    ensures EvenSum(a + [x]) == EvenSum(a) + if |a| % 2 == 0 then x else 0
    ensures OddSum(a + [x]) == OddSum(a) + if |a| % 2 == 0 then 0 else x
  {
    if a == [] {
      assert a + [x] == [x];
    } else {
      assert (a + [x])[1..] == a[1..] + [x];
      ParityAppend(a[1..], x);
    }
  }

  /** Reversal keeps the parity of every offset in an odd-length buffer and flips it in an even one. */
  lemma {:induction false} ParityReverse(b: seq<byte>)
    ensures EvenSum(Reverse(b)) == if |b| % 2 == 1 then EvenSum(b) else OddSum(b)
    ensures OddSum(Reverse(b)) == if |b| % 2 == 1 then OddSum(b) else EvenSum(b)
  {
    if b == [] {
    } else {
      ParityReverse(b[1..]);
      ParityAppend(Reverse(b[1..]), b[0]);
    }
  }

  /** Exchanging the weights of the two bytes multiplies by 256 modulo 65535, which exchanges the bytes
      of the sum and of its complement. */
  lemma Exchanged(e: nat, o: nat, w: uint16, k: nat) returns (x: uint16, j: int)
    requires e + 256 * o == w + 65535 * k
    ensures o + 256 * e == x + 65535 * j
    ensures x == 0 <==> w == 0
    ensures 65535 - x == (65535 - w) / 256 + 256 * ((65535 - w) % 256)
  {
    var low, high := w % 256, w / 256;
    x, j := high + 256 * low, high + 256 * k - o;
    assert 65535 - w == 256 * (255 - high) + (255 - low);
  }

  /** Reversing an odd number of bytes leaves the exact word sum, and so the checksum, as it is. */
  lemma ReverseOdd(b: seq<byte>)
    requires |b| % 2 == 1
    ensures WordSum(Reverse(b)) == WordSum(b)
    ensures Checksum(Reverse(b)) == Checksum(b)
  {
    WordSumByParity(b);
    WordSumByParity(Reverse(b));
    ParityReverse(b);
    SameSum(b, Reverse(b));
  }

  // ----- byte order independence, RFC 1071 section 2(B)

  /** The buffer as a big-endian host sees its words: the bytes of every word exchanged, an odd last
      byte padded with zero. */
  function Swapped(b: seq<byte>): (r: seq<byte>)
  {
    if |b| == 0 then []
    else if |b| == 1 then [0, b[0]]
    else [b[1], b[0]] + Swapped(b[2..])
  }

  /** The bytes of every pair change places; an odd last byte changes places with its padding. */
  lemma {:induction false} SwappedAt(b: seq<byte>, k: nat)
    requires k < |b|
    ensures |Swapped(b)| == |b| + |b| % 2
    ensures if k % 2 == 1 then Swapped(b)[k - 1] == b[k]
            else Swapped(b)[k + 1] == b[k] && (k == |b| - 1 ==> Swapped(b)[k] == 0)
  {
    if |b| > 2 {
      SwappedAt(b[2..], if k < 2 then 0 else k - 2);
    }
  }

  lemma {:induction false} SwappedByParity(b: seq<byte>)
    ensures WordSum(Swapped(b)) == OddSum(b) + 256 * EvenSum(b)
  {
    if |b| < 2 {
      assert SumFrom(Swapped(b), 2) == 0;
    } else {
      SwappedByParity(b[2..]);
      WordSumStep(Swapped(b));
      assert Swapped(b)[2..] == Swapped(b[2..]);
      assert b[1..][1..] == b[2..];
    }
  }

  /** The two bytes a little-endian host stores for its checksum are, read in network order, the
      checksum a big-endian host computes. */
  lemma ByteOrderIndependence(b: seq<byte>, packet: seq<byte>, offset: nat)
    requires offset + 2 <= |packet|
    ensures Get16BigEndian(Put16(packet, offset, Checksum(b)), offset) == Checksum(Swapped(b))
  {
    WordSumByParity(b);
    SwappedByParity(b);
    var k := Deferred(b, 0);
    var x, j := Exchanged(EvenSum(b), OddSum(b), OnesSum(b), k);
    SumFoldsTo(Swapped(b), x, j);
  }

  /** Reversing an even number of bytes gives the checksum of the other byte order. */
  lemma ReverseEven(b: seq<byte>)
    requires |b| % 2 == 0
    ensures WordSum(Reverse(b)) == WordSum(Swapped(b))
    ensures Checksum(Reverse(b)) == Checksum(Swapped(b))
  {
    WordSumByParity(Reverse(b));
    ParityReverse(b);
    SwappedByParity(b);
    SameSum(Reverse(b), Swapped(b));
  }

  /** So it exchanges the two bytes of the checksum. */
  lemma ReverseEvenExchanges(b: seq<byte>, packet: seq<byte>, offset: nat)
    requires |b| % 2 == 0 && offset + 2 <= |packet|
    ensures Checksum(Reverse(b)) == Get16BigEndian(Put16(packet, offset, Checksum(b)), offset)
  {
    ReverseEven(b);
    ByteOrderIndependence(b, packet, offset);
  }

  // ----- storing a checksum into the data it covers

  lemma WordSumPut16(b: seq<byte>, offset: nat, v: uint16)
    requires offset % 2 == 0 && offset + 2 <= |b|
    ensures WordSum(Put16(b, offset, v)) + Get16(b, offset) == WordSum(b) + v
  {
    var c := Put16(b, offset, v);
    assert b == b[..offset] + b[offset..] && c == b[..offset] + c[offset..];
    WordSumAppend(b[..offset], b[offset..]);
    WordSumAppend(b[..offset], c[offset..]);
    WordSumStep(b[offset..]);
    WordSumStep(c[offset..]);
    assert b[offset..][2..] == c[offset..][2..];
  }

  /** Which buffers verify: those whose field holds the checksum of the buffer with that field zeroed,
      or 0xffff where that checksum is 0. */
  lemma FieldVerifiesIff(b: seq<byte>, offset: nat)
    requires offset % 2 == 0 && offset + 2 <= |b|
    ensures var c := Checksum(Put16(b, offset, 0));
            Checksum(b) == 0 <==> Get16(b, offset) == c || (Get16(b, offset) == 65535 && c == 0)
  {
    WordSumPut16(b, offset, 0);
    WordAdds(Put16(b, offset, 0), Get16(b, offset), b);
  }

  /** Which values may be stored into a field that was zero when the checksum was taken: that checksum,
      and also 0xffff when it is 0. No other value makes the buffer verify. */
  lemma StoreVerifiesIff(b: seq<byte>, offset: nat, v: uint16)
    requires offset % 2 == 0 && offset + 2 <= |b|
    requires Get16(b, offset) == 0
    ensures Checksum(Put16(b, offset, v)) == 0 <==> v == Checksum(b) || (v == 65535 && Checksum(b) == 0)
  {
    WordSumPut16(b, offset, v);
    WordAdds(b, v, Put16(b, offset, v));
  }

  lemma {:induction false} WordSumZero(b: seq<byte>)
    ensures WordSum(b) == 0 <==> AllZero(b)
  {
    if |b| < 2 {
      assert SumFrom(b, 2) == 0;
    } else {
      WordSumStep(b);
      WordSumZero(b[2..]);
      assert b == [b[0], b[1]] + b[2..];
    }
  }

  /** Only all-zero data has the checksum 0xffff. */
  lemma AllZeroIff(b: seq<byte>)
    ensures Checksum(b) == 65535 <==> AllZero(b)
  {
    var _ := Deferred(b, 0);
    WordSumZero(b);
  }
}

/** The netfilter queue callback: it reverses the body of an ICMP packet in place and recomputes the
    ICMP checksum over the whole IP packet. */
module PacketRewrite {
  import opened Bytes
  import opened Rfc1071
  import opened Sequences
  import opened ChecksumLaws

  const IP_HEADER: nat := 20
  const ICMP_HEADER: nat := 8
  const BODY: nat := IP_HEADER + ICMP_HEADER
  const CHECKSUM: nat := IP_HEADER + 2  // the ICMP checksum field

  /** Reverses data[offset..offset + length] in place. The caller passes at least one byte: the tail
      pointer is computed as &data[length - 1]. */
  method SwapBytes(data: array<byte>, offset: nat, length: nat)
    requires length >= 1 && offset + length <= data.Length
    modifies data
    ensures data[offset..offset + length] == Reverse(old(data[offset..offset + length]))
    ensures data[..offset] == old(data[..offset]) && data[offset + length..] == old(data[offset + length..])
  {
    var head, tail := offset, offset + length - 1;
    while head < tail
      invariant offset <= head <= tail + 1 && head + tail == 2 * offset + length - 1
      invariant forall k :: 0 <= k < data.Length && !(offset <= k < head) && !(tail < k < offset + length) ==>
                              data[k] == old(data[k])
      invariant forall k :: offset <= k < head || tail < k < offset + length ==>
                              data[k] == old(data[2 * offset + length - 1 - k])
    {
      var tmp := data[head];
      data[head] := data[tail];
      data[tail] := tmp;
      head := head + 1;
      tail := tail - 1;
    }
    Mirrored(old(data[..]), data[..], offset, length);
    assert data[offset..offset + length] == data[..][offset..offset + length];
  }

  lemma Mirrored(was: seq<byte>, now: seq<byte>, offset: nat, length: nat)
    requires |now| == |was| && offset + length <= |was|
    requires forall k :: offset <= k < offset + length ==> now[k] == was[2 * offset + length - 1 - k]
    ensures now[offset..offset + length] == Reverse(was[offset..offset + length])
  {
    var x, y := was[offset..offset + length], now[offset..offset + length];
    forall k | 0 <= k < length
      ensures y[k] == x[length - 1 - k]
    {
      assert y[k] == now[offset + k];
    }
    IsReverse(x, y);
  }

  /** The packet with its body reversed and its checksum field zeroed. */
  function Cleared(packet: seq<byte>): (r: seq<byte>)
    requires |packet| > BODY
  {
    Put16(packet[..BODY] + Reverse(packet[BODY..]), CHECKSUM, 0)
  }

  /** What one call of the callback makes of a packet. */
  function Rewrite(packet: seq<byte>): (r: seq<byte>)
    requires |packet| > BODY
  {
    Put16(Cleared(packet), CHECKSUM, Checksum(Cleared(packet)))
  }

  /** The rewrite byte by byte: the body lies in reverse order, the headers are kept except for bytes 22 and
      23, and these hold the checksum of the whole packet taken with zeros in their place. */
  ghost predicate BytesRewritten(p: seq<byte>, q: seq<byte>)
  {
    && |q| == |p| > 28
    && (forall k :: 28 <= k < |p| ==> q[k] == p[|p| + 27 - k])
    && (forall k :: 0 <= k < 28 && k != 22 && k != 23 ==> q[k] == p[k])
    && Get16(q, 22) == Checksum(q[..22] + [0, 0] + q[24..])
  }

  /** These bytes are those of the rewrite and of nothing else. */
  lemma RewriteBytes(p: seq<byte>, q: seq<byte>)
    requires |p| > 28
    ensures BytesRewritten(p, q) <==> q == Rewrite(p)
  {
    RewriteHasBytes(p);
    if BytesRewritten(p, q) {
      var r := Rewrite(p);
      assert q[..22] + [0, 0] + q[24..] == r[..22] + [0, 0] + r[24..];
      assert q[22] == r[22] && q[23] == r[23];
    }
  }

  lemma RewriteHasBytes(p: seq<byte>)
    requires |p| > 28
    ensures BytesRewritten(p, Rewrite(p))
  {
    var body, q := p[BODY..], Rewrite(p);
    forall k | 28 <= k < |p|
      ensures q[k] == p[|p| + 27 - k]
    {
      ReverseAt(body, k - 28);
    }
    PutGet(Cleared(p), CHECKSUM, Checksum(Cleared(p)));
    assert Cleared(p) == q[..22] + [0, 0] + q[24..];
  }

  method Callback(packet: array<byte>)
    requires BODY < packet.Length <= MAX_COUNT
    modifies packet
    ensures packet[..] == Rewrite(old(packet[..])) && BytesRewritten(old(packet[..]), packet[..])
  {
    ghost var was := packet[..];
    ReverseBody(packet);
    Store16(packet, CHECKSUM, 0);
    SafeLength(packet.Length);
    var sum := InternetChecksum(packet, 0, packet.Length);
    assert packet[0..0 + packet.Length] == packet[..];
    Store16(packet, CHECKSUM, sum);
    RewriteHasBytes(was);
  }

  method ReverseBody(packet: array<byte>)
    requires packet.Length > BODY
    modifies packet
    ensures packet[..] == old(packet[..BODY]) + Reverse(old(packet[BODY..]))
  {
    var size := packet.Length - BODY;
    assert packet[BODY..BODY + size] == packet[BODY..];
    SwapBytes(packet, BODY, size);
    assert packet[BODY..BODY + size] == packet[BODY..];
    assert packet[..] == packet[..BODY] + packet[BODY..];
  }

  function IcmpField(packet: seq<byte>): uint16
    requires |packet| > BODY
  {
    Get16(packet, CHECKSUM)
  }

  /** The header checksum of section 3.1 of RFC 791, for the 20-byte header the callback expects. */
  predicate ValidIpHeader(packet: seq<byte>)
    requires |packet| > BODY
  {
    Checksum(packet[..IP_HEADER]) == 0
  }

  /** The ICMP checksum of RFC 792: it covers the ICMP message alone. */
  predicate ValidIcmp(packet: seq<byte>)
    requires |packet| > BODY
  {
    Checksum(packet[IP_HEADER..]) == 0
  }

  // ----- the round trip

  lemma RewriteTwice(p: seq<byte>)
    requires |p| > BODY
    ensures Rewrite(Rewrite(p)) == Put16(p, CHECKSUM, Checksum(Put16(p, CHECKSUM, 0)))
  {
    var body := p[BODY..];
    ReverseTwice(body);
    assert Rewrite(p)[BODY..] == Reverse(body);
    assert Cleared(Rewrite(p)) == Put16(p, CHECKSUM, 0);
  }

  /** Exactly the packets that two rewrites restore, among all packets with a body. */
  lemma RoundTripIff(p: seq<byte>)
    requires |p| > BODY
    ensures Rewrite(Rewrite(p)) == p
            <==> if IcmpField(p) == 65535 then AllZero(Put16(p, CHECKSUM, 0)) else Checksum(p) == 0
  {
    RewriteTwice(p);
    PutIsNoOp(p, CHECKSUM, Checksum(Put16(p, CHECKSUM, 0)));
    FieldVerifiesIff(p, CHECKSUM);
    AllZeroIff(Put16(p, CHECKSUM, 0));
  }

  /** A valid IP header adds nothing to the sum, unless the rest of the packet is all zero. */
  lemma HeaderIsNeutral(p: seq<byte>)
    requires |p| > BODY && ValidIpHeader(p)
    ensures Checksum(p) == if AllZero(p[IP_HEADER..]) then 0 else Checksum(p[IP_HEADER..])
    ensures Checksum(Put16(p, CHECKSUM, 0)) != 65535
  {
    var header, message := p[..IP_HEADER], p[IP_HEADER..];
    assert p == header + message;
    WordSumAppend(header, message);
    SumsAdd(header, message, p);
    AllZeroIff(message);
    AllZeroIff(header);
    var i :| 0 <= i < IP_HEADER && header[i] != 0;
    assert Put16(p, CHECKSUM, 0)[i] != 0;
    AllZeroIff(Put16(p, CHECKSUM, 0));
  }

  /** Under a valid IP header two rewrites restore every byte of a packet exactly when its checksum
      field is not 0xffff and its ICMP message is valid or entirely zero. */
  lemma RoundTrip(p: seq<byte>)
    requires |p| > BODY && ValidIpHeader(p)
    ensures Rewrite(Rewrite(p)) == p
            <==> IcmpField(p) != 65535 && (ValidIcmp(p) || AllZero(p[IP_HEADER..]))
  {
    RoundTripIff(p);
    HeaderIsNeutral(p);
    AllZeroIff(Put16(p, CHECKSUM, 0));
  }

  // ----- the whole-packet sum as an ICMP checksum

  lemma RewriteParts(p: seq<byte>)
    requires |p| > BODY
    ensures Cleared(p) == p[..IP_HEADER] + Cleared(p)[IP_HEADER..]
    ensures Get16(Cleared(p)[IP_HEADER..], 2) == 0
    ensures Rewrite(p)[IP_HEADER..] == Put16(Cleared(p)[IP_HEADER..], 2, Checksum(Cleared(p)))
    ensures IcmpField(Rewrite(p)) == Checksum(Cleared(p))
  {
    PutGet(Cleared(p), CHECKSUM, Checksum(Cleared(p)));
  }

  /** Under a valid IP header the callback writes the checksum of the ICMP message alone, except that
      for an all-zero message it writes 0 where RFC 792 asks for 0xffff. */
  lemma WholePacketSum(p: seq<byte>)
    requires |p| > BODY && ValidIpHeader(p)
    ensures var message := Cleared(p)[IP_HEADER..];
            if AllZero(message)
            then IcmpField(Rewrite(p)) == 0 && Checksum(message) == 65535
            else IcmpField(Rewrite(p)) == Checksum(message)
  {
    RewriteParts(p);
    assert Cleared(p)[..IP_HEADER] == p[..IP_HEADER];
    HeaderIsNeutral(Cleared(p));
    AllZeroIff(Cleared(p)[IP_HEADER..]);
  }

  /** When the rewritten ICMP message verifies by itself, over all packets with a body: the IP header
      verifies and the message is not all zero, or the header itself is all zero. */
  lemma RewrittenIcmpVerifiesIff(p: seq<byte>)
    requires |p| > BODY
    ensures ValidIcmp(Rewrite(p))
            <==> (ValidIpHeader(p) && !AllZero(Cleared(p)[IP_HEADER..])) || AllZero(p[..IP_HEADER])
  {
    var header, message := p[..IP_HEADER], Cleared(p)[IP_HEADER..];
    RewriteParts(p);
    WordSumAppend(header, message);
    SumsAdd(header, message, Cleared(p));
    StoreVerifiesIff(message, 2, Checksum(Cleared(p)));
    AllZeroIff(header);
    AllZeroIff(message);
  }

  /** Which valid packets stay valid: those whose ICMP message has a non-zero byte outside its checksum. */
  lemma RewritePreservesIff(p: seq<byte>)
    requires |p| > BODY && ValidIpHeader(p) && ValidIcmp(p)
    ensures ValidIcmp(Rewrite(p)) <==> !AllZero(Put16(p, CHECKSUM, 0)[IP_HEADER..])
  {
    RewrittenIcmpVerifiesIff(p);
    AllZeroIff(p[..IP_HEADER]);
    ClearedZero(p);
  }

  /** Reversing the body does not change whether the message is all zero. */
  lemma ClearedZero(p: seq<byte>)
    requires |p| > BODY
    ensures AllZero(Cleared(p)[IP_HEADER..]) <==> AllZero(Put16(p, CHECKSUM, 0)[IP_HEADER..])
  {
    var x, y, body := Cleared(p)[IP_HEADER..], Put16(p, CHECKSUM, 0)[IP_HEADER..], p[BODY..];
    assert x[..ICMP_HEADER] == y[..ICMP_HEADER];
    assert x[ICMP_HEADER..] == Reverse(body) && y[ICMP_HEADER..] == body;
    ZeroParts(x, ICMP_HEADER);
    ZeroParts(y, ICMP_HEADER);
    ReverseZero(body);
    ReverseZero(Reverse(body));
    ReverseTwice(body);
  }

  lemma ZeroParts(b: seq<byte>, k: nat)
    requires k <= |b|
    ensures AllZero(b) <==> AllZero(b[..k]) && AllZero(b[k..])
  {
    assert b == b[..k] + b[k..];
  }

  lemma ReverseZero(b: seq<byte>)
    ensures AllZero(b) ==> AllZero(Reverse(b))
  {
    forall k | 0 <= k < |b|
      ensures Reverse(b)[k] == b[|b| - 1 - k]
    {
      ReverseAt(b, k);
    }
  }

  /** The callback spoils a valid packet: an echo reply with identifier 0, sequence number 0 and zero data,
      under any valid IP header. Only the checksum 0xffff is right for it, and the callback writes 0. */
  lemma ZeroMessageFails(header: seq<byte>, n: nat)
    requires |header| == IP_HEADER && Checksum(header) == 0 && n > ICMP_HEADER
    ensures var p := header + Put16(Zeros(n), 2, 65535);
            ValidIpHeader(p) && ValidIcmp(p) && IcmpField(Rewrite(p)) == 0 && !ValidIcmp(Rewrite(p))
  {
    var p := header + Put16(Zeros(n), 2, 65535);
    assert p[..IP_HEADER] == header && p[IP_HEADER..] == Put16(Zeros(n), 2, 65535);
    AllZeroIff(Zeros(n));
    StoreVerifiesIff(Zeros(n), 2, 65535);
    assert Put16(p, CHECKSUM, 0)[IP_HEADER..] == Zeros(n);
    RewritePreservesIff(p);
    ClearedZero(p);
    WholePacketSum(p);
  }

  // ----- the rewrite that the checksum does not see

  lemma OddBodySum(p: seq<byte>)
    requires |p| > BODY && |p| % 2 == 1
    ensures Checksum(Cleared(p)) == Checksum(Put16(p, CHECKSUM, 0))
  {
    var zeroed := Put16(p, CHECKSUM, 0);
    var head := zeroed[..BODY];
    assert zeroed[BODY..] == p[BODY..];
    assert Cleared(p) == head + Reverse(p[BODY..]);
    assert zeroed == head + p[BODY..];
    WordSumAppend(head, Reverse(p[BODY..]));
    WordSumAppend(head, p[BODY..]);
    ReverseOdd(p[BODY..]);
    SameSum(Cleared(p), zeroed);
  }

  /** Reversing a body of odd length leaves a valid checksum at its value (0 for 0xffff) although the
      data changed. */
  lemma OddBodyKeepsChecksum(p: seq<byte>)
    requires |p| > BODY && |p| % 2 == 1
    requires ValidIpHeader(p) && ValidIcmp(p)
    ensures IcmpField(Rewrite(p)) == if IcmpField(p) == 65535 then 0 else IcmpField(p)
  {
    RewriteParts(p);
    OddBodySum(p);
    HeaderIsNeutral(p);
    FieldVerifiesIff(p, CHECKSUM);
  }
}

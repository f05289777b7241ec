/** The ping program and the netfilter callback together. */
module EchoThroughQueue {
  import opened Bytes
  import opened Sequences
  import opened Rfc1071
  import opened ChecksumLaws
  import opened PacketRewrite
  import PingPacket

  /** The packet that carries an echo request behind an IP header. */
  function Packet(header: seq<byte>, data: PingPacket.Letters, pid: int, sequence: int): (p: seq<byte>)
    requires |header| == IP_HEADER
    ensures |p| == IP_HEADER + PingPacket.SIZE
  {
    header + PingPacket.EchoRequest(data, pid, sequence)
  }

  lemma PacketIsValid(header: seq<byte>, data: PingPacket.Letters, pid: int, sequence: int)
    requires |header| == IP_HEADER && Checksum(header) == 0
    ensures var p := Packet(header, data, pid, sequence);
            ValidIpHeader(p) && ValidIcmp(p) && IcmpField(p) != 65535
  {
    var p, fields := Packet(header, data, pid, sequence), PingPacket.Fields(data, pid, sequence);
    var echo := PingPacket.EchoRequest(data, pid, sequence);
    assert p[..IP_HEADER] == header && p[IP_HEADER..] == echo;
    PingPacket.EchoVerifies(data, pid, sequence);
    PutGet(fields, PingPacket.CHECKSUM, Checksum(fields));
    assert IcmpField(p) == Get16(echo, PingPacket.CHECKSUM) == Checksum(fields);
    assert fields[0] != 0;
    AllZeroIff(fields);
  }

  /** Every echo request of ping under a valid IP header leaves the callback as a valid echo request with
      the same identifier and sequence number and its data reversed, and a second pass restores it. */
  lemma EchoSurvives(header: seq<byte>, data: PingPacket.Letters, pid: int, sequence: int)
    requires |header| == IP_HEADER && Checksum(header) == 0
    ensures var p := Packet(header, data, pid, sequence);
            && Rewrite(Rewrite(p)) == p
            && ValidIcmp(Rewrite(p))
            && Rewrite(p)[..IP_HEADER] == header && Rewrite(p)[IP_HEADER] == 8 && Rewrite(p)[IP_HEADER + 1] == 0
            && Get16BigEndian(Rewrite(p), IP_HEADER + 4) == pid % 0x1_0000
            && Get16BigEndian(Rewrite(p), IP_HEADER + 6) == sequence % 0x1_0000
            && Rewrite(p)[BODY..] == Reverse(data + [0])
  {
    var p := Packet(header, data, pid, sequence);
    PacketIsValid(header, data, pid, sequence);
    RoundTrip(p);
    assert Cleared(p)[IP_HEADER..][0] == p[IP_HEADER] == 8;
    RewrittenIcmpVerifiesIff(p);
    PingPacket.EchoVerifies(data, pid, sequence);
    assert p[BODY..] == PingPacket.EchoRequest(data, pid, sequence)[PingPacket.HEADER..];
  }
}

/** The raw UDP datagram of the IPv6 sender: a UDP header followed by a pseudo-header in one buffer. */
module UdpPacket {
  import opened Bytes
  import opened Rfc1071
  import opened ChecksumLaws

  const UDP_SIZE: nat := 8
  const PHDR_SIZE: nat := 8
  const SIZE: nat := UDP_SIZE + PHDR_SIZE
  const UH_SUM: nat := 6

  /** The summed region with uh_sum zero; `source0` and `source1` are what memory
      held in the source port, which is never assigned. */
  function Fields(source0: byte, source1: byte, port: int, destination: Address): (d: seq<byte>)
    ensures |d| == SIZE
  {
    var p := port % 0x1_0000;
    [source0, source1, p / 256, p % 256, 0, 8, 0, 0] + destination + [0, 17, 0, 8]
  }

  /** The value put into uh_sum: 0 is replaced, because in UDP it means that there is no checksum. */
  function StoredSum(checksum: uint16): uint16
  {
    if checksum == 0 then 65535 else checksum
  }

  function Datagram(source0: byte, source1: byte, port: int, destination: Address): (d: seq<byte>)
    ensures |d| == SIZE
  {
    var fields := Fields(source0, source1, port, destination);
    Put16(fields, UH_SUM, StoredSum(Checksum(fields)))
  }

  /** The assignments up to the checksum. */
  method Fill(datagram: array<byte>, port: int, destination: Address)
    requires datagram.Length == SIZE
    modifies datagram
    ensures datagram[..] == Fields(old(datagram[0]), old(datagram[1]), port, destination)
  {
    StoreNetwork16(datagram, 2, port % 0x1_0000);
    StoreNetwork16(datagram, 4, 8);
    StoreBytes(datagram, 8, destination);
    datagram[12] := 0;
    datagram[13] := 17;
    datagram[14], datagram[15] := datagram[4], datagram[5];
    Store16(datagram, UH_SUM, 0);
  }

  /** What a receiver reads: the port in network order, in both headers the length of the UDP header alone,
      and the protocol number of UDP. */
  predicate Reads(d: seq<byte>, source0: byte, source1: byte, port: int, destination: Address)
    requires |d| == SIZE
  {
    && d[..2] == [source0, source1] && Get16BigEndian(d, 2) == port % 0x1_0000
    && Get16BigEndian(d, 4) == 8 == Get16BigEndian(d, 14)
    && d[8..12] == destination && d[12] == 0 && d[13] == 17
  }

  method Build(datagram: array<byte>, port: int, destination: Address)
    requires datagram.Length == SIZE
    modifies datagram
    ensures Reads(datagram[..], old(datagram[0]), old(datagram[1]), port, destination)
    ensures Checksum(datagram[..]) == 0 && Get16(datagram[..], UH_SUM) != 0
    ensures datagram[..] == Datagram(old(datagram[0]), old(datagram[1]), port, destination)
  {
    Fill(datagram, port, destination);
    assert datagram[0..0 + SIZE] == datagram[..];
    SafeLength(SIZE);
    var checksum := InternetChecksum(datagram, 0, SIZE);
    if checksum == 0 {
      Store16(datagram, UH_SUM, 0xffff);
    } else {
      Store16(datagram, UH_SUM, checksum);
    }
    DatagramReads(old(datagram[0]), old(datagram[1]), port, destination);
    DatagramVerifies(old(datagram[0]), old(datagram[1]), port, destination);
  }

  /** The stored value is the only non-zero one that makes the summed region verify, whether or not the
      substitution was taken. */
  lemma StoredSumIsTheOne(source0: byte, source1: byte, port: int, destination: Address, v: uint16)
    ensures var fields := Fields(source0, source1, port, destination);
            v != 0 && Checksum(Put16(fields, UH_SUM, v)) == 0 <==> v == StoredSum(Checksum(fields))
  {
    StoreVerifiesIff(Fields(source0, source1, port, destination), UH_SUM, v);
  }

  /** The datagram verifies and carries a non-zero checksum; it verifies as well with the pseudo-header
      in front of the UDP header, the order the standards use. */
  lemma DatagramVerifies(source0: byte, source1: byte, port: int, destination: Address)
    ensures var d := Datagram(source0, source1, port, destination);
            && Checksum(d) == 0
            && Get16(d, UH_SUM) != 0
            && Checksum(d[UDP_SIZE..] + d[..UDP_SIZE]) == 0
  {
    var fields, d := Fields(source0, source1, port, destination), Datagram(source0, source1, port, destination);
    var v := StoredSum(Checksum(fields));
    StoredSumIsTheOne(source0, source1, port, destination, v);
    PutGet(fields, UH_SUM, v);
    assert d == d[..UDP_SIZE] + d[UDP_SIZE..];
    TwoSegments(d[..UDP_SIZE], d[UDP_SIZE..]);
  }

  lemma DatagramReads(source0: byte, source1: byte, port: int, destination: Address)
    ensures Reads(Datagram(source0, source1, port, destination), source0, source1, port, destination)
  {
  }

  /** The words of the summed region: 8448 for lengths and protocol, source port, port in network order and
      address. */
  function FieldsSum(source0: byte, source1: byte, port: int, destination: Address): nat
  {
    var p := port % 0x1_0000;
    8448 + (source0 as int) + 256 * (source1 as int) + p / 256 + p % 256 * 256
    + Get16(destination, 0) + Get16(destination, 2)
  }

  lemma WordSumOfFields(source0: byte, source1: byte, port: int, destination: Address)
    ensures WordSum(Fields(source0, source1, port, destination)) == FieldsSum(source0, source1, port, destination)
  {
    var d := Fields(source0, source1, port, destination);
    assert SumFrom(d, 16) == 0;
    assert SumFrom(d, 12) == 17 * 256 + 8 * 256;
    assert SumFrom(d, 8) == Get16(destination, 0) + Get16(destination, 2) + SumFrom(d, 12);
    assert SumFrom(d, 4) == 8 * 256 + SumFrom(d, 8);
    assert SumFrom(d, 0) == Get16(d, 0) + Get16(d, 2) + SumFrom(d, 4);
  }

  /** Exactly which addresses and ports take the substitution: those for which these words sum to a multiple
      of 65535. */
  lemma SubstitutionIff(source0: byte, source1: byte, port: int, destination: Address)
    ensures Checksum(Fields(source0, source1, port, destination)) == 0
            <==> FieldsSum(source0, source1, port, destination) % 65535 == 0
  {
    WordSumOfFields(source0, source1, port, destination);
    VerifiesIff(Fields(source0, source1, port, destination));
  }

  /** The program runs with a zero source port, and the four bytes it takes for the address are the flow
      information of an IPv6 address, which are zero. Then the substitution is taken for port 65502 alone. */
  lemma SubstitutionPort(port: int)
    ensures Checksum(Fields(0, 0, port, Zeros(4))) == 0 <==> port % 0x1_0000 == 65502
  {
    SubstitutionIff(0, 0, port, Zeros(4));
  }
}

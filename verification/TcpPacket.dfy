/** The raw TCP SYN packet: an IP header and a TCP header in one datagram buffer, and a separate
    pseudo-header structure that holds a copy of the TCP header while the checksum is taken. */
module TcpPacket {
  import opened Bytes
  import opened Rfc1071
  import opened ChecksumLaws

  const IP_SIZE: nat := 20
  const TCP_SIZE: nat := 20
  const PHDR_SIZE: nat := 32   // addresses, protocol and length, then the copied TCP header
  const DATAGRAM_SIZE: nat := IP_SIZE + TCP_SIZE + PHDR_SIZE
  const IP_SUM: nat := 10
  const TCP_CHECK: nat := 16
  const SOURCE_PORT: uint16 := 6666
  const WINDOW: uint16 := 5840

  const SOURCE_ADDRESS: Address := [192, 168, 2, 2]

  /** Assigning both four-bit fields of a byte leaves nothing of its old value. */
  method StoreNibbles(a: array<byte>, offset: nat, low: nat, high: nat)
    requires offset < a.Length && low < 16 && high < 16
    modifies a
    ensures a[..] == old(a[..])[offset := low + 16 * high]
  {
    a[offset] := a[offset] - a[offset] % 16 + low;
    a[offset] := a[offset] % 16 + 16 * high;
  }

  // ----- the bytes of the headers

  const IP_START: seq<byte> := [0x45, 0, 40, 0, 0, 0, 0, 0, 255, 6]

  /** The IP header before its checksum is stored; `low` and `high` are what the checksum field held. */
  function IpFields(destination: Address, low: byte, high: byte): (h: seq<byte>)
    ensures |h| == IP_SIZE
  {
    IP_START + [low, high] + SOURCE_ADDRESS + destination
  }

  function IpHeader(destination: Address, low: byte, high: byte): (h: seq<byte>)
    ensures |h| == IP_SIZE
  {
    Put16(IpFields(destination, low, high), IP_SUM, Checksum(IpFields(destination, low, high)))
  }

  function TcpStart(port: int): (h: seq<byte>)
    ensures |h| == 12
  {
    var p := port % 0x1_0000;
    [0x1a, 0x0a, p / 256, p % 256, 0, 0, 0, 0, 0, 0, 0, 0]
  }

  /** The TCP header with its check field zero; the reserved bits keep what memory held. */
  function TcpFields(port: int, res1: byte, res2: byte): (h: seq<byte>)
    ensures |h| == TCP_SIZE
  {
    TcpStart(port) + [res1 % 16 + 0x50, res2 - res2 % 64 + 0x02, 0x16, 0xd0, 0, 0, 0, 0]
  }

  function PseudoHeader(source: Address, destination: Address): (h: seq<byte>)
    ensures |h| == PHDR_SIZE - TCP_SIZE
  {
    source + destination + [0, 6, 0, 20]
  }

  /** The TCP header with the checksum of the pseudo-header and the copy in its check field. */
  function TcpHeader(destination: Address, port: int, res1: byte, res2: byte): (h: seq<byte>)
    ensures |h| == TCP_SIZE
  {
    var fields := TcpFields(port, res1, res2);
    Put16(fields, TCP_CHECK, Checksum(PseudoHeader(SOURCE_ADDRESS, destination) + fields))
  }

  /** What a receiver reads from the IP header: version 4, a header length of five words, no service type,
      identification, flags or offset, time to live 255, protocol TCP, the addresses. The total length is right
      in host order alone. */
  predicate ReadsIp(ip: seq<byte>, destination: Address)
    requires |ip| == IP_SIZE
  {
    && ip[0] / 16 == 4 && ip[0] % 16 * 4 == IP_SIZE
    && Get16(ip, 2) == IP_SIZE + TCP_SIZE != Get16BigEndian(ip, 2)
    && ip[1] == 0 && ip[4..8] == [0, 0, 0, 0] && ip[8] == 255 && ip[9] == 6
    && ip[12..16] == [192, 168, 2, 2] && ip[16..20] == destination
  }

  /** What it reads from the TCP header: the ports, zero sequence and acknowledgment numbers, a header length of
      five words, only SYN set, the window, no urgent pointer. The reserved bits are not looked at. */
  predicate ReadsTcp(tcp: seq<byte>, port: int)
    requires |tcp| == TCP_SIZE
  {
    && Get16BigEndian(tcp, 0) == 6666 && Get16BigEndian(tcp, 2) == port % 0x1_0000
    && tcp[4..12] == [0, 0, 0, 0, 0, 0, 0, 0]
    && tcp[12] / 16 * 4 == TCP_SIZE && tcp[13] % 64 == 2
    && Get16BigEndian(tcp, 14) == 5840 && tcp[18..20] == [0, 0]
  }

  /** Both headers read so, whatever the checksum field and the reserved bits held before; the assignments of
      the program leave the former and the checksums leave the latter as they were. */
  lemma FieldsRead(destination: Address, low: byte, high: byte, port: int, res1: byte, res2: byte)
    ensures var fields := IpFields(destination, low, high);
            ReadsIp(fields, destination) && fields[10] == low && fields[11] == high
    ensures ReadsIp(IpHeader(destination, low, high), destination)
    ensures var fields := TcpFields(port, res1, res2);
            ReadsTcp(fields, port) && fields[16] == fields[17] == 0
    ensures var header := TcpHeader(destination, port, res1, res2);
            ReadsTcp(header, port) && header[12] % 16 == res1 % 16 && header[13] / 64 == res2 / 64
  {
  }

  // ----- the program

  /** The assignments of ip_create; the checksum field is not among them. */
  method FillIp(datagram: array<byte>, destination: Address)
    requires datagram.Length == DATAGRAM_SIZE
    modifies datagram
    ensures datagram[..IP_SIZE] == IpFields(destination, old(datagram[10]), old(datagram[11]))
    ensures datagram[IP_SIZE..] == old(datagram[IP_SIZE..])
  {
    StoreNibbles(datagram, 0, 5, 4);                // ip_hl and ip_v
    datagram[1] := 0;
    datagram[2], datagram[3] := 40, 0;              // ip_len in host order
    datagram[4], datagram[5], datagram[6], datagram[7] := 0, 0, 0, 0;
    datagram[8] := 255;
    datagram[9] := 6;
    assert datagram[..12] == IP_START + [old(datagram[10]), old(datagram[11])];
    StoreBytes(datagram, 12, SOURCE_ADDRESS + destination);
  }

  method IpCreate(datagram: array<byte>, destination: Address)
    requires datagram.Length == DATAGRAM_SIZE
    modifies datagram
    ensures datagram[..IP_SIZE] == IpHeader(destination, old(datagram[10]), old(datagram[11]))
    ensures datagram[IP_SIZE..] == old(datagram[IP_SIZE..])
  {
    FillIp(datagram, destination);
    assert datagram[0..0 + IP_SIZE] == datagram[..IP_SIZE];
    SafeLength(IP_SIZE);
    var sum := InternetChecksum(datagram, 0, IP_SIZE);
    Store16(datagram, IP_SUM, sum);
  }

  method TcpCreate(datagram: array<byte>, port: int)
    requires datagram.Length == DATAGRAM_SIZE
    modifies datagram
    ensures datagram[..IP_SIZE] == old(datagram[..IP_SIZE])
    ensures datagram[IP_SIZE..IP_SIZE + TCP_SIZE] == TcpFields(port, old(datagram[32]), old(datagram[33]))
    ensures datagram[IP_SIZE + TCP_SIZE..] == old(datagram[IP_SIZE + TCP_SIZE..])
  {
    var dest := port % 0x1_0000;
    StoreBytes(datagram, 20, [SOURCE_PORT / 256, SOURCE_PORT % 256, dest / 256, dest % 256,
                              0, 0, 0, 0, 0, 0, 0, 0]);         // source, dest, seq, ack_seq
    var offsets := datagram[32] % 16 + 16 * 5;                  // doff in the high nibble
    var flags := datagram[33] - datagram[33] % 64 + 2;          // fin, syn, rst, psh, ack, urg: only syn is set
    StoreBytes(datagram, 32, [offsets, flags, WINDOW / 256, WINDOW % 256,
                              0, 0, 0, 0]);                     // window, check, urg_ptr
  }

  method PseudoCreate(datagram: array<byte>, pseudo: array<byte>)
    requires datagram.Length == DATAGRAM_SIZE && pseudo.Length == PHDR_SIZE && datagram != pseudo
    modifies pseudo
    ensures pseudo[..12] == PseudoHeader(datagram[12..16], datagram[16..20])
    ensures pseudo[..8] == datagram[12..20] && pseudo[8..12] == [0, 6, 0, 20]
    ensures pseudo[12..] == old(pseudo[12..])
  {
    StoreBytes(pseudo, 0, datagram[12..20]);
    pseudo[8] := 0;
    pseudo[9] := 6;
    pseudo[10], pseudo[11] := 0, 20;
    assert pseudo[..8] == datagram[12..20] == datagram[12..16] + datagram[16..20];
  }

  /** The end of main: the TCP header is copied behind the pseudo-header, the checksum is taken over both
      and patched into the datagram, not into the copy. */
  method PatchCheck(datagram: array<byte>, pseudo: array<byte>)
    requires datagram.Length == DATAGRAM_SIZE && pseudo.Length == PHDR_SIZE && datagram != pseudo
    modifies datagram, pseudo
    ensures datagram[..IP_SIZE] == old(datagram[..IP_SIZE])
    ensures datagram[IP_SIZE..IP_SIZE + TCP_SIZE]
            == Put16(old(datagram[IP_SIZE..IP_SIZE + TCP_SIZE]), TCP_CHECK,
                     Checksum(old(pseudo[..12]) + old(datagram[IP_SIZE..IP_SIZE + TCP_SIZE])))
    ensures datagram[IP_SIZE + TCP_SIZE..] == old(datagram[IP_SIZE + TCP_SIZE..])
  {
    StoreBytes(pseudo, 12, datagram[IP_SIZE..IP_SIZE + TCP_SIZE]);
    assert pseudo[0..0 + PHDR_SIZE] == old(pseudo[..12]) + old(datagram[IP_SIZE..IP_SIZE + TCP_SIZE]);
    SafeLength(PHDR_SIZE);
    var check := InternetChecksum(pseudo, 0, PHDR_SIZE);
    Store16(datagram, IP_SIZE + TCP_CHECK, check);
  }

  /** The datagram that is sent. Both of its checksums verify: the IP header by itself, and the TCP header
      behind the pseudo-header of section 3.1 of RFC 793, although the sum was taken on a copy. */
  method Build(destination: Address, port: int) returns (datagram: array<byte>)
    ensures fresh(datagram) && datagram.Length == DATAGRAM_SIZE
    ensures var ip, tcp := datagram[..IP_SIZE], datagram[IP_SIZE..IP_SIZE + TCP_SIZE];
            && ReadsIp(ip, destination) && Checksum(ip) == 0
            && ReadsTcp(tcp, port) && tcp[12] == 0x50 && tcp[13] == 2
            && Checksum(ip[12..20] + [0, 6, 0, 20] + tcp) == 0
            && ip == IpHeader(destination, 0, 0) && tcp == TcpHeader(destination, port, 0, 0)
    ensures datagram[IP_SIZE + TCP_SIZE..] == Zeros(PHDR_SIZE)
  {
    datagram := new byte[DATAGRAM_SIZE](_ => 0);
    var pseudo := new byte[PHDR_SIZE](_ => 0);
    assert datagram[IP_SIZE..] == Zeros(TCP_SIZE + PHDR_SIZE);
    IpCreate(datagram, destination);
    assert datagram[IP_SIZE..][12] == 0 && datagram[IP_SIZE..][13] == 0;
    assert datagram[IP_SIZE + TCP_SIZE..] == datagram[IP_SIZE..][TCP_SIZE..];
    TcpCreate(datagram, port);
    Received(datagram[..IP_SIZE], TcpHeader(destination, port, 0, 0), destination, port);
    assert datagram[12..16] == datagram[..IP_SIZE][12..16] && datagram[16..20] == datagram[..IP_SIZE][16..20];
    PseudoCreate(datagram, pseudo);
    PatchCheck(datagram, pseudo);
  }

  lemma Received(ip: seq<byte>, tcp: seq<byte>, destination: Address, port: int)
    requires ip == IpHeader(destination, 0, 0) && tcp == TcpHeader(destination, port, 0, 0)
    ensures ip[12..16] == SOURCE_ADDRESS && ip[16..20] == destination
    ensures ReadsIp(ip, destination) && Checksum(ip) == 0
    ensures ReadsTcp(tcp, port) && tcp[12] == 0x50 && tcp[13] == 2
    ensures Checksum(ip[12..20] + [0, 6, 0, 20] + tcp) == 0
  {
    PacketVerifies(destination, port);
    FieldsRead(destination, 0, 0, port, 0, 0);
    assert ip[12..20] == ip[12..16] + ip[16..20];
    assert ip[12..20] + [0, 6, 0, 20] == PseudoHeader(SOURCE_ADDRESS, destination);
  }

  // ----- what the packet promises

  /** Both checksums of the packet verify for every destination and port: the IP header by itself, and
      the TCP header, patched after the sum was taken on a copy, behind its pseudo-header. */
  lemma PacketVerifies(destination: Address, port: int)
    ensures Checksum(IpHeader(destination, 0, 0)) == 0
    ensures Checksum(PseudoHeader(SOURCE_ADDRESS, destination) + TcpHeader(destination, port, 0, 0)) == 0
  {
    IpHeaderVerifiesIff(destination, 0, 0);
    TcpHeaderVerifies(destination, port, 0, 0);
  }

  lemma TcpHeaderVerifies(destination: Address, port: int, res1: byte, res2: byte)
    ensures Checksum(PseudoHeader(SOURCE_ADDRESS, destination) + TcpHeader(destination, port, res1, res2)) == 0
  {
    var pseudo, fields := PseudoHeader(SOURCE_ADDRESS, destination), TcpFields(port, res1, res2);
    var c := Checksum(pseudo + fields);
    assert pseudo + TcpHeader(destination, port, res1, res2) == Put16(pseudo + fields, 12 + TCP_CHECK, c);
    StoreVerifiesIff(pseudo + fields, 12 + TCP_CHECK, c);
  }

  /** ip_create sums the header without clearing the checksum field first. The header it leaves verifies
      exactly when that field held 0 or 0xffff before the call. */
  lemma IpHeaderVerifiesIff(destination: Address, low: byte, high: byte)
    ensures Checksum(IpHeader(destination, low, high)) == 0
            <==> (low == 0 && high == 0) || (low == 255 && high == 255)
  {
    var f, f0, h := IpFields(destination, low, high), IpFields(destination, 0, 0), IpHeader(destination, low, high);
    PutGet(f, IP_SUM, Checksum(f));
    assert Put16(h, IP_SUM, 0) == f0 == Put16(f, IP_SUM, 0);
    FieldVerifiesIff(h, IP_SUM);
    WordSumPut16(f, IP_SUM, 0);
    WordAdds(f0, Get16(f, IP_SUM), f);
    NotAllZero(destination);
  }

  lemma NotAllZero(destination: Address)
    ensures Checksum(IpFields(destination, 0, 0)) != 65535
  {
  }

  /** The words of the header, apart from the destination, sum to 45614. */
  lemma IpFieldsSum(destination: Address)
    ensures WordSum(IpFields(destination, 0, 0)) == 45614 + Get16(destination, 0) + Get16(destination, 2)
  {
    var f := IpFields(destination, 0, 0);
    assert SumFrom(f, 20) == 0;
    assert SumFrom(f, 16) == Get16(destination, 0) + Get16(destination, 2);
    assert SumFrom(f, 12) == 192 + 256 * 168 + 2 + 256 * 2 + SumFrom(f, 16);
    assert SumFrom(f, 8) == 255 + 256 * 6 + SumFrom(f, 12);
    assert SumFrom(f, 4) == SumFrom(f, 8);
    assert SumFrom(f, 0) == 0x45 + 40 + SumFrom(f, 4);
  }

  /** Calling ip_create again on its own result gives a header that verifies only for the destinations whose
      two words sum to 19921 or 85456: for those the first checksum was 0. */
  lemma IpCreateTwice(destination: Address)
    ensures var first, d := IpHeader(destination, 0, 0), (Get16(destination, 0) as int) + Get16(destination, 2);
            Checksum(IpHeader(destination, first[10], first[11])) == 0 <==> d == 19921 || d == 85456
  {
    var first, fields := IpHeader(destination, 0, 0), IpFields(destination, 0, 0);
    IpHeaderVerifiesIff(destination, first[10], first[11]);
    PutGet(fields, IP_SUM, Checksum(fields));
    NotAllZero(destination);
    IpFieldsSum(destination);
    VerifiesIff(fields);
  }
}

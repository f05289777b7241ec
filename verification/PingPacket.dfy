/** The four ICMP echo requests that ping builds in one buffer. */
module PingPacket {
  import opened Bytes
  import opened Rfc1071
  import opened ChecksumLaws

  const HEADER: nat := 8
  const DATA_SIZE: nat := 32
  const SIZE: nat := HEADER + DATA_SIZE
  const CHECKSUM: nat := 2
  const REQUESTS: nat := 4

  /** 31 random capital letters. */
  type Letters = s: seq<byte> | |s| == DATA_SIZE - 1 && forall k :: 0 <= k < |s| ==> 65 <= s[k] <= 90
    witness seq(31, i => 65)

  /** An echo request with its checksum field zero (RFC 792, Echo message). */
  function Fields(data: Letters, pid: int, sequence: int): (d: seq<byte>)
    ensures |d| == SIZE
  {
    var id, s := pid % 0x1_0000, sequence % 0x1_0000;
    [8, 0, 0, 0, id / 256, id % 256, s / 256, s % 256] + data + [0]
  }

  function EchoRequest(data: Letters, pid: int, sequence: int): (d: seq<byte>)
    ensures |d| == SIZE
  {
    Put16(Fields(data, pid, sequence), CHECKSUM, Checksum(Fields(data, pid, sequence)))
  }

  /** A valid echo request (RFC 792, Echo message): type 8 and code 0, a checksum that verifies, identifier and
      sequence number in network order, the letters and their final zero. */
  predicate IsEcho(d: seq<byte>, data: Letters, pid: int, sequence: int)
  {
    && |d| == 40 && d[0] == 8 && d[1] == 0 && Checksum(d) == 0
    && Get16BigEndian(d, 4) == pid % 0x1_0000
    && Get16BigEndian(d, 6) == sequence % 0x1_0000
    && d[8..] == data + [0]
  }

  /** The assignments up to the checksum; every byte of the buffer is written. */
  method Fill(datagram: array<byte>, data: Letters, pid: int, i: int)
    requires datagram.Length == SIZE
    modifies datagram
    ensures datagram[..] == Fields(data, pid, i)
  {
    var j := 0;
    while j < DATA_SIZE - 1
      invariant 0 <= j <= DATA_SIZE - 1
      invariant datagram[HEADER..HEADER + j] == data[..j]
    {
      datagram[HEADER + j] := data[j];
      j := j + 1;
    }
    assert data[..DATA_SIZE - 1] == data;
    datagram[HEADER + 31] := 0;
    assert datagram[HEADER..HEADER + 31] == data;
    datagram[0] := 8;
    datagram[1] := 0;
    StoreNetwork16(datagram, 4, pid % 0x1_0000);
    StoreNetwork16(datagram, 6, i % 0x1_0000);
    Store16(datagram, CHECKSUM, 0);
    assert datagram[HEADER..HEADER + 31] == data;
    assert datagram[HEADER..] == datagram[HEADER..HEADER + 31] + [0];
    assert datagram[..] == datagram[..HEADER] + datagram[HEADER..];
  }

  /** Builds one request; the buffer may hold anything before. */
  method Build(datagram: array<byte>, data: Letters, pid: int, i: int)
    requires datagram.Length == SIZE
    modifies datagram
    ensures datagram[..] == EchoRequest(data, pid, i) && IsEcho(datagram[..], data, pid, i)
  {
    Fill(datagram, data, pid, i);
    assert datagram[0..0 + SIZE] == datagram[..];
    SafeLength(SIZE);
    var c := InternetChecksum(datagram, 0, SIZE);
    Store16(datagram, CHECKSUM, c);
    EchoVerifies(data, pid, i);
  }

  /** The main process: four requests leave the same buffer one after another. `random` is what the
      generator yields for each of them. */
  method MainProcess(pid: int, random: seq<Letters>) returns (sent: seq<seq<byte>>)
    requires |random| == REQUESTS
    ensures |sent| == REQUESTS
    ensures forall k :: 0 <= k < REQUESTS ==>
              sent[k] == EchoRequest(random[k], pid, k + 1) && IsEcho(sent[k], random[k], pid, k + 1)
  {
    var datagram := new byte[SIZE];
    sent := [];
    var i := 1;
    while i <= REQUESTS
      invariant 1 <= i <= REQUESTS + 1 && |sent| == i - 1
      invariant forall k :: 0 <= k < i - 1 ==>
                  sent[k] == EchoRequest(random[k], pid, k + 1) && IsEcho(sent[k], random[k], pid, k + 1)
    {
      Build(datagram, random[i - 1], pid, i);
      sent := sent + [datagram[..]];
      i := i + 1;
    }
  }

  lemma EchoVerifies(data: Letters, pid: int, sequence: int)
    ensures IsEcho(EchoRequest(data, pid, sequence), data, pid, sequence)
  {
    var fields := Fields(data, pid, sequence);
    StoreVerifiesIff(fields, CHECKSUM, Checksum(fields));
  }
}

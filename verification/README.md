# Verified models of the network lab programs

The repository holds small C and C++ network programs. This project models the ones whose behaviour is decided by
their own code and proves what they promise:

- the Internet checksum (`internet_checksum`, the same text in `Lab07/libqueue.c`, `Lab03/zad4/checksum.h` and
  `Lab03/zad5/checksum.h`), specified by the one's complement sum of RFC 1071 and implemented with deferred carries in
  a signed 32-bit accumulator;
- the programs built on it: the netfilter queue callback that reverses ICMP bodies in place, the raw TCP SYN packet,
  the raw UDP datagram and the echo requests of ping;
- the command line parser of the iptables programs, base and extended, as a language and as a program with heap blocks;
- the numeric palindrome test;
- the SCTP client and server that rotate through five streams, for any number of clients and any interleaving.

Files: `Bytes` and `Sequences` (memory and reversal), `Rfc1071` (definition and program), `ChecksumLaws` (what RFC 1071
promises), `PacketRewrite`, `EchoThroughQueue`, `TcpPacket`, `UdpPacket`, `PingPacket`, `Decimal`, `Palindrome`,
`RuleLanguage`, `IptablesParser`, `StreamRotation` (the protocol) and `StreamPrograms` (the loop variables). `dafny verify dfyconfig.toml` checks all of them.

## Conventions

- Memory is a byte array, the host is little-endian with 8-byte pointers, `unsigned short` loads and stores are
  `Get16` and `Put16`. The accumulator is the type `int32`, so the verifier checks that it never overflows; for a
  non-negative `sum`, `sum >> 16` and `sum & 0xffff` are quotient and remainder by 65536, and the conversion of `~sum` to
  `unsigned short` is `(-1 - sum) % 65536`.
- A sum that is a positive multiple of 65535 folds to 0xffff; only a zero sum folds to 0. Most of the laws turn on this.
- Addresses, ports, process identifiers, random letters and client messages are parameters. `htons(atoi(...))` keeps the
  port modulo 65536.
- `SwapBytes` needs at least one byte, because the tail pointer is `&data[data_length - 1]` with an unsigned length; so
  the callback needs a packet longer than 28 bytes. Up to 65537 bytes no buffer overflows the accumulator
  (`SafeLength`); longer ones may be summed when their words fit.
- The palindrome test needs a letter or a non-zero digit in its input: otherwise `head` starts past the data
  (`DefinedIff`). Characters are classified as in the C locale.
- The parser's arguments are those after `argv[0]`, up to the terminating null pointer. `NumbersFit` asks that every
  number the parser comes to evaluate lies in the range in which the C standard defines `atoi` and the subtraction;
  arguments it never reads are not restricted. The lemmas about the language need no such condition.
- The answers of the netfilter library are parameters of `Program`.
- The SCTP clients start with `i` equal to 0; the source declares it without a value (`Lab04/zad3/client3.c:18`). The
  client's `stream` variable starts with any value.

Where code and comments disagree, the code is modelled:

- `is_palindrome` says that any character that is not a digit or white space gives -1; only letters do, and the others
  are skipped (`ForeignIsSkipped`, `PunctuationIsSkipped`).
- The callback sums the whole IP packet where RFC 792 asks for the ICMP message. `WholePacketSum`,
  `RewrittenIcmpVerifiesIff` and `RewritePreservesIff` say when that gives the right checksum, `ZeroMessageFails` shows
  valid packets for which it does not.
- `ip_create` sums the header without zeroing its checksum field. `IpHeaderVerifiesIff` and `IpCreateTwice` say when
  that is right. The program itself zero-fills the buffer and calls `ip_create` once (`Lab03/zad3/tcp.c:84` and
  `Lab03/zad3/tcp.c:139`), so it never meets a field with other contents.
- `ip_len` is stored in host order (`ReadsIp`, in the contract of `TcpPacket.Build`).
- The iptables programs leave by `exit` when a netfilter call fails, without `free_rule` (`Process.Program`,
  `UnknownTable`).
- `udpv6.c` asks for IPv6 addresses and then reads the destination as if it were IPv4: the four bytes it gets are the flow
  information (`SubstitutionPort`).

## Model

| member | source | states |
|---|---|---|
| Rfc1071.InternetChecksum | Lab07/libqueue.c:3-21 | for every buffer whose words fit the 32-bit accumulator the loops return the complement of the RFC 1071 sum (carries added back at every word, odd byte padded with zero), without overflow on the way |
| Rfc1071.FoldCarries | Lab03/zad4/checksum.h:25-29 | the carry loop ends after at most two rounds with a 16-bit value that differs from the total by a multiple of 65535 and is zero only for zero |
| Rfc1071.Deferred | Lab03/zad4/checksum.h:1-11 | deferring end-around carries to the end keeps the sum: exact and one's complement sum differ by a multiple of 65535 and are zero together |
| Rfc1071.SumFoldsTo | Lab03/zad4/checksum.h:25-29 | those two properties determine the one's complement sum |
| Rfc1071.ClosedForm | Lab03/zad4/checksum.h:12-30 | the checksum in closed form, 65535 for a zero sum and 65534 - (S - 1) mod 65535 otherwise |
| Rfc1071.VerifiesIff | Lab03/zad4/checksum.h:12-30 | the checksum is 0 exactly when the exact sum is a positive multiple of 65535 |
| Rfc1071.WordSumBound | Lab03/zad5/checksum.h:16-23 | the largest sum a buffer of a given length can have, reached by all-0xff data |
| Rfc1071.SafeLength | Lab03/zad5/checksum.h:14-27 | no buffer of length n overflows the accumulator if and only if n is at most 65537 |
| ChecksumLaws.SumsAdd | Lab03/zad4/checksum.h:3-10 | summing two parts separately and adding with end-around carry is summing them together |
| ChecksumLaws.SegmentSwap | Lab03/zad4/udpv6.c:28-31 | adjacent even-length segments may change places anywhere in a buffer without changing the checksum |
| ChecksumLaws.WordPermutation | Lab03/zad4/checksum.h:16-19 | buffers whose 16-bit words are permutations of each other have the same checksum |
| ChecksumLaws.WordsAt | Lab03/zad4/checksum.h:16-23 | which words the multiset is taken of: the k-th is read at offset 2k, an odd last byte padded with zero |
| ChecksumLaws.ReverseOdd | Lab07/libqueue.c:3-41 | reversing an odd number of bytes leaves the exact sum and the checksum as they are |
| ChecksumLaws.ReverseEven | Lab07/libqueue.c:3-41 | reversing an even number of bytes gives the checksum of the words in the other byte order |
| ChecksumLaws.ReverseEvenExchanges | Lab07/libqueue.c:3-41 | that is, exactly the byte-swapped checksum |
| ChecksumLaws.TwoSegments | Lab03/zad4/udpv6.c:67 | summing the UDP header before or after its pseudo-header is the same |
| ChecksumLaws.ByteOrderIndependence | Lab07/libqueue.c:3-21 | the two bytes a little-endian host stores, read in network order, are the checksum over big-endian words, for even and odd lengths (RFC 1071 section 2(B)) |
| ChecksumLaws.SwappedAt | Lab07/libqueue.c:3-21 | which buffer a host of the other byte order sees, index by index |
| ChecksumLaws.FieldVerifiesIff | Lab07/queuemod.c:146-147 | a buffer sums to a zero checksum exactly when its field holds the checksum of the rest, or 0xffff where that is 0 |
| ChecksumLaws.StoreVerifiesIff | Lab03/zad5/ping.cpp:111-112 | exactly which values, stored into a zeroed field at an even offset, make the buffer verify |
| ChecksumLaws.AllZeroIff | Lab07/libqueue.c:16-20 | the checksum is 0xffff exactly for all-zero data |
| PacketRewrite.SwapBytes | Lab07/libqueue.c:24-41 | the part of the array is reversed in place and nothing else changes |
| PacketRewrite.Callback | Lab07/queuemod.c:128-147 | the new contents of the packet buffer, index by index: the body reversed, the headers kept except for the ICMP checksum, and that taken over the whole packet with zeros in its place |
| PacketRewrite.RewriteBytes | Lab07/queuemod.c:143-147 | the rewrite is the only packet with these bytes |
| PacketRewrite.RewriteTwice | Lab07/queuemod.c:143-147 | after two rewrites only the checksum field can differ, and it holds the checksum of the original with that field zeroed |
| PacketRewrite.RoundTripIff | Lab07/queuemod.c:143-147 | exactly which packets two rewrites restore, among all packets with a body |
| PacketRewrite.RoundTrip | Lab07/queuemod.c:128-147 | under a valid IP header two rewrites restore every byte exactly when the field is not 0xffff and the ICMP message is valid or all zero |
| PacketRewrite.HeaderIsNeutral | Lab07/queuemod.c:134-138 | a valid IP header does not change the checksum of what follows it, except over all-zero data |
| PacketRewrite.WholePacketSum | Lab07/queuemod.c:146-147 | under a valid IP header the written value is the checksum of the ICMP message alone (RFC 792); for an all-zero message it is 0 instead of 0xffff |
| PacketRewrite.RewrittenIcmpVerifiesIff | Lab07/queuemod.c:131-147 | exactly when the rewritten ICMP message verifies by itself, over all packets with a body |
| PacketRewrite.RewritePreservesIff | Lab07/queuemod.c:143-147 | exactly which packets with a valid header and message are still valid after the rewrite: those with a non-zero message byte outside the checksum |
| PacketRewrite.ZeroMessageFails | Lab07/queuemod.c:146-147 | for every valid IP header and length, a valid packet that the callback makes invalid: zero message, checksum 0xffff |
| PacketRewrite.OddBodySum | Lab07/queuemod.c:143-147 | reversing an odd-length body does not change the checksum that is written |
| PacketRewrite.OddBodyKeepsChecksum | Lab07/queuemod.c:137-147 | for an odd body a valid checksum keeps its value, 0xffff becoming 0, although the data changed |
| EchoThroughQueue.EchoSurvives | Lab07/queuemod.c:128-147 | every echo request ping builds passes the callback as a valid echo request with its identifier, sequence number and reversed data, and a second pass restores it |
| EchoThroughQueue.PacketIsValid | Lab03/zad5/ping.cpp:107-112 | ping's requests meet the conditions of the round trip |
| TcpPacket.FillIp | Lab03/zad3/tcp.c:42-51 | the twenty header bytes after the assignments; the checksum field and the rest of the buffer are as before |
| TcpPacket.FieldsRead | Lab03/zad3/tcp.c:42-70 | what every header field holds, for every destination, port and earlier contents: the values assigned, identification and time to live among them, with the checksum field not touched by the assignments and the reserved bits kept |
| TcpPacket.IpCreate | Lab03/zad3/tcp.c:40-53 | the header with its checksum, as a function of the destination and of what the field held before |
| TcpPacket.TcpCreate | Lab03/zad3/tcp.c:55-71 | the TCP header bytes; reserved bits, the IP header and the rest of the buffer stay |
| TcpPacket.PseudoCreate | Lab03/zad3/tcp.c:73-80 | the pseudo-header holds the addresses of the IP header, protocol and length |
| TcpPacket.PatchCheck | Lab03/zad3/tcp.c:143-147 | the checksum of pseudo-header and copied TCP header lands in the datagram, which is otherwise unchanged |
| TcpPacket.Build | Lab03/zad3/tcp.c:82-147 | the datagram that is sent, for every address and port: both checksums verify on its bytes (section 3.1 of RFC 793), header lengths match the layout, ports are in network order, only SYN is set, the total length is right in host order alone |
| TcpPacket.PacketVerifies | Lab03/zad3/tcp.c:139-147 | the IP header verifies, and the pseudo-header followed by the patched TCP header verifies (section 3.1 of RFC 793) |
| TcpPacket.IpHeaderVerifiesIff | Lab03/zad3/tcp.c:40-53 | the header ip_create leaves verifies exactly when its checksum field held 0 or 0xffff before |
| TcpPacket.IpCreateTwice | Lab03/zad3/tcp.c:52 | a second ip_create on the same buffer gives a valid header exactly for the destinations whose two words sum to 19921 or 85456 |
| TcpPacket.IpFieldsSum | Lab03/zad3/tcp.c:42-51 | the exact word sum of the header, as a function of the destination |
| UdpPacket.Fill | Lab03/zad4/udpv6.c:60-66 | the summed region before the checksum, the unassigned source port kept |
| UdpPacket.Build | Lab03/zad4/udpv6.c:60-72 | the region after the stored checksum: it verifies, uh_sum is not 0, ports and lengths are in network order, the source port is untouched |
| UdpPacket.StoredSumIsTheOne | Lab03/zad4/udpv6.c:67-72 | the stored value is the only non-zero value that makes the summed region verify |
| UdpPacket.DatagramVerifies | Lab03/zad4/udpv6.c:60-72 | uh_sum is never 0 (RFC 768), the region verifies with or without the substitution, and also with the pseudo-header in front |
| UdpPacket.SubstitutionIff | Lab03/zad4/udpv6.c:67-70 | exactly which source ports, ports and addresses take the substitution |
| UdpPacket.SubstitutionPort | Lab03/zad4/udpv6.c:60-70 | with the zero bytes the program runs with, the substitution is taken for port 65502 alone |
| PingPacket.Fill | Lab03/zad5/ping.cpp:102-111 | every byte of the uninitialised buffer is written before it is summed |
| PingPacket.Build | Lab03/zad5/ping.cpp:102-112 | one echo request, whatever the buffer held |
| PingPacket.MainProcess | Lab03/zad5/ping.cpp:87-125 | four valid echo requests (type 8, code 0) are sent with sequence numbers 1 to 4 from one reused buffer |
| PingPacket.EchoVerifies | Lab03/zad5/ping.cpp:107-112 | every request is of type 8 and code 0, verifies and carries identifier, sequence number and data (RFC 792) |
| Decimal.SameLengthUnique | Lab01/zad3/libpalindrome.c:73-78 | digit strings of equal length that denote the same number are equal |
| Decimal.StripKeepsValue | Lab01/zad3/libpalindrome.c:63-68 | leading zeros do not change the number |
| Decimal.MirrorIsReverse | Lab01/zad3/libpalindrome.c:70-78 | reversed digits denote the number with its decimal digits reversed by division |
| Decimal.PalindromeIff | Lab01/zad3/libpalindrome.c:70-81 | digits without leading zeros read the same both ways exactly when their number is its own mirror |
| Palindrome.IsPalindrome | Lab01/zad3/libpalindrome.c:29-82 | -1 exactly if there is a letter, capital or small; otherwise 1 exactly if the digits after the leading zeros read the same both ways, and 0 if not |
| Palindrome.ResultIff | Lab01/zad3/libpalindrome.c:51-81 | that is: whether the denoted number equals its mirror |
| Palindrome.SkipZeros | Lab01/zad3/libpalindrome.c:63-68 | the leading-zero loop stops at the first digit that is not zero |
| Palindrome.Compare | Lab01/zad3/libpalindrome.c:70-81 | the pointer loop decides whether the digits equal their reverse |
| Palindrome.DefinedIff | Lab01/zad3/libpalindrome.c:63-71 | without a letter, head starts inside the data exactly if some digit is not zero |
| Palindrome.IgnoredAnywhere | Lab01/zad3/libpalindrome.c:51-61 | inserting a character that is neither digit nor letter anywhere changes nothing the result depends on |
| Palindrome.LeadingZeroIgnored | Lab01/zad3/libpalindrome.c:63-68 | nor does inserting a zero before the first non-zero digit |
| Palindrome.SignificantIsNumeral | Lab01/zad3/libpalindrome.c:51-68 | the compared digits are the numeral of the denoted number |
| Palindrome.ForeignIsSkipped | Lab01/zad3/libpalindrome.c:23-61 | on texts with foreign characters but no letter, where the comment promises -1, the code returns what it returns without those characters, 0 or 1 |
| Palindrome.CleanedAlike | Lab01/zad3/libpalindrome.c:51-61 | removing any number of such characters changes nothing the result depends on |
| Palindrome.PunctuationIsSkipped | Lab01/zad3/libpalindrome.c:24-60 | texts of that kind for which 1 is returned |
| RuleLanguage.AcceptedIff | Lab07/iptcmod.c:94-312 | the parser returns a rule exactly for the sentences of the language, one table clause and one command clause in either order, and it is the rule they denote |
| RuleLanguage.NewChainIff | Lab07/iptcmod.c:119-172 | -t and -N in either order are accepted exactly for names that are empty or do not begin with a dash |
| RuleLanguage.DeleteRuleIff | Lab07/iptcmod.c:173-217 | -t and -D likewise, exactly if moreover the number does not begin with a dash and is the rule number plus one |
| RuleLanguage.PolicyIff | Lab07/iptcmod.c:219-272 | -t and -P likewise, by the extension alone and for the words ACCEPT and DROP alone |
| RuleLanguage.HelpIff | Lab07/iptcmod.c:274-284 | the help text is shown exactly when -h follows a readable beginning, whatever comes after it |
| RuleLanguage.StepIff | Lab07/iptcmod.c:117-293 | one round of the loop succeeds exactly on a clause for something not given before |
| RuleLanguage.RoundTrip | Lab07/iptcmod.c:94-312 | printing a rule, with the number one higher, in either order and parsing it gives the rule back exactly if its names are empty or do not begin with a dash and the program knows its command |
| RuleLanguage.AtoiNumeral | Lab07/iptcmod.c:209 | atoi reads a printed number back |
| RuleLanguage.AtoiReads | Lab07/iptcmod.c:209 | atoi skips white space, takes one sign and the digits after it, and ignores what follows |
| RuleLanguage.NumbersFitIf | Lab07/iptcmod.c:209 | the condition under which the program is modelled holds whenever every number after a -D is in the range of int |
| RuleLanguage.ExtensionAgrees | Lab07/iptc.c:96-257 | from every parser state, where the base program does not fail the extension does the same |
| RuleLanguage.SameWithoutPolicy | Lab07/iptcmod.c:219-272 | without -P among the arguments both programs have the same outcome, failures and help included |
| RuleLanguage.AcceptedByBoth | Lab07/iptcmod.c:18-25 | the base program accepts exactly what the extension accepts without setting a policy |
| RuleLanguage.DifferIff | Lab07/iptcmod.c:219-272 | the two programs differ on exactly the lists that set a policy and the lists that ask for help after a -P clause |
| RuleLanguage.ReadableWords | Lab07/iptcmod.c:117-293 | a readable beginning holds no -h, and without -P it is readable for both programs |
| IptablesParser.Process.Duplicate | Lab07/iptcmod.c:140-143 | a fresh live block with the copied string |
| IptablesParser.Process.SFree | Lab07/iptcmod.c:58-65 | only live blocks are freed, null is ignored |
| IptablesParser.Process.FreeRule | Lab07/iptcmod.c:71-81 | exactly the blocks the rule owns are freed and the pointer becomes null |
| IptablesParser.Process.TableOption | Lab07/iptcmod.c:119-144 | the -t clause: same outcome as the reading, no block lost or owned twice |
| IptablesParser.Process.NewChainOption | Lab07/iptcmod.c:145-172 | the -N clause, likewise |
| IptablesParser.Process.DeleteOption | Lab07/iptcmod.c:173-217 | the -D clause, likewise; on a bad number the chain is owned although no operation is set |
| IptablesParser.Process.PolicyOption | Lab07/iptcmod.c:221-272 | the -P clause, likewise |
| IptablesParser.Process.NextOption | Lab07/iptcmod.c:117-293 | one round of the loop keeps: live blocks are the rule and its buffers, and at the loop head there is a chain exactly if there is an operation |
| IptablesParser.Process.Parse | Lab07/iptcmod.c:94-312 | the program computes the outcome of the language; on success the fields of the block hold the rule and exactly the rule, chain and table blocks are added, on failure and on -h none |
| IptablesParser.Process.Program | Lab07/iptcmod.c:443-495 | which rule main dispatches on, the exit status, and that every block is given back if and only if no rule was accepted or all netfilter calls succeeded; otherwise exactly the rule, its chain and its table stay allocated |
| IptablesParser.UnknownTable | Lab07/iptcmod.c:455-459 | the lists -t table -N chain are accepted exactly for names that are empty or do not begin with a dash; a table the library does not know then leaves the three blocks allocated |
| StreamRotation.Rotation | Lab04/zad3/server3.c:78-104 | in every run of any number of clients, request k of an association travels on stream k mod 5, its answer on stream (k+1) mod 5 with the same data, both with sequence number (k div 5) mod 65536 (section 6.5 of RFC 4960) |
| StreamRotation.NoRotation | Lab04/zad3/server3.c:89-93 | in mode 0 everything stays on stream 0 with sequence number k mod 65536 |
| StreamRotation.Balanced | Lab04/zad3/server3.c:94-104 | at every point of every run the numbers of answers on two streams differ by at most one |
| StreamRotation.NoDeadlock | Lab04/zad3/client3.c:74-118 | no send is refused, each association has one message outstanding exactly while its client waits, and then a step towards its answer is enabled |
| StreamRotation.Served | Lab04/zad3/server3.c:78-104 | in every state that satisfies the invariant, at most four steps bring any waiting client the answer to its last request; no other association changes but the one the server was already serving |
| StreamRotation.SendStep | Lab04/zad3/client3.c:74-103 | any client can send exactly if it does not wait and the line is not empty; the request goes to the stream of the rotation, and nothing else changes |
| StreamRotation.TakeStep | Lab04/zad3/server3.c:84-86 | an idle server can take the request of any client, and holds that request |
| StreamRotation.AnswerStep | Lab04/zad3/server3.c:87-104 | a server that holds a request can answer it: one more answer with the same data to that client, on the next stream or on the same one |
| StreamRotation.ReceiveStep | Lab04/zad3/client3.c:105-118 | a client can take its answer, no longer waits and goes on with the stream of the answer |
| StreamRotation.StepInv | Lab04/zad3/client3.c:74-118 | every step of any party keeps the invariant of all associations |
| StreamRotation.RunInv | Lab04/zad3/server3.c:78-110 | the invariant holds after every run |
| StreamRotation.NextRequest | Lab04/zad3/client3.c:82-96 | in every lockstep state a client's next request goes to the stream that the rotation prescribes |
| StreamRotation.NumberedAppend | Lab04/zad3/server3.c:103 | sending keeps: a message carries the number of earlier messages on its stream modulo 65536 |
| StreamPrograms.Client.Send | Lab04/zad3/client3.c:82-103 | the branch on `i` sends on the protocol's stream |
| StreamPrograms.Client.Received | Lab04/zad3/client3.c:116 | the `stream` variable takes the stream of the answer |
| StreamPrograms.Server.Answer | Lab04/zad3/server3.c:87-103 | both modes answer on the protocol's stream |
| StreamPrograms.RoundRuns | Lab04/zad3/client3.c:74-118 | in a system of any number of clients with the server at rest, a round of any client that does not wait can be run: it adds one request and its answer, on the streams of the rotation, changes no other association and ends at rest |
| StreamPrograms.PlayRound | Lab04/zad3/server3.c:78-104 | one round of the two programs uses the streams of that round of the protocol and leaves the client's variables as it does |
| StreamPrograms.Converse | Lab04/zad3/client3.c:74-118 | the client loop, up to the first empty line, against the server loop: every conversation is a run of the protocol, and its streams are k mod 5 and (k+1) mod 5 in mode 1 and 0 in mode 0 |
| StreamRotation.CountRotating | Lab04/zad3/server3.c:96-99 | how many of the first n messages of a rotation travel on a given stream |

## Left out

- Sockets, address lookup, process and thread control, sleeping and printing: system calls with no logic of their own.
- The netfilter and iptables libraries: packets and rules are modelled up to the calls, not behind them.
- Rewriting by the kernel of the IP length and checksum under `IP_HDRINCL` and of the UDP checksum under `IPV6_CHECKSUM`:
  the claims are about the bytes the programs build. The region that `udpv6.c` sums is not the IPv6 pseudo-header.
- Lab03/zad3/checksum.h is included by `tcp.c` but is not part of this model; the header of `Lab03/zad4` stands for it.
- IP headers with options: the callback fixes the header at 20 bytes.
- IptablesParser.Process.Parse: a failing `malloc`, which ends the process, is not modelled, and neither are the error texts.
- IptablesParser.Process.DeleteOption: a number outside the range of `int` is excluded where it is evaluated, because `atoi`
  has no defined value there.
- IptablesParser.Process.Program: a null handle and a failed operation are inputs, the calls behind them are not modelled;
  neither is giving back the library's handle.
- IptablesParser.Process.NextOption: the branches of the source's one loop body are separate methods.
- Rfc1071.FoldCarries: a method of its own here, the last loop of the same function in the source.
- Palindrome.Compare: likewise, the last loop of `is_palindrome`; the temporary buffer is not freed by hand.
- PingPacket.MainProcess: a refused `sendto`, which ends the process, is not modelled; the host has 8-byte pointers,
  so `sizeof(icmp_header)` is the header size.
- StreamRotation.StepInv: the two endless loops are modelled as steps on values, so that every interleaving is covered
  (`StreamPrograms` runs the loops of one client and the server against each other);
  lost associations, closing clients and failing system calls other than a send on an invalid stream are not modelled.
- EchoThroughQueue.EchoSurvives: the kernel's path between ping and the queue is not modelled, any valid header is taken.
- The remaining lab programs (`Lab01/zad4`, `Lab01/zad5`, `Lab02`, `Lab04/zad2`, `Lab08`, `Lab12`): plumbing, or behaviour
  that their code leaves undecided.

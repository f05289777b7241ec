/** The SCTP client and server loops with the variables they update, run against each other round by round:
    every conversation they hold is a run of the protocol. */
module StreamPrograms {
  import opened StreamRotation

  class Client {
    var i: int
    var stream: int

    /** `i` starts at 0; `garbage` stands for the indeterminate value of `stream`. */
    constructor (garbage: int)
      ensures i == 0 && stream == garbage
    {
      i, stream := 0, garbage;
    }

    /** The loop variables are those of the association. */
    ghost predicate Matches(a: Association)
      reads this
    {
      (i != 0 <==> a.started) && stream == a.stream
    }

    /** The two branches of the send; `s` is the stream passed to sctp_sendmsg. */
    method Send(ghost a: Association) returns (s: int)
      requires Matches(a)
      modifies this`i
      ensures s == RequestStream(a) && i != 0
    {
      if i == 0 {
        s := 0;
        i := 1;
      } else {
        s := stream;
      }
    }

    /** After a successful receive. */
    method Received(sinfoStream: int)
      modifies this`stream
      ensures stream == sinfoStream
    {
      stream := sinfoStream;
    }
  }

  class Server {
    const wybor: int
    var stream: int

    constructor (wybor: int)
      requires wybor == 0 || wybor == 1
      ensures this.wybor == wybor
    {
      this.wybor := wybor;
      stream := 0;
    }

    /** From the receive to the send: `s` is the stream passed to sctp_sendmsg. */
    method Answer(sinfoStream: int, ghost request: Message) returns (s: int)
      requires wybor == 0 || wybor == 1
      requires request.stream == sinfoStream
      modifies this
      ensures s == AnswerStream(wybor == 1, request)
    {
      stream := sinfoStream;
      if wybor == 1 {
        if stream + 1 < STREAMS {
          stream := stream + 1;
        } else {
          stream := 0;
        }
      }
      s := stream;
    }
  }

  /** Client `c` is between two rounds, and the server is free. */
  ghost predicate Resting(rotate: bool, s: System, c: nat)
  {
    Inv(rotate, s) && s.server == Idle && c < |s.clients| && !s.clients[c].waiting
  }

  /** The steps of one round of both loops. */
  function Round(c: nat, line: string): seq<Event>
  {
    [ClientSend(c, line)] + ([ServerReceive(c, 0)] + ([ServerSend] + [ClientReceive(c, 0)]))
  }

  /** What a round adds to an association. */
  ghost predicate Answered(rotate: bool, a: Association, b: Association, line: string)
  {
    var n := |a.requests|;
    && |b.requests| == |b.replies| == n + 1 && |a.replies| == n
    && b.requests[..n] == a.requests && b.replies[..n] == a.replies
    && b.requests[n].stream == RequestStream(a) == (if rotate then n % STREAMS else 0)
    && b.replies[n].stream == b.stream == AnswerStream(rotate, b.requests[n])
    && b.replies[n].stream == (if rotate then (n + 1) % STREAMS else 0)
    && b.requests[n].data == b.replies[n].data == line
    && b.started
  }

  lemma {:induction false} RunConcat(rotate: bool, s: System, es: seq<Event>, fs: seq<Event>)
    requires Executable(rotate, s, es) && Executable(rotate, Run(rotate, s, es), fs)
    ensures Executable(rotate, s, es + fs)
    ensures Run(rotate, s, es + fs) == Run(rotate, Run(rotate, s, es), fs)
    decreases |es|
  {
    if es == [] {
      assert es + fs == fs;
    } else {
      assert (es + fs)[1..] == es[1..] + fs;
      RunConcat(rotate, Next(rotate, s, es[0]), es[1..], fs);
    }
  }

  /** From rest, a round of any client can be run: it ends at rest, with one more request and its answer, and
      no other association notices. */
  lemma RoundRuns(rotate: bool, s: System, c: nat, line: string)
    requires Resting(rotate, s, c) && line != "" && line != "\n"
    ensures Executable(rotate, s, Round(c, line))
    ensures var s' := Run(rotate, s, Round(c, line));
            && Resting(rotate, s', c) && OthersUntouched(s, s', c)
            && Answered(rotate, s.clients[c], s'.clients[c], line)
  {
    var send := ClientSend(c, line);
    SendStep(rotate, s, c, line);
    var t := Next(rotate, s, send);
    Served(rotate, t, c);
    FirstStep(rotate, s, send, Service(t, c));
    var s' := Run(rotate, t, Service(t, c));
    assert AssociationOk(rotate, s, c) && AssociationOk(rotate, s', c);
    NextRequest(rotate, s.clients[c]);
    RoundAnswered(rotate, s.clients[c], t.clients[c], s'.clients[c], line);
  }

  /** Between the two rests: the association after the request is sent, and after it is answered. */
  lemma RoundAnswered(rotate: bool, a: Association, mid: Association, b: Association, line: string)
    requires RequestStream(a) == (if rotate then |a.requests| % STREAMS else 0)
    requires |a.replies| == |a.requests| && |mid.requests| == |a.requests| + 1
    requires mid.requests[..|a.requests|] == a.requests && mid.replies == a.replies
    requires mid.requests[|a.requests|].data == line
    requires b.requests == mid.requests && |b.replies| == |a.requests| + 1
    requires b.replies[..|a.replies|] == a.replies && b.stream == b.replies[|a.requests|].stream && b.started
    requires b.replies[|a.requests|].data == line && Streams(rotate, b)
    ensures Answered(rotate, a, b, line)
  {
  }

  /** One round of both programs, after the round of the protocol that takes association `a` to `b`. */
  method PlayRound(client: Client, server: Server, ghost a: Association, ghost b: Association, ghost line: string)
    returns (request: int, answer: int)
    requires server.wybor == 0 || server.wybor == 1
    requires client.Matches(a) && Answered(server.wybor == 1, a, b, line)
    modifies client, server
    ensures client.Matches(b)
    ensures request == b.requests[|a.requests|].stream && answer == b.replies[|a.requests|].stream
  {
    request := client.Send(a);
    answer := server.Answer(request, b.requests[|a.requests|]);
    client.Received(answer);
  }

  lemma OneClient(garbage: int, rotate: bool) returns (start: System)
    ensures Init(start) && |start.clients| == 1 && Resting(rotate, start, 0)
    ensures start.clients[0].requests == start.clients[0].replies == []
    ensures start.clients[0].stream == garbage && !start.clients[0].started
  {
    start := Start([garbage]);
    InitInv(rotate, start);
  }

  /** The client loop on the lines that fgets returns, up to the first empty line, with the server loop at the
      other end. The streams that the two programs pass to sctp_sendmsg are those of a run of the protocol,
      and so the k-th request and its answer are on the streams the rotation prescribes. */
  method Converse(wybor: int, garbage: int, lines: seq<string>)
    returns (requests: seq<int>, answers: seq<int>, ghost start: System, ghost es: seq<Event>)
    requires wybor == 0 || wybor == 1
    requires forall k :: 0 <= k < |lines| ==> lines[k] != ""
    ensures |requests| == |answers| <= |lines|
    ensures forall k :: 0 <= k < |requests| ==> lines[k] != "\n"
    ensures |requests| < |lines| ==> lines[|requests|] == "\n"
    ensures forall k :: 0 <= k < |requests| ==> requests[k] == if wybor == 1 then k % STREAMS else 0
    ensures forall k :: 0 <= k < |answers| ==> answers[k] == if wybor == 1 then (k + 1) % STREAMS else 0
    ensures Init(start) && |start.clients| == 1 && Executable(wybor == 1, start, es)
    ensures Sent(Run(wybor == 1, start, es), requests, answers, lines)
  {
    var client := new Client(garbage);
    var server := new Server(wybor);
    ghost var rotate := wybor == 1;
    start := OneClient(garbage, wybor == 1);
    es, requests, answers := [], [], [];
    assert Executable(rotate, start, es) && Run(rotate, start, es) == start;
    var k := 0;
    while k < |lines|
      invariant 0 <= k <= |lines| && |requests| == |answers| == k
      invariant forall j :: 0 <= j < k ==> lines[j] != "\n"
      invariant server.wybor == wybor
      invariant Executable(rotate, start, es) && Resting(rotate, Run(rotate, start, es), 0)
      invariant Sent(Run(rotate, start, es), requests, answers, lines)
      invariant client.Matches(Run(rotate, start, es).clients[0])
    {
      if lines[k] == "\n" {
        break;
      }
      ghost var s := Run(rotate, start, es);
      RoundRuns(rotate, s, 0, lines[k]);
      RunConcat(rotate, start, es, Round(0, lines[k]));
      es := es + Round(0, lines[k]);
      var request, answer := PlayRound(client, server, s.clients[0], Run(rotate, start, es).clients[0], lines[k]);
      SentOneMore(s, Run(rotate, start, es), requests, answers, lines, request, answer);
      requests, answers := requests + [request], answers + [answer];
      k := k + 1;
    }
    SentRotates(rotate, Run(rotate, start, es), requests, answers, lines);
  }

  /** The streams and lines of a conversation are those of the only association. */
  ghost predicate Sent(s: System, requests: seq<int>, answers: seq<int>, lines: seq<string>)
  {
    && |s.clients| == 1 && |requests| == |answers| <= |lines|
    && |s.clients[0].requests| == |s.clients[0].replies| == |requests|
    && forall k :: 0 <= k < |requests| ==>
         && s.clients[0].requests[k].stream == requests[k] && s.clients[0].requests[k].data == lines[k]
         && s.clients[0].replies[k].stream == answers[k]
  }

  lemma SentRotates(rotate: bool, s: System, requests: seq<int>, answers: seq<int>, lines: seq<string>)
    requires Inv(rotate, s) && Sent(s, requests, answers, lines)
    ensures forall k :: 0 <= k < |requests| ==> requests[k] == if rotate then k % STREAMS else 0
    ensures forall k :: 0 <= k < |answers| ==> answers[k] == if rotate then (k + 1) % STREAMS else 0
  {
    assert AssociationOk(rotate, s, 0);
    var a := s.clients[0];
    forall k | 0 <= k < |requests|
      ensures requests[k] == a.requests[k].stream && answers[k] == a.replies[k].stream
    {
    }
  }

  lemma SentOneMore(s: System, s': System, requests: seq<int>, answers: seq<int>, lines: seq<string>,
                    request: int, answer: int)
    requires Sent(s, requests, answers, lines) && |s'.clients| == 1 && |requests| < |lines|
    requires var a, b, n := s.clients[0], s'.clients[0], |requests|;
             && |b.requests| == |b.replies| == n + 1
             && b.requests[..n] == a.requests && b.replies[..n] == a.replies
             && b.requests[n].stream == request && b.requests[n].data == lines[n] && b.replies[n].stream == answer
    ensures Sent(s', requests + [request], answers + [answer], lines)
  {
    var a, b, n := s.clients[0], s'.clients[0], |requests|;
    forall k | 0 <= k < n
      ensures b.requests[k] == a.requests[k] && b.replies[k] == a.replies[k]
    {
      assert b.requests[k] == b.requests[..n][k] && b.replies[k] == b.replies[..n][k];
    }
  }
}

/** The SCTP client and server loops: any number of clients, each in its own association, take turns with
    one server in any order. The server answers on the next of five streams (`rotate`, its mode 1) or on
    the stream of the request (its mode 0); every client sends its next request on the stream of the last
    answer. Delivery is reliable; messages in flight may be delivered in any order. */
module StreamRotation {

  const STREAMS: nat := 5
  const SSN_MODULUS: nat := 65536

  datatype Message = Message(stream: nat, ssn: nat, data: string)

  /** One association: the client's variables, the next stream sequence numbers that the two endpoints
      assign, the messages in flight, and everything that was ever sent. */
  datatype Association = Association(
    started: bool, stream: int, waiting: bool, failed: bool,
    clientSsn: seq<nat>, serverSsn: seq<nat>,
    toServer: seq<Message>, toClient: seq<Message>,
    requests: seq<Message>, replies: seq<Message>)

  /** The server between its receive and its send holds one message. */
  datatype Server = Idle | Holding(client: nat, request: Message)

  datatype System = System(clients: seq<Association>, server: Server, serverFailed: bool)

  datatype Event =
    | ClientSend(client: nat, data: string)
    | ServerReceive(client: nat, index: nat)
    | ServerSend
    | ClientReceive(client: nat, index: nat)

  // ----- the steps

  /** The first request goes out on stream 0, whatever the client's `stream` variable holds. */
  function RequestStream(a: Association): int
  {
    if a.started then a.stream else 0
  }

  /** Sending on a stream that was not negotiated is refused, and the client exits. */
  function Send(a: Association, data: string): Association
  {
    var s := RequestStream(a);
    if 0 <= s < STREAMS && s < |a.clientSsn| then
      var m := Message(s, a.clientSsn[s], data);
      a.(started := true, waiting := true, clientSsn := a.clientSsn[s := (a.clientSsn[s] + 1) % SSN_MODULUS],
         toServer := a.toServer + [m], requests := a.requests + [m])
    else
      a.(failed := true)
  }

  function AnswerStream(rotate: bool, request: Message): int
  {
    if !rotate then request.stream else if request.stream + 1 < STREAMS then request.stream + 1 else 0
  }

  function Reply(a: Association, s: nat, data: string): Association
    requires s < |a.serverSsn|
  {
    var m := Message(s, a.serverSsn[s], data);
    a.(serverSsn := a.serverSsn[s := (a.serverSsn[s] + 1) % SSN_MODULUS],
       toClient := a.toClient + [m], replies := a.replies + [m])
  }

  function Without(ms: seq<Message>, i: nat): seq<Message>
    requires i < |ms|
  {
    ms[..i] + ms[i + 1..]
  }

  function Take(a: Association, i: nat): Association
    requires i < |a.toServer|
  {
    a.(toServer := Without(a.toServer, i))
  }

  function Receive(a: Association, i: nat): Association
    requires i < |a.toClient|
  {
    a.(stream := a.toClient[i].stream, waiting := false, toClient := Without(a.toClient, i))
  }

  predicate Enabled(s: System, e: Event)
  {
    match e
    case ClientSend(c, data) =>
      c < |s.clients| && !s.clients[c].waiting && !s.clients[c].failed && data != "" && data != "\n"
    case ServerReceive(c, i) =>
      s.server.Idle? && !s.serverFailed && c < |s.clients| && i < |s.clients[c].toServer|
    case ServerSend =>
      s.server.Holding? && !s.serverFailed && s.server.client < |s.clients|
    case ClientReceive(c, i) =>
      c < |s.clients| && s.clients[c].waiting && i < |s.clients[c].toClient|
  }

  function Next(rotate: bool, s: System, e: Event): System
    requires Enabled(s, e)
  {
    match e
    case ClientSend(c, data) =>
      s.(clients := s.clients[c := Send(s.clients[c], data)])
    case ServerReceive(c, i) =>
      s.(clients := s.clients[c := Take(s.clients[c], i)], server := Holding(c, s.clients[c].toServer[i]))
    case ServerSend =>
      var c, stream := s.server.client, AnswerStream(rotate, s.server.request);
      if 0 <= stream < STREAMS && stream < |s.clients[c].serverSsn| then
        s.(clients := s.clients[c := Reply(s.clients[c], stream, s.server.request.data)], server := Idle)
      else
        s.(serverFailed := true)
    case ClientReceive(c, i) =>
      s.(clients := s.clients[c := Receive(s.clients[c], i)])
  }

  predicate Executable(rotate: bool, s: System, es: seq<Event>)
    decreases |es|
  {
    es == [] || (Enabled(s, es[0]) && Executable(rotate, Next(rotate, s, es[0]), es[1..]))
  }

  /** The system after a run. */
  function Run(rotate: bool, s: System, es: seq<Event>): System
    requires Executable(rotate, s, es)
    decreases |es|
  {
    if es == [] then s else Run(rotate, Next(rotate, s, es[0]), es[1..])
  }

  /** A connected client before its first request; its `stream` variable has no defined value. */
  predicate Fresh(a: Association)
  {
    a == Connected(a.stream)
  }

  predicate Init(s: System)
  {
    s.server == Idle && !s.serverFailed && forall c :: 0 <= c < |s.clients| ==> Fresh(s.clients[c])
  }

  /** Any number of clients, each with any value in its `stream` variable. */
  function Start(streams: seq<int>): (s: System)
    ensures Init(s) && |s.clients| == |streams|
    ensures forall c :: 0 <= c < |streams| ==> s.clients[c].stream == streams[c] && !s.clients[c].waiting
  {
    System(seq(|streams|, c requires 0 <= c < |streams| => Connected(streams[c])), Idle, false)
  }

  function Connected(stream: int): Association
  {
    Association(false, stream, false, false, [0, 0, 0, 0, 0], [0, 0, 0, 0, 0], [], [], [], [])
  }

  // ----- counting messages on a stream

  function Count(ms: seq<Message>, t: nat): nat
  {
    if ms == [] then 0 else Count(ms[..|ms| - 1], t) + if ms[|ms| - 1].stream == t then 1 else 0
  }

  lemma CountAppend(ms: seq<Message>, m: Message, t: nat)
    ensures Count(ms + [m], t) == Count(ms, t) + if m.stream == t then 1 else 0
  {
    assert (ms + [m])[..|ms|] == ms;
  }

  /** Where every fifth message, from number `d` on, travels on stream `t`. */
  lemma {:induction false} CountRotating(ms: seq<Message>, d: nat, t: nat)
    requires d < STREAMS
    requires forall k :: 0 <= k < |ms| ==> (ms[k].stream == t <==> k % STREAMS == d)
    ensures Count(ms, t) == (|ms| + 4 - d) / STREAMS
  {
    if ms == [] {
    } else {
      CountRotating(ms[..|ms| - 1], d, t);
      EveryFifth(|ms| - 1, d);
    }
  }

  lemma EveryFifth(n: nat, d: nat)
    requires d < STREAMS
    ensures (n + 5 - d) / STREAMS == (n + 4 - d) / STREAMS + if n % STREAMS == d then 1 else 0
  {
  }

  lemma {:induction false} CountSingle(ms: seq<Message>)
    requires forall k :: 0 <= k < |ms| ==> ms[k].stream == 0
    ensures Count(ms, 0) == |ms|
  {
    if ms == [] {
    } else {
      CountSingle(ms[..|ms| - 1]);
    }
  }

  // ----- the invariant of one association

  /** The counter of a stream is the number of messages sent on it. */
  ghost predicate CounterOk(ms: seq<Message>, counters: seq<nat>, t: nat)
    requires t < |counters|
  {
    counters[t] == Count(ms, t) % SSN_MODULUS
  }

  /** A message carries as its stream sequence number how many its endpoint had sent on that stream
      before. */
  ghost predicate SsnOk(ms: seq<Message>, k: nat)
    requires k < |ms|
  {
    ms[k].ssn == Count(ms[..k], ms[k].stream) % SSN_MODULUS
  }

  ghost predicate Numbered(ms: seq<Message>, counters: seq<nat>)
  {
    && |counters| == STREAMS
    && (forall t :: 0 <= t < STREAMS ==> CounterOk(ms, counters, t))
    && (forall k :: 0 <= k < |ms| ==> SsnOk(ms, k))
  }

  ghost predicate Streams(rotate: bool, a: Association)
  {
    && (forall k :: 0 <= k < |a.requests| ==> a.requests[k].stream == if rotate then k % STREAMS else 0)
    && (forall k :: 0 <= k < |a.replies| ==> a.replies[k].stream == if rotate then (k + 1) % STREAMS else 0)
  }

  /** Where the one outstanding message of the lockstep is; `held` is what the server holds of it. */
  ghost predicate Lockstep(a: Association, held: Server)
  {
    var n, m := |a.requests|, |a.replies|;
    && !a.failed
    && m <= n <= m + 1
    && (a.started <==> n > 0)
    && (forall k :: 0 <= k < m ==> a.replies[k].data == a.requests[k].data)
    && if n == m + 1 then
         && a.waiting && a.toClient == []
         && if held.Holding? then a.toServer == [] && held.request == a.requests[m]
            else a.toServer == [a.requests[m]]
       else
         && held.Idle? && a.toServer == []
         && (a.waiting ==> n > 0 && a.toClient == [a.replies[m - 1]])
         && (!a.waiting ==> a.toClient == [] && (n > 0 ==> a.stream == a.replies[m - 1].stream))
  }

  ghost predicate Holds(s: System, c: nat)
  {
    s.server.Holding? && s.server.client == c
  }

  ghost predicate AssociationOk(rotate: bool, s: System, c: nat)
    requires c < |s.clients|
  {
    var a := s.clients[c];
    && Streams(rotate, a)
    && Numbered(a.requests, a.clientSsn)
    && Numbered(a.replies, a.serverSsn)
    && Lockstep(a, if Holds(s, c) then s.server else Idle)
  }

  ghost predicate Inv(rotate: bool, s: System)
  {
    && !s.serverFailed
    && (s.server.Holding? ==> s.server.client < |s.clients|)
    && forall c :: 0 <= c < |s.clients| ==> AssociationOk(rotate, s, c)
  }

  lemma InitInv(rotate: bool, s: System)
    requires Init(s)
    ensures Inv(rotate, s)
  {
  }

  lemma NumberedAppend(ms: seq<Message>, counters: seq<nat>, m: Message)
    requires Numbered(ms, counters) && m.stream < STREAMS && m.ssn == counters[m.stream]
    ensures Numbered(ms + [m], counters[m.stream := (counters[m.stream] + 1) % SSN_MODULUS])
  {
    var ms', counters' := ms + [m], counters[m.stream := (counters[m.stream] + 1) % SSN_MODULUS];
    assert CounterOk(ms, counters, m.stream);
    forall t | 0 <= t < STREAMS
      ensures CounterOk(ms', counters', t)
    {
      assert CounterOk(ms, counters, t);
      CountAppend(ms, m, t);
    }
    forall k | 0 <= k < |ms'|
      ensures SsnOk(ms', k)
    {
      assert ms'[..k] == ms[..k];
      assert ms[..|ms|] == ms;
      assert k < |ms| ==> SsnOk(ms, k);
    }
  }

  lemma SendLockstep(a: Association, data: string)
    requires Lockstep(a, Idle) && !a.waiting && 0 <= RequestStream(a) < STREAMS == |a.clientSsn|
    ensures Lockstep(Send(a, data), Idle)
  {
  }

  /** The stream on which a client sends its next request. */
  lemma NextRequest(rotate: bool, a: Association)
    requires Streams(rotate, a) && Lockstep(a, Idle) && !a.waiting
    ensures RequestStream(a) == if rotate then |a.requests| % STREAMS else 0
  {
  }

  lemma SendStreams(rotate: bool, a: Association, data: string)
    requires Streams(rotate, a) && RequestStream(a) < STREAMS == |a.clientSsn|
    requires RequestStream(a) == if rotate then |a.requests| % STREAMS else 0
    ensures Streams(rotate, Send(a, data))
  {
  }

  lemma SendOk(rotate: bool, a: Association, data: string)
    requires Streams(rotate, a) && Numbered(a.requests, a.clientSsn) && Lockstep(a, Idle) && !a.waiting
    ensures var b := Send(a, data);
            Streams(rotate, b) && Numbered(b.requests, b.clientSsn) && Lockstep(b, Idle)
  {
    NextRequest(rotate, a);
    SendStreams(rotate, a, data);
    SendLockstep(a, data);
    var s := RequestStream(a);
    NumberedAppend(a.requests, a.clientSsn, Message(s, a.clientSsn[s], data));
  }

  /** The stream that the server chooses for its next answer. */
  lemma NextAnswer(rotate: bool, a: Association, held: Server)
    requires held.Holding? && Streams(rotate, a) && Lockstep(a, held)
    ensures AnswerStream(rotate, held.request) == if rotate then (|a.replies| + 1) % STREAMS else 0
    ensures 0 <= AnswerStream(rotate, held.request) < STREAMS
  {
  }

  lemma ReplyNumbered(a: Association, data: string, next: nat)
    requires Numbered(a.replies, a.serverSsn) && next < STREAMS
    ensures var b := Reply(a, next, data);
            Numbered(b.replies, b.serverSsn)
  {
    NumberedAppend(a.replies, a.serverSsn, Message(next, a.serverSsn[next], data));
  }

  lemma ReplyLockstep(a: Association, held: Server, next: nat)
    requires held.Holding? && Lockstep(a, held) && next < |a.serverSsn|
    ensures Lockstep(Reply(a, next, held.request.data), Idle)
  {
  }

  lemma ReplyStreams(rotate: bool, a: Association, data: string, next: nat)
    requires Streams(rotate, a) && next < |a.serverSsn|
    requires next == if rotate then (|a.replies| + 1) % STREAMS else 0
    ensures Streams(rotate, Reply(a, next, data))
  {
  }

  lemma ReplyOk(rotate: bool, a: Association, held: Server)
    requires held.Holding? && Streams(rotate, a) && Numbered(a.replies, a.serverSsn) && Lockstep(a, held)
    ensures 0 <= AnswerStream(rotate, held.request) < STREAMS
    ensures var b := Reply(a, AnswerStream(rotate, held.request), held.request.data);
            Streams(rotate, b) && Numbered(b.replies, b.serverSsn) && Lockstep(b, Idle)
  {
    NextAnswer(rotate, a, held);
    var next, data := AnswerStream(rotate, held.request), held.request.data;
    ReplyStreams(rotate, a, data, next);
    ReplyLockstep(a, held, next);
    ReplyNumbered(a, data, next);
  }

  /** A step that touches one association, and the server only on its behalf, keeps the invariant if it
      keeps it there. */
  lemma OthersKept(rotate: bool, s: System, s': System, c: nat)
    requires Inv(rotate, s) && c < |s.clients| == |s'.clients|
    requires s'.clients == s.clients[c := s'.clients[c]] && !s'.serverFailed
    requires s'.server == s.server || (forall d :: d != c ==> !Holds(s, d) && !Holds(s', d))
    requires AssociationOk(rotate, s', c)
    ensures Inv(rotate, s')
  {
    forall d | 0 <= d < |s'.clients| && d != c
      ensures AssociationOk(rotate, s', d)
    {
      assert AssociationOk(rotate, s, d) && s'.clients[d] == s.clients[d];
    }
    assert s'.server.Holding? ==> Holds(s', s'.server.client);
  }

  lemma ReceiveOk(rotate: bool, a: Association, i: nat)
    requires Streams(rotate, a) && Lockstep(a, Idle) && a.waiting && i < |a.toClient|
    ensures Streams(rotate, Receive(a, i)) && Lockstep(Receive(a, i), Idle)
  {
  }

  lemma TakeOk(rotate: bool, a: Association, i: nat, c: nat)
    requires Streams(rotate, a) && Lockstep(a, Idle) && i < |a.toServer|
    ensures Streams(rotate, Take(a, i)) && Lockstep(Take(a, i), Holding(c, a.toServer[i]))
  {
  }

  lemma ServerSendInv(rotate: bool, s: System)
    requires Inv(rotate, s) && Enabled(s, ServerSend)
    ensures Inv(rotate, Next(rotate, s, ServerSend))
  {
    var c := s.server.client;
    assert AssociationOk(rotate, s, c);
    ReplyOk(rotate, s.clients[c], s.server);
    OthersKept(rotate, s, Next(rotate, s, ServerSend), c);
  }

  /** Every step keeps the invariant. */
  lemma StepInv(rotate: bool, s: System, e: Event)
    requires Inv(rotate, s) && Enabled(s, e)
    ensures Inv(rotate, Next(rotate, s, e))
  {
    if e.ServerSend? {
      ServerSendInv(rotate, s);
    } else {
      var c := e.client;
      assert AssociationOk(rotate, s, c);
      match e {
        case ClientSend(_, data) =>
          WaitingIfHeld(rotate, s, c);
          SendOk(rotate, s.clients[c], data);
        case ServerReceive(_, i) =>
          TakeOk(rotate, s.clients[c], i, c);
        case ClientReceive(_, i) =>
          WaitingIfHeld(rotate, s, c);
          ReceiveOk(rotate, s.clients[c], i);
      }
      OthersKept(rotate, s, Next(rotate, s, e), c);
    }
  }

  lemma WaitingIfHeld(rotate: bool, s: System, c: nat)
    requires c < |s.clients| && AssociationOk(rotate, s, c)
    ensures Holds(s, c) ==> s.clients[c].waiting && s.clients[c].toClient == []
  {
  }

  lemma {:induction false} RunInv(rotate: bool, s: System, es: seq<Event>)
    requires Inv(rotate, s) && Executable(rotate, s, es)
    ensures Inv(rotate, Run(rotate, s, es)) && |Run(rotate, s, es).clients| == |s.clients|
    decreases |es|
  {
    if es == [] {
    } else {
      StepInv(rotate, s, es[0]);
      RunInv(rotate, Next(rotate, s, es[0]), es[1..]);
    }
  }

  // ----- what each step does, for any client of any system

  ghost predicate OthersUntouched(s: System, s': System, c: nat)
  {
    && |s'.clients| == |s.clients|
    && forall d :: 0 <= d < |s.clients| && d != c ==> s'.clients[d] == s.clients[d]
  }

  /** A client that does not wait can send every line but an empty one, and only then; the request goes to the
      next stream of the rotation and is the one thing in flight, whatever the server is doing. */
  lemma SendStep(rotate: bool, s: System, c: nat, line: string)
    requires Inv(rotate, s) && c < |s.clients|
    ensures Enabled(s, ClientSend(c, line)) <==> !s.clients[c].waiting && line != "" && line != "\n"
    ensures Enabled(s, ClientSend(c, line)) ==>
              var t := Next(rotate, s, ClientSend(c, line));
              && Inv(rotate, t) && t.server == s.server && OthersUntouched(s, t, c)
              && var a, b, n := s.clients[c], t.clients[c], |s.clients[c].requests|;
                 && |b.requests| == n + 1 && b.requests[..n] == a.requests
                 && b.requests[n].stream == (if rotate then n % STREAMS else 0) && b.requests[n].data == line
                 && |b.replies| == n && b.replies == a.replies
                 && b.toServer == [b.requests[n]] && b.toClient == [] && b.waiting && b.started
  {
    assert AssociationOk(rotate, s, c);
    if Enabled(s, ClientSend(c, line)) {
      StepInv(rotate, s, ClientSend(c, line));
      WaitingIfHeld(rotate, s, c);
      NextRequest(rotate, s.clients[c]);
    }
  }

  /** An idle server can take the request of any client, and then holds it. */
  lemma TakeStep(rotate: bool, s: System, c: nat)
    requires Inv(rotate, s) && c < |s.clients| && s.server.Idle? && s.clients[c].toServer != []
    ensures Enabled(s, ServerReceive(c, 0))
    ensures var t := Next(rotate, s, ServerReceive(c, 0));
            && Inv(rotate, t) && OthersUntouched(s, t, c)
            && var a, b := s.clients[c], t.clients[c];
               && |a.requests| == |a.replies| + 1 && a.toServer[0] == a.requests[|a.replies|]
               && t.server == Holding(c, a.toServer[0]) && b == a.(toServer := [])
  {
    assert AssociationOk(rotate, s, c);
    StepInv(rotate, s, ServerReceive(c, 0));
  }

  /** A server that holds a request can answer it, with the same data on the next stream or on the same
      one, and is idle again. */
  lemma AnswerStep(rotate: bool, s: System)
    requires Inv(rotate, s) && s.server.Holding?
    ensures Enabled(s, ServerSend)
    ensures var t, c, request := Next(rotate, s, ServerSend), s.server.client, s.server.request;
            && Inv(rotate, t) && t.server == Idle && OthersUntouched(s, t, c)
            && var a, b, n := s.clients[c], t.clients[c], |s.clients[c].replies|;
               && |b.replies| == n + 1 && b.replies[..n] == a.replies
               && b.replies[n].stream == (if rotate then (request.stream + 1) % STREAMS else request.stream)
               && b.replies[n].data == request.data
               && |b.requests| == n + 1 && b.requests == a.requests && b.requests[n] == request
               && b.toServer == [] && b.toClient == [b.replies[n]] && b.waiting && b.started
  {
    var c := s.server.client;
    assert AssociationOk(rotate, s, c);
    ReplyOk(rotate, s.clients[c], s.server);
    ServerSendInv(rotate, s);
  }

  /** A client to which an answer is on its way can take it; it no longer waits, and goes on with the stream of
      the answer. */
  lemma ReceiveStep(rotate: bool, s: System, c: nat)
    requires Inv(rotate, s) && c < |s.clients| && s.clients[c].toClient != []
    ensures Enabled(s, ClientReceive(c, 0))
    ensures var t := Next(rotate, s, ClientReceive(c, 0));
            && Inv(rotate, t) && t.server == s.server && OthersUntouched(s, t, c)
            && var a, b := s.clients[c], t.clients[c];
               && |a.requests| == |a.replies| > 0 && a.toClient[0] == a.replies[|a.replies| - 1]
               && b == a.(stream := a.toClient[0].stream, waiting := false, toClient := [])
  {
    assert AssociationOk(rotate, s, c);
    StepInv(rotate, s, ClientReceive(c, 0));
  }

  /** A run that begins with a given step. */
  lemma FirstStep(rotate: bool, s: System, e: Event, es: seq<Event>)
    requires Enabled(s, e) && Executable(rotate, Next(rotate, s, e), es)
    ensures Executable(rotate, s, [e] + es)
    ensures Run(rotate, s, [e] + es) == Run(rotate, Next(rotate, s, e), es)
  {
    assert ([e] + es)[1..] == es;
  }

  /** The shortest way to serve a waiting client: the server first answers whatever it holds. */
  function Service(s: System, c: nat): seq<Event>
    requires c < |s.clients|
  {
    if s.clients[c].toClient != [] then [ClientReceive(c, 0)]
    else if s.server.Idle? then [ServerReceive(c, 0)] + ([ServerSend] + [ClientReceive(c, 0)])
    else if s.server.client == c then [ServerSend] + [ClientReceive(c, 0)]
    else [ServerSend] + ([ServerReceive(c, 0)] + ([ServerSend] + [ClientReceive(c, 0)]))
  }

  /** Client `c` has got the answer to its last request between `s` and `t`, and no other association has changed
      but the one whose request the server held. */
  ghost predicate GotAnswer(s: System, t: System, c: nat)
    requires c < |s.clients|
  {
    && |t.clients| == |s.clients|
    && (forall d :: 0 <= d < |s.clients| && d != c && !Holds(s, d) ==> t.clients[d] == s.clients[d])
    && var a, b, n := s.clients[c], t.clients[c], |s.clients[c].requests|;
       && !b.waiting && b.started && b.requests == a.requests && |b.replies| == n > 0
       && |a.replies| <= n && b.replies[..|a.replies|] == a.replies
       && b.stream == b.replies[n - 1].stream && b.replies[n - 1].data == b.requests[n - 1].data
  }

  lemma ServedAtClient(rotate: bool, s: System, c: nat)
    requires Inv(rotate, s) && c < |s.clients| && s.clients[c].toClient != []
    ensures Executable(rotate, s, Service(s, c))
    ensures var t := Run(rotate, s, Service(s, c));
            Inv(rotate, t) && t.server == s.server && GotAnswer(s, t, c)
  {
    assert AssociationOk(rotate, s, c);
    var e := ClientReceive(c, 0);
    ReceiveStep(rotate, s, c);
    assert Executable(rotate, Next(rotate, s, e), []);
    FirstStep(rotate, s, e, []);
    assert [e] + [] == [e];
  }

  lemma ServedByServer(rotate: bool, s: System, c: nat)
    requires Inv(rotate, s) && c < |s.clients| && Holds(s, c)
    ensures Executable(rotate, s, Service(s, c))
    ensures var t := Run(rotate, s, Service(s, c));
            Inv(rotate, t) && t.server == Idle && GotAnswer(s, t, c)
  {
    AnswerStep(rotate, s);
    var s' := Next(rotate, s, ServerSend);
    ServedAtClient(rotate, s', c);
    WaitingIfHeld(rotate, s, c);
    FirstStep(rotate, s, ServerSend, Service(s', c));
  }

  lemma ServedWhenIdle(rotate: bool, s: System, c: nat)
    requires Inv(rotate, s) && c < |s.clients| && s.server == Idle
    requires s.clients[c].toServer != [] && s.clients[c].toClient == []
    ensures Executable(rotate, s, Service(s, c))
    ensures var t := Run(rotate, s, Service(s, c));
            Inv(rotate, t) && t.server == Idle && GotAnswer(s, t, c)
  {
    TakeStep(rotate, s, c);
    var s' := Next(rotate, s, ServerReceive(c, 0));
    ServedByServer(rotate, s', c);
    FirstStep(rotate, s, ServerReceive(c, 0), Service(s', c));
  }

  /** In every state that a run can reach, a waiting client can be served, by at most four steps. */
  lemma Served(rotate: bool, s: System, c: nat)
    requires Inv(rotate, s) && c < |s.clients| && s.clients[c].waiting
    ensures Executable(rotate, s, Service(s, c)) && |Service(s, c)| <= 4
    ensures var t := Run(rotate, s, Service(s, c));
            && Inv(rotate, t) && GotAnswer(s, t, c)
            && t.server == (if s.clients[c].toClient != [] then s.server else Idle)
  {
    assert AssociationOk(rotate, s, c);
    if s.clients[c].toClient != [] {
      ServedAtClient(rotate, s, c);
    } else if Holds(s, c) {
      ServedByServer(rotate, s, c);
    } else if s.server.Idle? {
      ServedWhenIdle(rotate, s, c);
    } else {
      AnswerStep(rotate, s);
      var s' := Next(rotate, s, ServerSend);
      ServedWhenIdle(rotate, s', c);
      FirstStep(rotate, s, ServerSend, Service(s', c));
    }
  }

  // ----- what holds in every run

  lemma OneStream(replies: seq<Message>, t: nat)
    requires t < STREAMS
    requires forall k :: 0 <= k < |replies| ==> replies[k].stream == (k + 1) % STREAMS
    ensures Count(replies, t) == (|replies| + if t == 0 then 0 else 5 - t) / STREAMS
  {
  }

  lemma RequestNumber(a: Association, k: nat)
    requires Streams(true, a) && Numbered(a.requests, a.clientSsn) && k < |a.requests|
    ensures a.requests[k].stream == k % STREAMS && a.requests[k].ssn == k / STREAMS % SSN_MODULUS
  {
    var d := k % STREAMS;
    CountRotating(a.requests[..k], d, d);
    assert (k + 4 - d) / STREAMS == k / STREAMS;
    assert SsnOk(a.requests, k);
  }

  lemma ReplyNumber(a: Association, k: nat)
    requires Streams(true, a) && Numbered(a.replies, a.serverSsn) && k < |a.replies|
    ensures a.replies[k].stream == (k + 1) % STREAMS && a.replies[k].ssn == k / STREAMS % SSN_MODULUS
  {
    var t := (k + 1) % STREAMS;
    OneStream(a.replies[..k], t);
    assert (k + if t == 0 then 0 else 5 - t) / STREAMS == k / STREAMS;
    assert SsnOk(a.replies, k);
  }

  /** In the rotating mode the k-th request of an association travels on stream k modulo 5 and its answer
      on the next stream, both with sequence number k div 5 modulo 65536, whatever the other clients do. */
  lemma Rotation(s: System, es: seq<Event>, c: nat, k: nat)
    requires Init(s) && Executable(true, s, es) && c < |s.clients|
    ensures var final := Run(true, s, es);
            && |final.clients| == |s.clients|
            && var a := final.clients[c];
               && |a.replies| <= |a.requests|
               && (k < |a.requests| ==>
                     a.requests[k].stream == k % 5 && a.requests[k].ssn == k / 5 % 65536)
               && (k < |a.replies| ==>
                     a.replies[k] == Message((k + 1) % 5, k / 5 % 65536, a.requests[k].data))
  {
    InitInv(true, s);
    RunInv(true, s, es);
    var a := Run(true, s, es).clients[c];
    assert AssociationOk(true, Run(true, s, es), c);
    if k < |a.requests| {
      RequestNumber(a, k);
    }
    if k < |a.replies| {
      ReplyNumber(a, k);
    }
  }

  /** In the other mode everything stays on stream 0. */
  lemma NoRotation(s: System, es: seq<Event>, c: nat, k: nat)
    requires Init(s) && Executable(false, s, es) && c < |s.clients|
    ensures var final := Run(false, s, es);
            && |final.clients| == |s.clients|
            && var a := final.clients[c];
               && |a.replies| <= |a.requests|
               && (k < |a.requests| ==> a.requests[k].stream == 0 && a.requests[k].ssn == k % 65536)
               && (k < |a.replies| ==> a.replies[k] == Message(0, k % 65536, a.requests[k].data))
  {
    InitInv(false, s);
    RunInv(false, s, es);
    var a := Run(false, s, es).clients[c];
    assert AssociationOk(false, Run(false, s, es), c);
    if k < |a.requests| {
      CountSingle(a.requests[..k]);
      assert SsnOk(a.requests, k);
    }
    if k < |a.replies| {
      CountSingle(a.replies[..k]);
      assert SsnOk(a.replies, k);
    }
  }

  /** At every point of every run the answers of an association are spread evenly: their numbers on any
      two streams differ by at most one. */
  lemma Balanced(s: System, es: seq<Event>, c: nat, t: nat, u: nat)
    requires Init(s) && Executable(true, s, es) && c < |s.clients| && t < STREAMS && u < STREAMS
    ensures |Run(true, s, es).clients| == |s.clients|
    ensures var replies := Run(true, s, es).clients[c].replies;
            -1 <= Count(replies, t) - Count(replies, u) <= 1
  {
    InitInv(true, s);
    RunInv(true, s, es);
    var replies := Run(true, s, es).clients[c].replies;
    assert AssociationOk(true, Run(true, s, es), c);
    OneStream(replies, t);
    OneStream(replies, u);
  }

  /** No send is ever refused, an association never has more than one message outstanding, and while a
      client waits some step that brings its answer nearer is enabled. */
  lemma NoDeadlock(rotate: bool, s: System, es: seq<Event>, c: nat)
    requires Init(s) && Executable(rotate, s, es) && c < |s.clients|
    ensures var final := Run(rotate, s, es);
            && |final.clients| == |s.clients| && !final.serverFailed && !final.clients[c].failed
            && var a := final.clients[c];
               && |a.toServer| + |a.toClient| + (if Holds(final, c) then 1 else 0) == (if a.waiting then 1 else 0)
               && (a.waiting ==>
                     || Enabled(final, ServerSend)
                     || Enabled(final, ServerReceive(c, 0))
                     || Enabled(final, ClientReceive(c, 0)))
  {
    InitInv(rotate, s);
    RunInv(rotate, s, es);
    assert AssociationOk(rotate, Run(rotate, s, es), c);
  }
}

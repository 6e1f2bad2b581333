/** src/control/ZMQControlClient.cpp (`request`, `concurrent_request`) and src/control/RMTControlClient.cpp:
    the retrying request and the pings that travel over it. */
module ControlClient {
  import opened Bytes
  import opened PingMessage
  import opened KermitKernel
  import opened KernelHistory

  const REQUEST_RETRIES: nat := 3

  /** "No response" */
  const NO_RESPONSE: bytes := [78, 111, 32, 114, 101, 115, 112, 111, 110, 115, 101]

  // ---------------------------------------------------------------- one REQ socket at a time

  datatype NetAction = NewSocket | Connect | SendRequest | Poll | Receive | Close

  /** A REQ socket must alternate sends and receives; Broken is what ZeroMQ would refuse. */
  datatype Socket = Absent | Ready | Awaiting | Broken

  function Move(s: Socket, a: NetAction): Socket {
    match a
    case NewSocket => if s.Absent? then Ready else Broken
    case Connect => if s.Ready? then Ready else Broken
    case SendRequest => if s.Ready? then Awaiting else Broken
    case Poll => if s.Awaiting? then Awaiting else Broken
    case Receive => if s.Awaiting? then Ready else Broken
    case Close => if s.Ready? || s.Awaiting? then Absent else Broken
  }

  /** What was done with a socket that was fresh at first, the latest action outermost. */
  datatype Log = Fresh | Then(before: Log, last: NetAction)

  function SocketAfter(log: Log): Socket {
    match log
    case Fresh => Ready
    case Then(before, last) => Move(SocketAfter(before), last)
  }

  function Count(log: Log, a: NetAction): nat {
    match log
    case Fresh => 0
    case Then(before, last) => Count(before, a) + if last == a then 1 else 0
  }

  predicate StartOf(p: Log, log: Log) {
    p == log || (log.Then? && StartOf(p, log.before))
  }

  /** Broken is for ever, so a log that ends well never did anything that a REQ socket refuses. */
  lemma {:induction false} NeverBroken(log: Log, p: Log)
    requires !SocketAfter(log).Broken? && StartOf(p, log)
    ensures !SocketAfter(p).Broken?
  {
    if p != log {
      NeverBroken(log.before, p);
    }
  }

  ghost predicate Tally(log: Log, s: Socket, sends: nat, polls: nat, receives: nat) {
    && SocketAfter(log) == s && Count(log, SendRequest) == sends
    && Count(log, Poll) == polls && Count(log, Receive) == receives
  }

  /** The number of polls made: up to and including the first that has a reply, at most three. */
  function Attempts(polls: seq<Option<bytes>>): (n: nat)
    requires |polls| >= REQUEST_RETRIES
    ensures 1 <= n <= REQUEST_RETRIES
    ensures forall k :: 0 <= k < n - 1 ==> polls[k].None?
    ensures n < REQUEST_RETRIES ==> polls[n - 1].Some?
  {
    if polls[0].Some? then 1 else if polls[1].Some? then 2 else 3
  }

  lemma AttemptsAre(polls: seq<Option<bytes>>, n: nat)
    requires |polls| >= REQUEST_RETRIES && 1 <= n <= REQUEST_RETRIES
    requires forall k :: 0 <= k < n - 1 ==> polls[k].None?
    requires polls[n - 1].Some? || n == REQUEST_RETRIES
    ensures Attempts(polls) == n
  {
  }

  function Outcome(polls: seq<Option<bytes>>): bytes
    requires |polls| >= REQUEST_RETRIES
  {
    match polls[Attempts(polls) - 1]
    case Some(reply) => reply
    case None => NO_RESPONSE
  }

  /** Whichever attempt is answered, the outcome is that answer and the attempts end there; with none it is
      the text "No response" after three. */
  lemma OutcomeIs(polls: seq<Option<bytes>>)
    requires |polls| >= REQUEST_RETRIES
    ensures forall k :: 0 <= k < 3 && polls[k].Some? && (forall j :: 0 <= j < k ==> polls[j].None?) ==>
              Outcome(polls) == polls[k].value && Attempts(polls) == k + 1
    ensures (forall k :: 0 <= k < 3 ==> polls[k].None?) ==> Outcome(polls) == NO_RESPONSE && Attempts(polls) == 3
    ensures NO_RESPONSE == ['N' as int, 'o' as int, ' ' as int, 'r' as int, 'e' as int, 's' as int, 'p' as int,
                            'o' as int, 'n' as int, 's' as int, 'e' as int]
  {
  }

  class Client {
    var thisClient: Socket

    constructor ()
      ensures thisClient == Ready
    {
      thisClient := Absent;
      new;
      var made := InitializeClient();
    }

    method InitializeClient() returns (made: bool)
      modifies this`thisClient
      ensures made == old(thisClient).Absent?
      ensures thisClient == if made then Ready else old(thisClient)
    {
      if !thisClient.Absent? {
        return false;
      }
      thisClient := Ready;
      made := true;
    }

    /** request; `polls` are the outcomes of the polls that concurrent_request may make. */
    method Request(polls: seq<Option<bytes>>) returns (reply: bytes)
      requires |polls| >= REQUEST_RETRIES && thisClient in {Absent, Ready}
      modifies this`thisClient
      ensures reply == if old(thisClient).Absent? then [] else Outcome(polls)
      ensures old(thisClient).Ready? ==>
                && (forall k :: 0 <= k < 3 && polls[k].Some? && (forall j :: 0 <= j < k ==> polls[j].None?) ==>
                      reply == polls[k].value)
                && ((forall k :: 0 <= k < 3 ==> polls[k].None?) ==> reply == NO_RESPONSE)
      ensures thisClient == old(thisClient)
    {
      if thisClient.Absent? {
        return [];
      }
      ghost var log;
      thisClient := Absent;
      reply, log := ConcurrentRequest(polls);
    }

    /** concurrent_request, which owns the moved socket: for every pattern of poll outcomes it ends,
        sends and polls equally often and at most three times, never misuses a socket, gives the first
        reply or "No response", and leaves a fresh client behind. */
    method ConcurrentRequest(polls: seq<Option<bytes>>) returns (reply: bytes, ghost log: Log)
      requires |polls| >= REQUEST_RETRIES && thisClient == Absent
      modifies this`thisClient
      ensures reply == Outcome(polls)
      ensures forall k :: 0 <= k < 3 && polls[k].Some? && (forall j :: 0 <= j < k ==> polls[j].None?) ==>
                reply == polls[k].value
      ensures (forall k :: 0 <= k < 3 ==> polls[k].None?) ==> reply == NO_RESPONSE
      ensures Tally(log, Absent, Attempts(polls), Attempts(polls), if polls[Attempts(polls) - 1].Some? then 1 else 0)
      ensures thisClient == Ready
    {
      log := Then(Fresh, Connect);
      var retriesLeft, asked := REQUEST_RETRIES, 0;
      reply := NO_RESPONSE;
      while retriesLeft > 0
        invariant retriesLeft == REQUEST_RETRIES || retriesLeft == 0
        invariant reply == NO_RESPONSE && thisClient == Absent && asked == REQUEST_RETRIES - retriesLeft
        invariant forall k :: 0 <= k < asked ==> polls[k].None?
        invariant Tally(log, if retriesLeft > 0 then Ready else Awaiting, asked, asked, 0)
      {
        log := Then(log, SendRequest);
        var expectReply := true;
        while expectReply
          invariant expectReply && 0 < retriesLeft <= REQUEST_RETRIES && asked == REQUEST_RETRIES - retriesLeft
          invariant thisClient == Absent && reply == NO_RESPONSE
          invariant forall k :: 0 <= k < asked ==> polls[k].None?
          invariant Tally(log, Awaiting, asked + 1, asked, 0)
          decreases retriesLeft
        {
          log := Then(log, Poll);
          assert Tally(log, Awaiting, asked + 1, asked + 1, 0);
          var outcome := polls[asked];
          asked := asked + 1;
          if outcome.Some? {
            reply := outcome.value;
            expectReply := false;
            log := Then(log, Receive);
            assert Tally(log, Ready, asked, asked, 1);
            log := Then(log, Close);
            AttemptsAre(polls, asked);
            var made := InitializeClient();
            return;
          }
          retriesLeft := retriesLeft - 1;
          if retriesLeft == 0 {
            expectReply := false;
            break;
          }
          log := Then(log, Close);
          assert Tally(log, Absent, asked, asked, 0);
          log := Then(log, NewSocket);
          assert Tally(log, Ready, asked, asked, 0);
          log := Then(log, Connect);
          assert Tally(log, Ready, asked, asked, 0);
          log := Then(log, SendRequest);
        }
      }
      log := Then(log, Close);
      AttemptsAre(polls, asked);
      var made := InitializeClient();
    }
  }

  // ---------------------------------------------------------------- pings over requests

  function PingOf(f: Fields): Ping {
    Ping(f.kind, f.code, f.excess)
  }

  /** The eleven bytes of a ping that are sent. */
  function PingWire(p: Ping, check: uint16): bytes {
    EncodePing(Fields(PROTOCOL_VERSION, PING, p.kind, p.code, check, p.excess))[..PING_HEADER_SIZE]
  }

  /** A string's memory: its bytes, the terminator, and whatever the allocation holds after it. */
  function StringMemory(s: bytes, tail: bytes): bytes {
    s + [0] + tail
  }

  /** A registered callback: the kernel's handler, or one with no effect on the kernel. */
  datatype Callback = RobotPing | Fixed(reply: Ping)

  class RmtControlClient {
    const client: Client
    const request: PingBuffer
    const reply: PingBuffer
    const incoming: PingBuffer
    const outgoing: PingBuffer
    const kernel: Kernel
    var pingCallbacks: map<byte, Callback>

    ghost predicate Valid()
      reads this, client, request, reply, incoming, outgoing
    {
      && client.thisClient == Ready
      && request.prot == outgoing.prot == PROTOCOL_VERSION && request.op == outgoing.op == PING
      && request.data.Length == outgoing.data.Length == PING_MESSAGE_SIZE
      && request != reply && request != incoming && request != outgoing
      && outgoing != incoming && outgoing != reply && request.data != outgoing.data
      && forall k :: k in pingCallbacks && pingCallbacks[k].RobotPing? ==> k == STATE_REQUEST
    }

    constructor (kernel: Kernel)
      ensures Valid() && this.kernel == kernel && pingCallbacks == map[]
      ensures request.check == outgoing.check == 0
    {
      client := new Client();
      request := new PingBuffer();
      reply := new PingBuffer();
      incoming := new PingBuffer();
      outgoing := new PingBuffer();
      this.kernel := kernel;
      pingCallbacks := map[];
    }

    /** register_ping_func: the first registration of a type wins. */
    method RegisterPingFunc(kind: byte, callback: Callback) returns (added: bool)
      modifies this`pingCallbacks
      ensures added == (kind !in old(pingCallbacks))
      ensures pingCallbacks == if added then old(pingCallbacks)[kind := callback] else old(pingCallbacks)
    {
      if kind !in pingCallbacks {
        pingCallbacks := pingCallbacks[kind := callback];
        return true;
      }
      added := false;
    }

    /** ping_endpoint, for any poll outcomes and any memory behind the reply string. */
    method PingEndpoint(p: Ping, polls: seq<Option<bytes>>, tail: bytes)
      returns (sent: bytes, got: Ping)
      requires Valid() && |polls| >= REQUEST_RETRIES && |tail| >= PING_MESSAGE_SIZE - 1
      modifies client, request, request.data, reply
      ensures Valid()
      ensures sent == PingWire(p, old(request.check))
      ensures ReadablePing(StringMemory(Outcome(polls), tail))
      ensures got == PingOf(DecodePing(StringMemory(Outcome(polls), tail)))
      ensures forall k :: 0 <= k < 3 && polls[k].Some? && (forall j :: 0 <= j < k ==> polls[j].None?) ==>
                ReadablePing(polls[k].value + [0] + tail) && got == PingOf(DecodePing(polls[k].value + [0] + tail))
      ensures (forall k :: 0 <= k < 3 ==> polls[k].None?) ==> got == Ping(0, 0, 0)
    {
      request.kind := p.kind;
      request.code := p.code;
      request.excess := p.excess;
      var errno := ToWirePing(request);
      sent := request.data[..PING_HEADER_SIZE];
      var response := client.Request(polls);
      errno := SerializeFromPing(reply, At(StringMemory(response, tail)));
      got := Ping(reply.kind, reply.code, reply.excess);
    }

    /** ping_server_callback: once the kernel's handler is registered, every message whatever makes the
        kernel take the step of the ping it decodes to. */
    method PingServerCallback(message: bytes, tail: bytes) returns (out: bytes)
      requires Valid() && |tail| >= PING_MESSAGE_SIZE - 1
      modifies incoming, outgoing, outgoing.data, kernel`receivingCvels, kernel`lin, kernel`ang
      ensures Valid() && ReadablePing(StringMemory(message, tail))
      ensures var p := PingOf(DecodePing(StringMemory(message, tail)));
              && kernel.View() == (if p.kind in pingCallbacks && pingCallbacks[p.kind].RobotPing?
                                   then Step(old(kernel.View()), KermitKernel.Request(p)) else old(kernel.View()))
              && (STATE_REQUEST in pingCallbacks && pingCallbacks[STATE_REQUEST].RobotPing?
                  ==> kernel.View() == Step(old(kernel.View()), KermitKernel.Request(p)))
              && out == PingWire(if p.kind in pingCallbacks && pingCallbacks[p.kind].Fixed?
                                 then pingCallbacks[p.kind].reply else Ping(ACK, 0, 0),
                                 old(outgoing.check))
    {
      var errno := SerializeFromPing(incoming, At(StringMemory(message, tail)));
      var resp := Ping(incoming.kind, incoming.code, incoming.excess);
      var ret := Ping(ACK, 0, 0);
      if resp.kind in pingCallbacks {
        match pingCallbacks[resp.kind] {
          case RobotPing => ret := kernel.RobotPingHandler(resp);
          case Fixed(reply) => ret := reply;
        }
      }
      outgoing.kind := ret.kind;
      outgoing.code := ret.code;
      outgoing.excess := ret.excess;
      errno := ToWirePing(outgoing);
      out := outgoing.data[..PING_HEADER_SIZE];
    }
  }

  /** When the caller reads an acknowledgement: with no reply at all, or with no client, it gets the all-zero
      ping; it gets type ACK exactly when a reply came, in protocol version 1, whose third byte is ACK, or
      which is one byte long and has ACK in the memory behind its terminator. */
  lemma AckIff(response: bytes, polls: seq<Option<bytes>>, tail: bytes)
    requires |polls| >= REQUEST_RETRIES && |tail| >= PING_MESSAGE_SIZE - 1
    requires response == [] || response == Outcome(polls)
    ensures var mem := StringMemory(response, tail);
            && ReadablePing(mem)
            && var got := PingOf(DecodePing(mem));
            && (response == [] || (forall k :: 0 <= k < REQUEST_RETRIES ==> polls[k].None?)
                ==> got == Ping(UNDEF, 0, 0))
            && (got.kind == ACK <==>
                  && response != [] && response[0] == PROTOCOL_VERSION
                  && ((|response| >= 3 && response[2] == ACK) || (|response| == 1 && tail[0] == ACK)))
            && (got.kind == ACK ==> exists k :: 0 <= k < REQUEST_RETRIES && polls[k] == Some(response))
  {
    var mem := StringMemory(response, tail);
    assert mem[0] == if response == [] then 0 else response[0];
    if response != [] && polls[Attempts(polls) - 1].Some? {
      assert polls[Attempts(polls) - 1] == Some(response);
    }
  }

  /** The false acknowledgement: a reply of one byte, the version number, with ACK in memory behind it. */
  lemma FalseAck(polls: seq<Option<bytes>>, tail: bytes)
    requires |polls| >= REQUEST_RETRIES && |tail| >= PING_MESSAGE_SIZE - 1
    requires polls[0] == Some([PROTOCOL_VERSION]) && tail[0] == ACK
    ensures Outcome(polls) == [PROTOCOL_VERSION]
    ensures var mem := StringMemory(Outcome(polls), tail);
            ReadablePing(mem) && PingOf(DecodePing(mem)).kind == ACK
  {
    AckIff(Outcome(polls), polls, tail);
  }

  /** A ping there and back: whatever memory surrounds the two strings, the kernel does what the
      sender's whole ping asked, and the sender reads back type ACK, code 0 and a zero low half. */
  lemma PingThereAndBack(s: State, p: Ping, check1: uint16, check2: uint16, tail1: bytes, tail2: bytes)
    requires |tail1| >= PING_MESSAGE_SIZE - 1 && |tail2| >= PING_MESSAGE_SIZE - 1
    ensures var there := StringMemory(PingWire(p, check1), tail1);
            ReadablePing(there) && Step(s, Request(PingOf(DecodePing(there)))) == Step(s, Request(p))
    ensures var back := StringMemory(PingWire(Ping(ACK, 0, 0), check2), tail2);
            && ReadablePing(back)
            && var got := PingOf(DecodePing(back));
            got.kind == ACK && got.code == 0 && got.excess % 0x1_0000_0000 == 0
  {
    PingThere(s, p, check1, tail1);
    AckBack(check2, tail2);
  }

  lemma SentFirst(sent: Fields, p: Ping, check: uint16, tail: bytes)
    requires sent == Fields(PROTOCOL_VERSION, PING, p.kind, p.code, check, p.excess)
    ensures EncodePing(sent)[..PING_HEADER_SIZE] <= StringMemory(PingWire(p, check), tail)
    ensures |StringMemory(PingWire(p, check), tail)| == PING_HEADER_SIZE + 1 + |tail|
  {
  }

  lemma PingThere(s: State, p: Ping, check: uint16, tail: bytes)
    requires |tail| >= PING_MESSAGE_SIZE - 1
    ensures var there := StringMemory(PingWire(p, check), tail);
            ReadablePing(there) && Step(s, Request(PingOf(DecodePing(there)))) == Step(s, Request(p))
  {
    var sent := Fields(PROTOCOL_VERSION, PING, p.kind, p.code, check, p.excess);
    SentFirst(sent, p, check, tail);
    TransmittedBytesDecide(s, sent, StringMemory(PingWire(p, check), tail));
  }

  lemma AckBack(check: uint16, tail: bytes)
    requires |tail| >= PING_MESSAGE_SIZE - 1
    ensures var back := StringMemory(PingWire(Ping(ACK, 0, 0), check), tail);
            && ReadablePing(back)
            && var got := PingOf(DecodePing(back));
               got.kind == ACK && got.code == 0 && got.excess % 0x1_0000_0000 == 0
  {
    var answered := Fields(PROTOCOL_VERSION, PING, ACK, 0, check, 0);
    SentFirst(answered, Ping(ACK, 0, 0), check, tail);
    TruncatedPing(answered, StringMemory(PingWire(Ping(ACK, 0, 0), check), tail));
  }

  /** The same through retries: if any of the three attempts is answered by the server's reply, the sender
      reads back type ACK. */
  lemma RetriedPingAcked(polls: seq<Option<bytes>>, k: nat, check: uint16, tail: bytes)
    requires |polls| >= REQUEST_RETRIES && |tail| >= PING_MESSAGE_SIZE - 1
    requires k < 3 && polls[k] == Some(PingWire(Ping(ACK, 0, 0), check)) && forall j :: 0 <= j < k ==> polls[j].None?
    ensures var mem := StringMemory(Outcome(polls), tail);
            && ReadablePing(mem)
            && var got := PingOf(DecodePing(mem));
               got.kind == 1 && got.code == 0 && got.excess % 0x1_0000_0000 == 0
  {
    OutcomeIs(polls);
    AckBack(check, tail);
  }
}

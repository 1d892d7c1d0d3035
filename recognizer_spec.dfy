/** The behaviour of one connection's protocol recognizer as functions on an
    abstract connection state: what each received chunk, each recognition
    attempt and each outbound call does, and what holds over any run. */
module RecognizerSpec {
  import opened ProtocolVersions

  newtype byte = b: int | 0 <= b < 256

  /** What the recognition rule makes of the bytes buffered so far: it needs
      more bytes, it found the handshake's protocol version, it found a legacy
      server ping, or the bytes fit neither format. */
  datatype Verdict = NeedMore | Version(version: int) | Ping | Reject

  /** Why the recognizer disconnected a client that no protocol can serve. */
  datatype Reason = UnsupportedVersion(version: int) | Malformed

  /** A write the recognizer makes to the client itself, past any protocol:
      the server-stats answer to a ping, or a kick. */
  datatype Reply = ServerStats | Kick(reason: Reason)

  datatype Arg = IntArg(i: int) | TextArg(s: string) | FlagArg(b: bool)

  /** One outbound Send* call, by name and arguments. */
  datatype Op = Op(name: string, args: seq<Arg>)

  /** Still sniffing, bound to the protocol of one version, or the client is gone. */
  datatype Phase = Sniffing | Recognized(version: int) | Closed

  /** The connection as the recognizer sees it.
      buffer: the bytes held back until the protocol is known;
      delivered: every byte handed to the recognized protocol, in order;
      forwarded: every Send* call passed to the recognized protocol, in order;
      replies: what the recognizer itself wrote to the client. */
  datatype Conn = Conn(phase: Phase, buffer: seq<byte>, delivered: seq<byte>,
                       forwarded: seq<Op>, replies: seq<Reply>)

  const Initial: Conn := Conn(Sniffing, [], [], [], [])

  /** A recognition rule that cannot be fooled by chunk boundaries: it decides
      nothing on no bytes, and once it has decided on some bytes, more bytes
      never change its mind. */
  ghost predicate Stable(classify: seq<byte> -> Verdict)
  {
    classify([]) == NeedMore &&
    forall p: seq<byte>, q: seq<byte> ::
      classify(p) != NeedMore ==> classify(p + q) == classify(p)
  }

  /** The client is disconnected: the buffer is discarded and one reply written. */
  function Close(c: Conn, reply: Reply): (r: Conn)
    ensures r.phase == Closed && r.buffer == []
    ensures r.replies == c.replies + [reply]
    ensures r.delivered == c.delivered && r.forwarded == c.forwarded
  {
    c.(phase := Closed, buffer := [], replies := c.replies + [reply])
  }

  /** Answer to a legacy server ping: reply with the server stats, then
      destroy the client. */
  function ServerPing(c: Conn): (r: Conn)
    ensures r.phase == Closed && r.replies == c.replies + [ServerStats]
  {
    Close(c, ServerStats)
  }

  /** One recognition attempt on the buffered bytes. A supported version binds
      the connection to that version (the buffer is handed over afterwards); a
      ping is answered; an unsupported version or unreadable bytes get a kick;
      too few bytes leave everything as it was. */
  function TryRecognize(c: Conn, classify: seq<byte> -> Verdict): (r: Conn)
    requires c.phase == Sniffing
    ensures r.phase == Sniffing <==> classify(c.buffer) == NeedMore
    ensures r.phase == Sniffing ==> r == c
    ensures r.phase.Recognized? <==>
              classify(c.buffer).Version? && IsSupported(classify(c.buffer).version)
    ensures r.phase.Recognized? ==>
              r == c.(phase := Recognized(classify(c.buffer).version))
    ensures r.phase == Closed ==>
              r.delivered == c.delivered && r.forwarded == c.forwarded && r.buffer == [] &&
              |r.replies| == |c.replies| + 1
  {
    match classify(c.buffer)
    case NeedMore => c
    case Version(v) => if IsSupported(v) then c.(phase := Recognized(v)) else Close(c, Kick(UnsupportedVersion(v)))
    case Ping => ServerPing(c)
    case Reject => Close(c, Kick(Malformed))
  }

  /** A chunk of bytes from the client. Before recognition it is appended to
      the buffer and recognition is retried, and on success the whole buffer
      goes to the new protocol; after recognition it goes straight to the
      protocol; once the client is gone it is ignored. */
  function Receive(c: Conn, data: seq<byte>, classify: seq<byte> -> Verdict): (r: Conn)
  {
    match c.phase
    case Recognized(_) => c.(delivered := c.delivered + data)
    case Closed => c
    case Sniffing =>
      var t := TryRecognize(c.(buffer := c.buffer + data), classify);
      if t.phase.Recognized? then t.(buffer := [], delivered := t.delivered + t.buffer) else t
  }

  /** An outbound Send* call: passed on unchanged once a protocol is
      recognized, dropped otherwise. */
  function Forward(c: Conn, op: Op): (r: Conn)
    ensures c.phase.Recognized? ==> r == c.(forwarded := c.forwarded + [op])
    ensures !c.phase.Recognized? ==> r == c
  {
    if c.phase.Recognized? then c.(forwarded := c.forwarded + [op]) else c
  }

  /** What happens on a connection: a chunk received, or a Send* call. */
  datatype Event = Data(bytes: seq<byte>) | Send(op: Op)

  function Step(c: Conn, e: Event, classify: seq<byte> -> Verdict): (r: Conn)
  {
    match e
    case Data(d) => Receive(c, d, classify)
    case Send(op) => Forward(c, op)
  }

  function Run(c: Conn, events: seq<Event>, classify: seq<byte> -> Verdict): (r: Conn)
    decreases |events|
  {
    if events == [] then c else Run(Step(c, events[0], classify), events[1..], classify)
  }

  function EventData(e: Event): (d: seq<byte>) { if e.Data? then e.bytes else [] }

  function EventOps(e: Event): (ops: seq<Op>) { if e.Send? then [e.op] else [] }

  /** All bytes received in a run, in arrival order. */
  function DataOf(events: seq<Event>): (d: seq<byte>)
  {
    if events == [] then [] else EventData(events[0]) + DataOf(events[1..])
  }

  /** All Send* calls of a run, in order. */
  function OpsOf(events: seq<Event>): (ops: seq<Op>)
  {
    if events == [] then [] else EventOps(events[0]) + OpsOf(events[1..])
  }

  /** Where every received byte is: while sniffing, all of them in the buffer;
      once recognized, all of them delivered to the protocol, which is of a
      supported version; once closed, none delivered. Send* calls reach a
      protocol only when one is recognized, and only a closed connection has
      had a reply, exactly one. */
  predicate Accounts(c: Conn, received: seq<byte>)
  {
    match c.phase
    case Sniffing =>
      c.buffer == received && c.delivered == [] && c.forwarded == [] && c.replies == []
    case Recognized(v) =>
      IsSupported(v) && c.buffer == [] && c.delivered == received && c.replies == []
    case Closed =>
      c.buffer == [] && c.delivered == [] && c.forwarded == [] && |c.replies| == 1
  }

  lemma InitialAccounts()
    ensures Accounts(Initial, [])
  {
  }

  /** One step keeps every byte accounted for, in order. */
  lemma StepAccounts(c: Conn, received: seq<byte>, e: Event, classify: seq<byte> -> Verdict)
    requires Accounts(c, received)
    ensures Accounts(Step(c, e, classify), received + EventData(e))
  {
    if e.Data? && c.phase == Sniffing {
      var t := TryRecognize(c.(buffer := c.buffer + e.bytes), classify);
      if t.phase.Recognized? {
        assert [] + t.buffer == received + e.bytes;
      }
    }
  }

  /** No byte is lost, duplicated or reordered before or after the hand-off,
      whatever the run. */
  lemma {:induction false} RunAccounts(c: Conn, received: seq<byte>, events: seq<Event>,
                                      classify: seq<byte> -> Verdict)
    requires Accounts(c, received)
    ensures Accounts(Run(c, events, classify), received + DataOf(events))
    decreases |events|
  {
    if events != [] {
      StepAccounts(c, received, events[0], classify);
      RunAccounts(Step(c, events[0], classify), received + EventData(events[0]), events[1..], classify);
      assert (received + EventData(events[0])) + DataOf(events[1..]) == received + DataOf(events);
    }
  }

  /** From a fresh connection, the buffer or the protocol holds exactly the
      bytes received so far. */
  lemma FreshRunAccounts(events: seq<Event>, classify: seq<byte> -> Verdict)
    ensures Accounts(Run(Initial, events, classify), DataOf(events))
  {
    RunAccounts(Initial, [], events, classify);
    assert [] + DataOf(events) == DataOf(events);
  }

  lemma StepRecognized(c: Conn, e: Event, classify: seq<byte> -> Verdict)
    requires c.phase.Recognized?
    ensures Step(c, e, classify) ==
              c.(delivered := c.delivered + EventData(e), forwarded := c.forwarded + EventOps(e))
  {
    if e.Data? {
      assert c.forwarded + [] == c.forwarded;
    } else {
      assert c.delivered + [] == c.delivered;
    }
  }

  /** Once a protocol is recognized it stays for good: later chunks are
      delivered to it verbatim and later Send* calls forwarded to it, without
      the recognition rule being consulted again. */
  lemma {:induction false} SelectionIsFinal(c: Conn, events: seq<Event>, classify: seq<byte> -> Verdict)
    requires c.phase.Recognized?
    ensures Run(c, events, classify) ==
              c.(delivered := c.delivered + DataOf(events), forwarded := c.forwarded + OpsOf(events))
    decreases |events|
  {
    if events == [] {
      assert c.delivered + [] == c.delivered && c.forwarded + [] == c.forwarded;
    } else {
      var e, rest := events[0], events[1..];
      StepRecognized(c, e, classify);
      SelectionIsFinal(Step(c, e, classify), rest, classify);
      AppendTwice(c, EventData(e), EventOps(e), DataOf(rest), OpsOf(rest));
    }
  }

  lemma AppendTwice(c: Conn, d1: seq<byte>, f1: seq<Op>, d2: seq<byte>, f2: seq<Op>)
    ensures c.(delivered := c.delivered + d1, forwarded := c.forwarded + f1)
             .(delivered := c.delivered + d1 + d2, forwarded := c.forwarded + f1 + f2)
            == c.(delivered := c.delivered + (d1 + d2), forwarded := c.forwarded + (f1 + f2))
  {
    assert c.delivered + d1 + d2 == c.delivered + (d1 + d2);
    assert c.forwarded + f1 + f2 == c.forwarded + (f1 + f2);
  }

  /** A closed connection ignores everything that follows. */
  lemma {:induction false} ClosedIsFinal(c: Conn, events: seq<Event>, classify: seq<byte> -> Verdict)
    requires c.phase == Closed
    ensures Run(c, events, classify) == c
    decreases |events|
  {
    if events != [] {
      ClosedIsFinal(Step(c, events[0], classify), events[1..], classify);
    }
  }

  /** A legacy server ping gets exactly one server-stats reply and closes the
      connection; nothing reaches a protocol then or ever after. */
  lemma PingIsTerminal(c: Conn, data: seq<byte>, events: seq<Event>, classify: seq<byte> -> Verdict)
    requires c.phase == Sniffing
    requires classify(c.buffer + data) == Ping
    ensures Receive(c, data, classify).replies == c.replies + [ServerStats]
    ensures Run(Receive(c, data, classify), events, classify) == Receive(c, data, classify)
    ensures Receive(c, data, classify).phase == Closed
    ensures Receive(c, data, classify).delivered == c.delivered
  {
    ClosedIsFinal(Receive(c, data, classify), events, classify);
  }

  /** A handshake with a version outside the table gets a kick naming that
      version, and no protocol is ever bound. */
  lemma UnsupportedVersionIsKicked(c: Conn, data: seq<byte>, v: int, events: seq<Event>,
                                   classify: seq<byte> -> Verdict)
    requires c.phase == Sniffing
    requires classify(c.buffer + data) == Version(v) && !IsSupported(v)
    ensures Receive(c, data, classify).replies == c.replies + [Kick(UnsupportedVersion(v))]
    ensures Run(Receive(c, data, classify), events, classify).phase == Closed
  {
    ClosedIsFinal(Receive(c, data, classify), events, classify);
  }

  /** A run made only of received chunks. */
  predicate OnlyData(events: seq<Event>)
  {
    forall k :: 0 <= k < |events| ==> events[k].Data?
  }

  /** Recognized: the bytes go on to the protocol. */
  lemma {:induction false} RecognizedReceivesAll(c: Conn, events: seq<Event>, classify: seq<byte> -> Verdict)
    requires c.phase.Recognized?
    requires OnlyData(events)
    ensures Run(c, events, classify) == Receive(c, DataOf(events), classify)
  {
    SelectionIsFinal(c, events, classify);
    assert c.forwarded + OpsOf(events) == c.forwarded by {
      OpsOfOnlyData(events);
    }
  }

  lemma {:induction false} OpsOfOnlyData(events: seq<Event>)
    requires OnlyData(events)
    ensures OpsOf(events) == []
  {
    if events != [] {
      OpsOfOnlyData(events[1..]);
    }
  }

  /** Chunk boundaries do not matter: with a stable recognition rule, receiving
      the bytes in any number of chunks ends exactly as receiving them at once. */
  lemma {:induction false} ChunkBoundaryInvariance(c: Conn, events: seq<Event>, classify: seq<byte> -> Verdict)
    requires Stable(classify)
    requires c.phase == Sniffing && classify(c.buffer) == NeedMore
    requires OnlyData(events)
    ensures Run(c, events, classify) == Receive(c, DataOf(events), classify)
    decreases |events|
  {
    if events == [] {
      assert c.buffer + [] == c.buffer;
    } else {
      var d := events[0].bytes;
      var rest := DataOf(events[1..]);
      assert DataOf(events) == d + rest;
      assert c.buffer + (d + rest) == (c.buffer + d) + rest;
      var c' := Receive(c, d, classify);
      if classify(c.buffer + d) == NeedMore {
        ChunkBoundaryInvariance(c', events[1..], classify);
      } else {
        assert classify((c.buffer + d) + rest) == classify(c.buffer + d);
        match c'.phase
        case Recognized(_) =>
          RecognizedReceivesAll(c', events[1..], classify);
          assert (c.buffer + d) + rest == c.buffer + (d + rest);
        case Closed =>
          ClosedIsFinal(c', events[1..], classify);
      }
    }
  }

  /** The same from a fresh connection: one byte at a time or all at once, the
      outcome is the same. */
  lemma FreshChunkBoundaryInvariance(events: seq<Event>, classify: seq<byte> -> Verdict)
    requires Stable(classify)
    requires OnlyData(events)
    ensures Run(Initial, events, classify) == Receive(Initial, DataOf(events), classify)
  {
    ChunkBoundaryInvariance(Initial, events, classify);
  }
}

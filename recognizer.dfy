/** The recognizer object that stands in front of one client connection: it
    buffers the first bytes until the protocol version is known, then hands
    everything to the protocol of that version. Each method is proved to do
    what the matching function of RecognizerSpec says. */
module Recognizer {
  import opened Text
  import opened ProtocolVersions
  import opened RecognizerSpec

  class ProtocolRecognizer {
    /** The recognition rule over the buffered bytes. */
    const classify: seq<byte> -> Verdict

    /** The recognized protocol, by version; None while still sniffing. */
    var protocol: Option<int>
    /** Incoming data kept until the protocol is recognized. */
    var buffer: seq<byte>
    /** The client has been destroyed (after a ping answer or a kick). */
    var destroyed: bool
    /** What the recognized protocol has been given: its input bytes and its Send* calls. */
    var delivered: seq<byte>
    var forwarded: seq<Op>
    /** What the recognizer wrote to the client itself. */
    var replies: seq<Reply>

    /** Every byte the client has sent so far. */
    ghost var received: seq<byte>

    function State(): (c: Conn)
      reads this
    {
      Conn(if destroyed then Closed else if protocol.Some? then Recognized(protocol.value) else Sniffing,
           buffer, delivered, forwarded, replies)
    }

    ghost predicate Valid()
      reads this
    {
      (destroyed ==> protocol == None) && Accounts(State(), received)
    }

    constructor (classify: seq<byte> -> Verdict)
      ensures Valid() && State() == Initial && received == []
      ensures this.classify == classify
    {
      this.classify := classify;
      protocol := None;
      buffer := [];
      destroyed := false;
      delivered := [];
      forwarded := [];
      replies := [];
      received := [];
    }

    /** Called when the client sends some data. */
    method DataReceived(data: seq<byte>)
      requires Valid()
      modifies this
      ensures Valid()
      ensures received == old(received) + data
      ensures State() == Receive(old(State()), data, classify)
    {
      received := received + data;
      if destroyed {
        return;
      }
      if protocol.Some? {
        delivered := delivered + data;
        return;
      }
      buffer := buffer + data;
      var recognized := TryRecognizeProtocol();
      if !recognized {
        return;
      }
      // The protocol has just been recognized: hand it the whole buffer.
      delivered := delivered + buffer;
      buffer := [];
    }

    /** Tries to recognize the protocol from the buffer; true exactly when a
        protocol has been set. */
    method TryRecognizeProtocol() returns (recognized: bool)
      requires !destroyed && protocol == None
      modifies this
      ensures recognized <==> protocol.Some?
      ensures State() == TryRecognize(old(State()), classify)
      ensures destroyed ==> protocol == None
      ensures received == old(received)
    {
      match classify(buffer)
      case NeedMore =>
        recognized := false;
      case Version(v) =>
        if IsSupported(v) {
          protocol := Some(v);
          recognized := true;
        } else {
          replies := replies + [Kick(UnsupportedVersion(v))];
          buffer := [];
          destroyed := true;
          recognized := false;
        }
      case Ping =>
        HandleServerPing();
        recognized := false;
      case Reject =>
        replies := replies + [Kick(Malformed)];
        buffer := [];
        destroyed := true;
        recognized := false;
    }

    /** Answers a server ping with the server stats and destroys the client. */
    method HandleServerPing()
      requires !destroyed && protocol == None
      modifies this
      ensures State() == ServerPing(old(State()))
      ensures protocol == None && received == old(received)
    {
      replies := replies + [ServerStats];
      buffer := [];
      destroyed := true;
    }

    /** Any Send* call: goes to the recognized protocol unchanged; reports
        whether there was one to take it. */
    method Forward(op: Op) returns (sent: bool)
      requires Valid()
      modifies this
      ensures Valid() && received == old(received)
      ensures sent <==> old(State()).phase.Recognized?
      ensures State() == RecognizerSpec.Forward(old(State()), op)
    {
      sent := !destroyed && protocol.Some?;
      if sent {
        forwarded := forwarded + [op];
      }
    }
  }
}

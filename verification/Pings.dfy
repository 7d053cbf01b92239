/** The Ping class of ping.cc. The timer, the receive and the io_service appear as the
    operations outstanding on them; sockets and the clock are left out. */
module Pings {
  import opened MachineTypes
  import opened Checksums
  import opened IcmpHeaders
  import opened Ipv4Headers
  import opened PingModel

  /** The request start_send encodes. */
  method EncodeRequest(identifier: uint16, number: uint16) returns (request: seq<byte>)
    ensures request == EchoRequest(identifier, number)
    ensures IsEchoRequest(request, identifier as nat, number as nat)
  {
    hide *;
    var echoRequest := new IcmpHeader();
    echoRequest.SetType(ECHO_REQUEST);
    echoRequest.SetCode(0);
    echoRequest.SetIdentifier(identifier);
    echoRequest.SetSequenceNumber(number);
    FieldsSet(ECHO_REQUEST, identifier, number);
    ComputeChecksum(echoRequest, BODY);
    request := echoRequest.rep[..] + BODY;
    EchoRequestParts(identifier, number);
    EchoRequestIs(identifier, number);
  }

  lemma FieldsSet(kind: byte, id: uint16, number: uint16)
    ensures seq(8, _ => 0 as byte)[0 := kind][1 := 0]
              [4 := (id / 0x100) as byte][5 := (id % 0x100) as byte]
              [6 := (number / 0x100) as byte][7 := (number % 0x100) as byte]
         == PlainHeader(kind, id, number)
  {
  }

  lemma EchoRequestParts(id: uint16, number: uint16)
    ensures var rep := PlainHeader(ECHO_REQUEST, id, number);
            EchoRequest(id, number) == WithChecksum(rep, Checksum(rep, BODY)) + BODY
  {
  }

  /** The header fields handle_receive looks at, if the stream does not fail. */
  method DecodeReply(received: seq<byte>) returns (ok: bool, kind: byte, id: uint16, number: uint16)
    ensures ok <==> IcmpOf(received).Some?
    ensures ok ==> var h := IcmpOf(received).value;
              kind == h[0] && id as nat == WordAt(h, 4) && number as nat == WordAt(h, 6)
  {
    var input := new InputStream(received);
    var ipv4Hdr := new Ipv4Header();
    var icmpHdr := new IcmpHeader();
    ExtractBoth(input, ipv4Hdr, icmpHdr);
    ok, kind := !input.failed, icmpHdr.Type();
    id, number := icmpHdr.Identifier(), icmpHdr.SequenceNumber();
    assert icmpHdr.rep[..][0] == kind;
  }

  class Ping {
    const identifier: uint16
    var sequenceNumber: uint16
    var numReplies: nat
    var timeOut: int
    var timeOutCounter: int
    var replyBuffer: seq<byte>
    var waiting: seq<Continuation>
    var ready: seq<Continuation>
    var receives: nat
    var stopped: bool
    ghost var log: seq<Entry>

    ghost function Value(): PingState
      reads this
    {
      PingState(identifier, sequenceNumber, numReplies, timeOut, timeOutCounter,
                waiting, ready, receives, stopped, log)
    }

    constructor (identifier: uint16)
      ensures Value() == PingState(identifier, 0, 0, 0, 0, [], [], 0, false, []) && replyBuffer == []
    {
      this.identifier := identifier;
      sequenceNumber, numReplies := 0, 0;
      timeOut, timeOutCounter := 0, 0;
      replyBuffer := [];
      waiting, ready, receives, stopped := [], [], 0, false;
      log := [];
    }

    /** Up to io_service_.run(). */
    method PingUntilDisconnect(counter: int)
      modifies this
      ensures Value() == Relaunch(old(Value()), counter) && replyBuffer == []
      ensures old(Value()) == PingState(identifier, 0, 0, 0, 0, [], [], 0, false, []) ==>
                Value() == Launch(identifier, counter)
      ensures timeOut == 0 && timeOutCounter == counter && numReplies == 0
      ensures receives == old(receives) + 1 && Continuation.HandleTimeout in waiting
    {
      hide EchoRequest;
      timeOutCounter := counter;
      timeOut := 0;
      StartSend();
      StartReceive();
    }

    /** expires_at and cancel: every handler waiting on the timer is queued. */
    method ReleaseTimer()
      modifies this`waiting, this`ready
      ensures Value() == Release(old(Value()))
    {
      ready, waiting := ready + waiting, [];
    }

    method TimerAsyncWait(k: Continuation)
      modifies this`waiting
      ensures Value() == AsyncWait(old(Value()), k)
    {
      waiting := waiting + [k];
    }

    method StartSend()
      modifies this
      ensures Value() == Send(old(Value())) && replyBuffer == old(replyBuffer)
    {
      hide EchoRequest;
      sequenceNumber := NextNumber(sequenceNumber);
      var request := EncodeRequest(identifier, sequenceNumber);
      log := log + [Sent(request)];
      numReplies := 0;
      ReleaseTimer();
      TimerAsyncWait(Continuation.HandleTimeout);
    }

    method HandleTimeout()
      modifies this
      ensures Value() == Judge(old(Value())) && replyBuffer == old(replyBuffer)
    {
      log := log + [Judged];
      if numReplies == 0 {
        timeOut := timeOut + 1;
        if timeOut == timeOutCounter {
          ReleaseTimer();
          stopped := true;
          log := log + [Halted];
          return;
        }
      } else {
        timeOut := 0;
      }
      ReleaseTimer();
      TimerAsyncWait(Continuation.StartSend);
    }

    method StartReceive()
      modifies this`replyBuffer, this`receives
      ensures replyBuffer == [] && Value() == old(Value()).(receives := old(receives) + 1)
    {
      replyBuffer := [];
      receives := receives + 1;
    }

    /** A receive has completed with the given bytes, none if it failed. */
    method HandleReceive(received: seq<byte>)
      requires receives > 0 && replyBuffer == []
      modifies this
      ensures Value() == Receive(old(Value()), received) && replyBuffer == []
      ensures var h := IcmpOf(received);
              numReplies - old(numReplies) ==
                if && h.Some? && h.value[0] == 0
                   && h.value[4] as nat * 0x100 + h.value[5] as nat == identifier as nat
                   && h.value[6] as nat * 0x100 + h.value[7] as nat == sequenceNumber as nat
                then 1 else 0
    {
      receives := receives - 1;
      replyBuffer := replyBuffer + received;
      assert replyBuffer == received;
      var ok, kind, id, number := DecodeReply(replyBuffer);
      hide IcmpOf, WordAt;
      if ok && kind == ECHO_REPLY && id == identifier && number == sequenceNumber {
        numReplies := numReplies + 1;
        ReleaseTimer();
        log := log + [Matched];
      }
      StartReceive();
    }

    /** One step of io_service_.run(): whatever may happen next happens, and the object
        moves exactly as the event loop on values does. */
    method Dispatch(e: Event)
      requires Enabled(Value(), e) && replyBuffer == []
      modifies this
      ensures Value() == Next(old(Value()), e) && replyBuffer == []
    {
      match e
      case Elapse => ReleaseTimer();
      case RunReady =>
        var k := ready[0];
        ready := ready[1..];
        match k {
          case HandleTimeout => HandleTimeout();
          case StartSend => StartSend();
        }
      case Datagram(bytes) => HandleReceive(bytes);
    }
  }
}

/** The connection object, updated in place; every method is proved against the functions of module Tcp. */
module TcpConnection {
  import opened Addresses
  import opened Bytes
  import opened Tcp

  class Connection {
    var status: Status
    var localSequenceNumber: nat
    var localAcknowledgment: nat
    var remoteAcknowledgment: nat
    var retryTimer: nat
    var localAddress: Ipv6Address
    var remoteAddress: Ipv6Address
    var localPort: Port
    var remotePort: Port
    var remoteMaximumSegmentSize: nat
    var remoteWindowScale: nat
    var selectiveAcknowledgmentEnabled: bool
    var localInitialSequenceNumber: Natural32
    var remoteInitialSequenceNumber: Natural32
    var retryCounter: nat
    var remoteFinished: bool
    var receiveBuffer: map<int, Byte>
    var transmitted: seq<Sent> // what was handed to the interface

    function State(): Tcb
      reads this
    {
      Tcb(status, localSequenceNumber, localAcknowledgment, remoteAcknowledgment, retryTimer,
          localAddress, remoteAddress, localPort, remotePort,
          remoteMaximumSegmentSize, remoteWindowScale, selectiveAcknowledgmentEnabled,
          localInitialSequenceNumber, remoteInitialSequenceNumber,
          retryCounter, remoteFinished, receiveBuffer, transmitted)
    }

    constructor (port: Port)
      ensures State() == Fresh(port)
    {
      status := Closed;
      localSequenceNumber, localAcknowledgment, remoteAcknowledgment, retryTimer := 0, 0, 0, 0;
      localAddress, remoteAddress, localPort, remotePort := 0, 0, port, 0;
      remoteMaximumSegmentSize, remoteWindowScale, selectiveAcknowledgmentEnabled := 1440, 0, false;
      localInitialSequenceNumber, remoteInitialSequenceNumber := 0, 0;
      retryCounter, remoteFinished, receiveBuffer, transmitted := 0, false, map[], [];
    }

    method Transmit(now: nat, frame: bool) returns (ok: bool)
      modifies this
      ensures State() == Tcp.Transmit(old(State()), now, frame)
      ensures ok == frame
    {
      if !frame {
        return false;
      }
      var synchronize := status == SynSent || status == SynReceived;
      var acknowledgment, acknowledgmentNumber := false, 0;
      if status != SynSent {
        acknowledgmentNumber := Low32(localAcknowledgment);
        acknowledgment := true;
      }
      var windowSize := if synchronize then Min(65535, LOCAL_WINDOW_SIZE) else LOCAL_WINDOW_SIZE / 32;
      var finish, options := false, [];
      if synchronize {
        options := [2, 4, (LOCAL_MAXIMUM_SEGMENT_SIZE / 0x100) as Byte, (LOCAL_MAXIMUM_SEGMENT_SIZE % 0x100) as Byte,
                    3, 3, LOCAL_WINDOW_SCALE as Byte, 4, 2, 0, 0, 0];
      } else if remoteAcknowledgment < localSequenceNumber {
      } else if status == FinSent {
        finish := true;
      }
      transmitted := transmitted + [Sent(localAddress, remoteAddress, localPort, remotePort,
                                         Low32(localSequenceNumber), acknowledgmentNumber,
                                         synchronize, acknowledgment, finish, windowSize, options)];
      retryTimer := now + TIMER_PRECISION_SCALE;
      return true;
    }

    // Walks the options and returns where they end.
    method ParseOptions(memory: nat -> Byte, headerEnd: nat) returns (optionsEnd: nat)
      modifies this
      ensures var o := ParsedOptions(memory, HEADER_LENGTH,
                         Options(headerEnd, old(remoteMaximumSegmentSize), old(remoteWindowScale),
                                 old(selectiveAcknowledgmentEnabled)));
              && optionsEnd == o.end
              && State() == old(State()).(remoteMaximumSegmentSize := o.maximumSegmentSize,
                                          remoteWindowScale := o.windowScale,
                                          selectiveAcknowledgmentEnabled := o.selectiveAcknowledgment)
    {
      var pos: nat := HEADER_LENGTH;
      optionsEnd := headerEnd;
      ghost var parsed := ParsedOptions(memory, pos,
                            Options(optionsEnd, remoteMaximumSegmentSize, remoteWindowScale, selectiveAcknowledgmentEnabled));
      while pos < optionsEnd
        invariant ParsedOptions(memory, pos, Options(optionsEnd, remoteMaximumSegmentSize, remoteWindowScale,
                                                     selectiveAcknowledgmentEnabled)) == parsed
        invariant State() == old(State()).(remoteMaximumSegmentSize := remoteMaximumSegmentSize,
                                           remoteWindowScale := remoteWindowScale,
                                           selectiveAcknowledgmentEnabled := selectiveAcknowledgmentEnabled)
        decreases optionsEnd - pos
      {
        var next := NextOption(memory, pos);
        match memory(pos) {
          case 0 => optionsEnd := pos + 1;
          case 2 => remoteMaximumSegmentSize := 0x100 * memory(pos + 2) as nat + memory(pos + 3) as nat;
          case 3 => remoteWindowScale := memory(pos + 2) as nat;
          case 4 => selectiveAcknowledgmentEnabled := true;
          case _ =>
        }
        pos := next;
      }
    }

    // Direct placement: bytes go to their offset in the receive buffer.
    method Copy(dst: int, memory: nat -> Byte, from: nat, n: nat)
      modifies this`receiveBuffer
      ensures receiveBuffer == Copied(old(receiveBuffer), dst, memory, from, n)
    {
      for i := 0 to n
        invariant receiveBuffer == Copied(old(receiveBuffer), dst, memory, from, i)
      {
        receiveBuffer := receiveBuffer[dst + i := memory(from + i)];
      }
    }

    method ReceiveSynchronize(s: Segment, now: nat, frame: bool)
      modifies this
      ensures State() == ReceivedSyn(old(State()), s, now, frame)
    {
      hide Tcp.Transmit;
      if status == Listen {
        if s.acknowledgment {
          return;
        }
        remoteAddress := s.sourceAddress;
        remotePort := s.sourcePort;
        localSequenceNumber := 0;
        status := SynReceived;
      } else if status == SynSent {
        if !s.acknowledgment {
          status := SynReceived;
        } else if s.acknowledgmentNumber == localSequenceNumber + 1 {
          Establish(s);
        } else {
          return;
        }
      } else if status != SynReceived {
        return;
      }
      localAcknowledgment := Add32(s.sequenceNumber, 1);
      var _ := Transmit(now, frame);
    }

    method Establish(s: Segment)
      modifies this
      ensures State() == SetEstablished(old(State()), s)
    {
      localSequenceNumber := localSequenceNumber + 1;
      localInitialSequenceNumber := Low32(localSequenceNumber);
      remoteInitialSequenceNumber := s.sequenceNumber;
      status := Established;
    }

    method AcknowledgeFinish(now: nat)
      modifies this
      ensures var c := old(State()).(localSequenceNumber := old(localSequenceNumber) + 1);
              State() == if c.remoteFinished then SetTimedClose(c, now) else c.(status := WaitingForRemoteToFinish)
    {
      localSequenceNumber := localSequenceNumber + 1;
      if remoteFinished {
        retryTimer := now + TIMER_PRECISION_SCALE;
        status := TimedClose;
      } else {
        status := WaitingForRemoteToFinish;
      }
    }

    method Acknowledge(s: Segment, now: nat)
      modifies this
      ensures State() == Acknowledged(old(State()), s, now)
    {
      hide Low32;
      if status == SynReceived {
        Establish(s);
      } else if status == FinSent && s.acknowledgmentNumber == localSequenceNumber + 1 {
        AcknowledgeFinish(now);
      }
      if s.acknowledgmentNumber > remoteAcknowledgment {
        remoteAcknowledgment := s.acknowledgmentNumber;
      }
    }

    method ReceiveData(s: Segment, optionsEnd: nat, now: nat, frame: bool)
      modifies this
      ensures State() == ReceivedData(old(State()), s, optionsEnd, now, frame)
    {
      hide Tcp.Transmit, Stored;
      if s.finish {
        if s.sequenceNumber != localAcknowledgment {
          return;
        }
        remoteFinished := true;
        if status == WaitingForRemoteToFinish {
          retryTimer := now + TIMER_PRECISION_SCALE;
          status := TimedClose;
        }
      }
      Store(s, optionsEnd);
      if s.finish || s.PayloadLength() > 0 {
        var _ := Transmit(now, frame);
      }
    }

    method Store(s: Segment, optionsEnd: nat)
      modifies this
      ensures State() == Stored(old(State()), s, optionsEnd)
    {
      hide Copied;
      var payloadLength := s.PayloadLength();
      var remoteSequenceNumber := Add32(s.sequenceNumber, payloadLength);
      if s.finish {
        remoteSequenceNumber := Add32(remoteSequenceNumber, 1);
      }
      if localAcknowledgment < remoteSequenceNumber {
        if s.sequenceNumber == localAcknowledgment {
          localAcknowledgment := remoteSequenceNumber;
        }
        Copy(s.sequenceNumber - remoteInitialSequenceNumber, s.memory, optionsEnd, payloadLength);
      }
    }

    method TakeHeader(s: Segment) returns (optionsEnd: nat)
      modifies this
      ensures State() == WithHeader(old(State()), s)
      ensures optionsEnd == OptionsOf(old(State()), s).end
    {
      hide ParsedOptions;
      localAddress := s.destinationAddress;
      optionsEnd := ParseOptions(s.memory, s.HeaderEnd());
    }

    method Receive(s: Segment, now: nat, frame: bool) returns (ok: bool)
      modifies this
      ensures State() == Received(old(State()), s, now, frame)
      ensures ok == (old(status) != Closed)
    {
      hide ParsedOptions, NextOption, WithOption, ReceivedSyn, Acknowledged, ReceivedData, Outgoing, Copied, OptionsOf;
      if status == Closed {
        return false;
      }
      if status != Listen && (remoteAddress != s.sourceAddress || remotePort != s.sourcePort) {
        return true;
      }
      var optionsEnd := TakeHeader(s);
      if s.reset {
        if status != Listen && status != TimedClose {
          status := Closed;
        }
      } else if s.synchronize {
        ReceiveSynchronize(s, now, frame);
      } else if status != Listen && status != SynSent {
        Acknowledge(s, now);
        ReceiveData(s, optionsEnd, now, frame);
      }
      return true;
    }

    method Poll(now: nat, frame: bool) returns (ok: bool)
      modifies this
      ensures State() == Tcp.Poll(old(State()), now, frame)
      ensures ok == (status != Closed)
    {
      hide Outgoing;
      if status == Closed {
        return false;
      }
      if now < retryTimer || status == Listen || status == WaitingForRemoteToFinish
         || (status == Established && remoteAcknowledgment == localSequenceNumber) {
        return true;
      }
      if status == TimedClose {
        status := Finished;
        return true;
      }
      retryCounter := (retryCounter + 1) % 0x100;
      if retryCounter > RETRY_LIMIT {
        status := Closed;
        return false;
      }
      var _ := Transmit(now, frame);
      return true;
    }

    method StartListening() returns (ok: bool)
      modifies this
      ensures State() == Listened(old(State()))
      ensures ok == (old(status) == Closed)
    {
      if status != Closed {
        return false;
      }
      status := Listen;
      return true;
    }

    method Connect(now: nat, frame: bool) returns (ok: bool)
      modifies this
      ensures State() == Connected(old(State()), now, frame)
      ensures ok == (old(status) == Closed || old(status) == Listen)
    {
      hide Tcp.Transmit;
      if status != Closed && status != Listen {
        return false;
      }
      localSequenceNumber := 0;
      status := SynSent;
      var _ := Transmit(now, frame);
      return true;
    }

    method Close(now: nat, frame: bool) returns (ok: bool)
      modifies this
      ensures State() == ClosedBy(old(State()), now, frame)
      ensures ok == (State().status != old(status))
    {
      hide Outgoing;
      match status {
        case Listen | SynSent | Finished =>
          status := Closed;
          return true;
        case SynReceived | Established =>
          status := FinSent;
          var _ := Transmit(now, frame);
          return true;
        case _ =>
          return false;
      }
    }

    // A segment for another port is answered with a reset and does not reach the connection.
    method Dispatch(s: Segment, now: nat, frame: bool, closeFrame: bool)
      modifies this
      ensures State() == Dispatched(old(State()), s, now, frame, closeFrame)
    {
      hide Received, ClosedBy;
      if s.destinationPort != localPort {
        return;
      }
      var _ := Receive(s, now, frame);
      if remoteFinished {
        var _ := Close(now, closeFrame);
      }
    }
  }
}

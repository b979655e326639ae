/**
 What one event does to a connection, told by the segments it adds and the fields it leaves: where segments come
 from and go to, what they number and acknowledge, which events are answered, what a reset does, and what the
 option list of a segment means.
 */
module TcpLaws {
  import opened Addresses
  import opened Bytes
  import opened Tcp
  import opened TcpLife

  // A segment for the connection: while it listens anyone's, later its peer's.
  predicate Accepts(c: Tcb, s: Segment) {
    && s.destinationPort == c.localPort && c.status != Closed
    && (c.status == Listen || (s.sourceAddress == c.remoteAddress && s.sourcePort == c.remotePort))
  }

  // ---------------------------------------------------------------------------
  // Segments sent
  // ---------------------------------------------------------------------------

  // The segment carries the addresses and numbers of this state.
  predicate Describes(t: Sent, r: Tcb) {
    && t.sourceAddress == r.localAddress && t.sourcePort == r.localPort
    && t.destinationAddress == r.remoteAddress && t.destinationPort == r.remotePort
    && t.sequenceNumber == r.localSequenceNumber % LIMIT_32
    && (t.acknowledgment <==> r.status != SynSent)
    && t.acknowledgmentNumber == if t.acknowledgment then r.localAcknowledgment % LIMIT_32 else 0
  }

  // Its flags are those of this state.
  predicate Flags(t: Sent, r: Tcb) {
    && (t.synchronize <==> r.status == SynSent || r.status == SynReceived)
    && (t.finish <==> r.status == FinSent && r.remoteAcknowledgment >= r.localSequenceNumber)
  }

  // A receiver that reads the options of our SYN, and scales the window of later segments by what it read,
  // gets the local limits.
  ghost predicate Advertises(t: Sent) {
    && ShiftedLeft(t.windowSize, if t.synchronize then 0 else 5) == 32768
    && (!t.synchronize ==> t.options == [])
    && (t.synchronize ==>
          |t.options| == 12
          && forall memory: nat -> Byte, o: Options {:trigger ParsedOptions(memory, HEADER_LENGTH, o)} ::
               o.end == HEADER_LENGTH + 12 && Holds(memory, HEADER_LENGTH, t.options) ==>
                 ParsedOptions(memory, HEADER_LENGTH, o) == Options(HEADER_LENGTH + 10, 1440, 5, true))
  }

  ghost predicate Holds(memory: nat -> Byte, at: nat, bytes: seq<Byte>) {
    forall i | 0 <= i < |bytes| :: memory(at + i) == bytes[i]
  }

  // The dispatcher closes the connection after the segment was received.
  predicate ClosesAfter(c: Tcb, e: Event, r: Tcb) {
    e.Deliver? && r.status == FinSent && c.status != FinSent
  }

  // What the event added is at most two segments.  The last one shows the state after it, unless the dispatcher closed
  // and had no frame; what was answered before it closed is no FIN.
  ghost predicate SendsOf(c: Tcb, e: Event, r: Tcb) {
    var n := |c.transmitted|;
    && c.transmitted <= r.transmitted && |r.transmitted| == n + AddedBy(c, e, r)
    && (forall i | n <= i < |r.transmitted| :: Describes(r.transmitted[i], r))
    && (|r.transmitted| > n && !(ClosesAfter(c, e, r) && !e.closeFrame) ==>
          Flags(r.transmitted[|r.transmitted| - 1], r))
    && (ClosesAfter(c, e, r) && e.frame && Answered(c, e.segment) ==>
          && !r.transmitted[n].finish
          && (r.transmitted[n].synchronize <==>
                e.segment.synchronize && !(c.status == SynSent && e.segment.acknowledgment)))
  }

  // Whether a delivered segment is answered: a SYN where one is expected, a FIN at exactly the number expected,
  // or any payload; a segment shorter than its header counts as payload too.
  predicate Answered(c: Tcb, s: Segment) {
    && Accepts(c, s) && !s.reset
    && if s.synchronize then
         || (c.status == Listen && !s.acknowledgment)
         || (c.status == SynSent && (!s.acknowledgment || s.acknowledgmentNumber == c.localSequenceNumber + 1))
         || c.status == SynReceived
       else
         && c.status !in {Listen, SynSent}
         && if s.finish then s.sequenceNumber == c.localAcknowledgment else s.ipPayloadLength != 4 * s.dataOffset
  }

  // How many segments the event adds.
  function AddedBy(c: Tcb, e: Event, r: Tcb): nat {
    match e
    case Deliver(s, _, frame, closeFrame) =>
      (if frame && Answered(c, s) then 1 else 0)
      + (if closeFrame && r.status == FinSent && c.status != FinSent then 1 else 0)
    case Tick(now, frame) => if frame && Retries(c) && now >= c.retryTimer && RetryLeft(c) then 1 else 0
    case CallListen(_) => 0
    case CallConnect(_, _, _, frame) => if frame && c.status in {Closed, Listen} then 1 else 0
    case CallClose(_, frame) => if frame && c.status in {SynReceived, Established} then 1 else 0
  }

  // A SYN or a FIN waits for its acknowledgment; a Finished connection goes on like one that does.
  predicate Retries(c: Tcb) {
    || c.status in {SynSent, SynReceived, FinSent, Finished}
    || (c.status == Established && c.remoteAcknowledgment != c.localSequenceNumber)
  }

  // The counter is 8 bits wide.
  predicate RetryLeft(c: Tcb) {
    (c.retryCounter + 1) % 0x100 <= 5
  }

  lemma OutgoingDescribes(c: Tcb, r: Tcb)
    requires r == c.(transmitted := r.transmitted, retryTimer := r.retryTimer, status := r.status)
    requires c.status == SynSent <==> r.status == SynSent
    ensures Describes(Outgoing(c), r)
  {
    hide WindowField, SynOptions;
  }

  lemma OutgoingFlags(c: Tcb, r: Tcb)
    requires r == c.(transmitted := r.transmitted, retryTimer := r.retryTimer)
    ensures Flags(Outgoing(c), r)
  {
    hide Low32, WindowField, SynOptions;
  }

  // Receiving adds the segment of the state it leads to.
  lemma ReceivedAdds(c: Tcb, s: Segment, now: nat, frame: bool)
    requires s.destinationPort == c.localPort && s.dataOffset <= 15
    ensures var r := Received(c, s, now, frame);
            && r.transmitted == c.transmitted + (if frame && Answered(c, s) then [Outgoing(r)] else [])
            && (frame && Answered(c, s) ==> r.status != SynSent)
            && r.localAddress == if Accepts(c, s) then s.destinationAddress else c.localAddress
  {
    hide ParsedOptions, ReceivedSyn, Acknowledged, ReceivedData, Outgoing;
    var c1 := WithHeader(c, s);
    if s.synchronize {
      SynAdds(c1, s, now, frame);
    } else if c.status !in {Closed, Listen, SynSent} {
      AcknowledgingAdds(c1, s, now);
      DataAdds(Acknowledged(c1, s, now), s, OptionsOf(c, s).end, now, frame);
    }
  }

  lemma SynAdds(c: Tcb, s: Segment, now: nat, frame: bool)
    requires s.synchronize
    ensures var r := ReceivedSyn(c, s, now, frame);
            var answered := (c.status == Listen && !s.acknowledgment)
                            || (c.status == SynSent && (!s.acknowledgment || s.acknowledgmentNumber == c.localSequenceNumber + 1))
                            || c.status == SynReceived;
            && r.transmitted == c.transmitted + (if frame && answered then [Outgoing(r)] else [])
            && (frame && answered ==> r.status != SynSent)
            && r.localAddress == c.localAddress
  {
    hide Low32, WindowField, SynOptions;
  }

  lemma AcknowledgingAdds(c: Tcb, s: Segment, now: nat)
    ensures var r := Acknowledged(c, s, now);
            && r.transmitted == c.transmitted && r.localAddress == c.localAddress
            && r.localAcknowledgment == c.localAcknowledgment
            && (c.status !in {Closed, Listen, SynSent} ==> r.status !in {Closed, Listen, SynSent, SynReceived})
  {
  }

  lemma NoPayloadIff(s: Segment)
    requires s.dataOffset <= 15
    ensures s.PayloadLength() == 0 <==> s.ipPayloadLength == 4 * s.dataOffset
  {
  }

  lemma DataAdds(c: Tcb, s: Segment, from: nat, now: nat, frame: bool)
    requires s.dataOffset <= 15
    ensures var r := ReceivedData(c, s, from, now, frame);
            var answered := if s.finish then s.sequenceNumber == c.localAcknowledgment
                            else s.ipPayloadLength != 4 * s.dataOffset;
            && r.transmitted == c.transmitted + (if frame && answered then [Outgoing(r)] else [])
            && (r.status == SynSent ==> c.status == SynSent)
            && r.localAddress == c.localAddress
  {
    NoPayloadIff(s);
    hide Stored, Segment.PayloadLength, Outgoing;
    StoringAdds(if s.finish then FinishAccepted(c, now) else c, s, from, now, frame);
  }

  lemma StoringAdds(c: Tcb, s: Segment, from: nat, now: nat, frame: bool)
    ensures var c2 := Stored(c, s, from);
            var r := Transmit(c2, now, frame);
            && r.transmitted == c.transmitted + (if frame then [Outgoing(r)] else [])
            && c2.transmitted == c.transmitted
            && r.status == c2.status == c.status && r.localAddress == c2.localAddress == c.localAddress
  {
    hide Low32, WindowField, SynOptions, Copied, NextSequenceNumber;
  }

  lemma TickAdds(c: Tcb, now: nat, frame: bool)
    ensures var r := Apply(c, Tick(now, frame));
            r.transmitted == c.transmitted
              + if frame && Retries(c) && now >= c.retryTimer && RetryLeft(c) then [Outgoing(r)] else []
  {
    hide Low32, WindowField, SynOptions;
  }

  lemma ConnectAdds(c: Tcb, e: Event)
    requires e.CallConnect?
    ensures var r := Apply(c, e);
            r.transmitted == c.transmitted + if e.frame && c.status in {Closed, Listen} then [Outgoing(r)] else []
  {
    hide Low32, WindowField, SynOptions;
  }

  // Closing adds the segment of FinSent.
  lemma CloseAdds(c: Tcb, now: nat, frame: bool)
    ensures var r := ClosedBy(c, now, frame);
            && r.transmitted == c.transmitted + (if frame && c.status in {SynReceived, Established} then [Outgoing(r)] else [])
            && r == c.(status := r.status, retryTimer := r.retryTimer, transmitted := r.transmitted)
            && (r.status == FinSent && c.status != FinSent <==> c.status in {SynReceived, Established})
            && r.status in {c.status, FinSent, Closed}
            && (r.status == Closed && c.status != Closed ==> c.status in {Listen, SynSent, Finished})
  {
    hide Low32, WindowField, SynOptions;
  }

  lemma DeliverySends(c: Tcb, e: Event)
    requires e.Deliver? && e.segment.dataOffset <= 15
    ensures SendsOf(c, e, Apply(c, e))
  {
    hide Received, ClosedBy, Outgoing, Answered;
    if e.segment.destinationPort == c.localPort {
      var r := Received(c, e.segment, e.now, e.frame);
      ReceivedAdds(c, e.segment, e.now, e.frame);
      CloseAdds(r, e.now, e.closeFrame);
      BothSend(c, e, r, Apply(c, e));
    } else {
      NotAnswered(c, e.segment);
    }
  }

  lemma NotAnswered(c: Tcb, s: Segment)
    requires s.destinationPort != c.localPort
    ensures !Answered(c, s)
  {
  }

  // The answer and the dispatcher's FIN together.
  lemma BothSend(c: Tcb, e: Event, m: Tcb, r: Tcb)
    requires e.Deliver? && e.segment.dataOffset <= 15 && e.segment.destinationPort == c.localPort
    requires m == Received(c, e.segment, e.now, e.frame)
    requires r == if m.remoteFinished then ClosedBy(m, e.now, e.closeFrame) else m
    ensures SendsOf(c, e, r)
  {
    hide Received, Outgoing, Answered, ClosedBy, Describes, Flags;
    ReceivedAdds(c, e.segment, e.now, e.frame);
    ReceivedStatus(c, e.segment, e.now, e.frame);
    CloseAdds(m, e.now, e.closeFrame);
    OutgoingDescribes(r, r);
    OutgoingFlags(r, r);
    var answered := e.frame && Answered(c, e.segment);
    if answered {
      FirstDescribes(c, e.segment, m, r);
    }
  }

  // What was answered, seen from the state after the dispatcher closed.
  lemma FirstDescribes(c: Tcb, s: Segment, m: Tcb, r: Tcb)
    requires r == m.(status := r.status, retryTimer := r.retryTimer, transmitted := r.transmitted)
    requires r.status == m.status || (m.status != SynSent && r.status in {FinSent, Closed})
    requires m.status != SynSent && m.status != Listen
    requires s.synchronize ==> (m.status == SynReceived <==> !(c.status == SynSent && s.acknowledgment))
    requires !s.synchronize ==> m.status !in {SynSent, SynReceived}
    requires r.status == Closed && m.status != Closed ==> m.status == Finished
    ensures Describes(Outgoing(m), r)
    ensures !(r.status == FinSent && m.status != FinSent) ==> Flags(Outgoing(m), r)
    ensures m.status == SynReceived || m.status == Established ==> !Outgoing(m).finish
    ensures m.status != SynSent ==> (Outgoing(m).synchronize <==> s.synchronize && !(c.status == SynSent && s.acknowledgment))
  {
    OutgoingDescribes(m, r);
    OutgoingFlags(m, m);
    hide WindowField, SynOptions, Low32;
  }

  // The state an answered segment leads to.
  lemma ReceivedStatus(c: Tcb, s: Segment, now: nat, frame: bool)
    ensures var m := Received(c, s, now, frame);
            && (Answered(c, s) ==> m.status !in {Closed, Listen, SynSent})
            && (Answered(c, s) && s.synchronize ==> (m.status == SynReceived <==> !(c.status == SynSent && s.acknowledgment)))
            && (Answered(c, s) && !s.synchronize ==> m.status != SynReceived)
            && (c.status == FinSent && m.status != FinSent ==> m.status !in {SynReceived, Established})
            && (m.status == FinSent ==> c.status == FinSent)
  {
    hide ParsedOptions, Outgoing, ReceivedData;
    var c1 := WithHeader(c, s);
    AcknowledgingAdds(c1, s, now);
    DataKeepsPeer(Acknowledged(c1, s, now), s, OptionsOf(c, s).end, now, frame);
  }

  /** Every segment an event adds carries the addresses and numbers of the state after it: it comes from where the
      last segment accepted went to, it numbers what was sent, and if it acknowledges then exactly what was received.
      The last one carries the flags of that state.  How many are added is decided by the event. */
  lemma {:induction false} EventSends(c: Tcb, e: Event)
    requires e.Deliver? ==> e.segment.dataOffset <= 15
    ensures SendsOf(c, e, Apply(c, e))
  {
    hide Outgoing, Answered, Describes, Flags, Received;
    match e
    case Deliver(_, _, _, _) => DeliverySends(c, e);
    case Tick(now, frame) =>
      OutgoingDescribes(Apply(c, e), Apply(c, e));
      OutgoingFlags(Apply(c, e), Apply(c, e));
      TickAdds(c, now, frame);
    case CallConnect(_, _, _, _) =>
      OutgoingDescribes(Apply(c, e), Apply(c, e));
      OutgoingFlags(Apply(c, e), Apply(c, e));
      ConnectAdds(c, e);
    case CallClose(now, frame) =>
      OutgoingDescribes(Apply(c, e), Apply(c, e));
      OutgoingFlags(Apply(c, e), Apply(c, e));
      CloseAdds(c, now, frame);
    case _ =>
  }

  lemma OutgoingAdvertises(c: Tcb)
    ensures Advertises(Outgoing(c))
  {
    var t := Outgoing(c);
    ScaledWindow();
    if t.synchronize {
      forall memory: nat -> Byte, o: Options | o.end == HEADER_LENGTH + 12 && Holds(memory, HEADER_LENGTH, t.options)
        ensures ParsedOptions(memory, HEADER_LENGTH, o) == Options(HEADER_LENGTH + 10, 1440, 5, true)
      {
        assert forall i | 0 <= i < 12 :: memory(HEADER_LENGTH + i) == t.options[i];
        SynOptionsAdvertise(memory, o);
      }
    }
  }

  lemma ScaledWindow()
    ensures ShiftedLeft(WindowField(true), 0) == 32768 == ShiftedLeft(WindowField(false), 5)
  {
    assert ShiftedLeft(1024, 3) == 8192;
  }

  /** Every segment an event adds tells the peer the local window, and a SYN the local limits. */
  lemma {:induction false} EventAdvertises(c: Tcb, e: Event, i: nat)
    requires e.Deliver? ==> e.segment.dataOffset <= 15
    requires |c.transmitted| <= i < |Apply(c, e).transmitted|
    ensures Advertises(Apply(c, e).transmitted[i])
  {
    hide Outgoing, Answered, Advertises, Received, ClosedBy;
    var r := Apply(c, e);
    OutgoingAdvertises(r);
    match e
    case Deliver(s, now, frame, closeFrame) =>
      var m := Received(c, s, now, frame);
      if s.destinationPort == c.localPort {
        ReceivedAdds(c, s, now, frame);
        OutgoingAdvertises(m);
        CloseAdds(m, now, closeFrame);
      }
    case Tick(now, frame) => TickAdds(c, now, frame);
    case CallConnect(_, _, _, _) => ConnectAdds(c, e);
    case CallClose(now, frame) => CloseAdds(c, now, frame);
    case _ =>
  }

  // ---------------------------------------------------------------------------
  // What an accepted segment leaves
  // ---------------------------------------------------------------------------

  /** The local address is where the last segment accepted went to; nothing else sets it. */
  lemma {:induction false} LocalAddressIsDestination(c: Tcb, e: Event)
    requires e.Deliver? ==> e.segment.dataOffset <= 15
    ensures Apply(c, e).localAddress ==
            if e.Deliver? && Accepts(c, e.segment) then e.segment.destinationAddress else c.localAddress
  {
    hide Received, Outgoing;
    if e.Deliver? && e.segment.destinationPort == c.localPort {
      ReceivedAdds(c, e.segment, e.now, e.frame);
    }
  }

  /** A reset of the peer closes a connection, except in TimedClose, and while it listens with no FIN left over; it is
      never answered, and counts nothing. */
  lemma {:induction false} ResetCloses(c: Tcb, s: Segment, now: nat, frame: bool, closeFrame: bool)
    requires Accepts(c, s) && s.reset
    ensures var r := Apply(c, Deliver(s, now, frame, closeFrame));
            && r.status == (if c.status == TimedClose || (c.status == Listen && !c.remoteFinished) then c.status else Closed)
            && r.transmitted == c.transmitted && r.receiveBuffer == c.receiveBuffer
            && r.localSequenceNumber == c.localSequenceNumber && r.localAcknowledgment == c.localAcknowledgment
            && r.remoteAcknowledgment == c.remoteAcknowledgment && r.remoteFinished == c.remoteFinished
            && r.retryTimer == c.retryTimer && r.retryCounter == c.retryCounter
  {
    hide ParsedOptions, Outgoing;
  }

  // A segment that completes the handshake: any that is no SYN for a half-open connection, or the SYN that
  // acknowledges ours.
  predicate Establishes(c: Tcb, s: Segment) {
    && Accepts(c, s) && !s.reset
    && if s.synchronize then c.status == SynSent && s.acknowledgment && s.acknowledgmentNumber == c.localSequenceNumber + 1
       else c.status == SynReceived
  }

  // What receiving changes of the numbers and of what is known of the peer.
  predicate SameNumbers(c: Tcb, r: Tcb) {
    && r.localInitialSequenceNumber == c.localInitialSequenceNumber
    && r.localSequenceNumber == c.localSequenceNumber
    && r.remoteInitialSequenceNumber == c.remoteInitialSequenceNumber
  }

  predicate SameOptions(c: Tcb, r: Tcb) {
    && r.remoteMaximumSegmentSize == c.remoteMaximumSegmentSize && r.remoteWindowScale == c.remoteWindowScale
    && r.selectiveAcknowledgmentEnabled == c.selectiveAcknowledgmentEnabled
  }

  lemma DataKeepsNumbers(c: Tcb, s: Segment, from: nat, now: nat, frame: bool)
    ensures var r := ReceivedData(c, s, from, now, frame);
            SameNumbers(c, r) && SameOptions(c, r) && (c.status == Established ==> r.status == Established)
  {
    hide Outgoing, Copied, NextSequenceNumber;
  }

  lemma OpeningKeepsOptions(c: Tcb, s: Segment, now: nat, frame: bool)
    ensures SameOptions(c, ReceivedSyn(c, s, now, frame)) && SameOptions(c, Acknowledged(c, s, now))
  {
    hide Outgoing;
  }

  lemma CloseKeepsNumbers(c: Tcb, now: nat, frame: bool)
    ensures SameNumbers(c, ClosedBy(c, now, frame)) && SameOptions(c, ClosedBy(c, now, frame))
    ensures c.status == Established ==> ClosedBy(c, now, frame).status == FinSent
  {
    hide Outgoing;
  }

  /** The segment that establishes a connection gives it its base, and makes the number it counts to the initial one. */
  lemma {:induction false} EstablishingSetsNumbers(c: Tcb, s: Segment, now: nat, frame: bool, closeFrame: bool)
    requires Establishes(c, s)
    ensures var r := Apply(c, Deliver(s, now, frame, closeFrame));
            && r.status in {Established, FinSent}
            && r.localSequenceNumber == c.localSequenceNumber + 1
            && r.localInitialSequenceNumber == r.localSequenceNumber % LIMIT_32
            && r.remoteInitialSequenceNumber == s.sequenceNumber
  {
    hide ParsedOptions, Outgoing, ReceivedData, ClosedBy;
    var c1 := WithHeader(c, s);
    DataKeepsNumbers(Acknowledged(c1, s, now), s, OptionsOf(c, s).end, now, frame);
    CloseKeepsNumbers(Received(c, s, now, frame), now, closeFrame);
  }

  // ---------------------------------------------------------------------------
  // The option list
  // ---------------------------------------------------------------------------

  // The kinds the parser knows, as they are encoded.
  datatype TcpOption =
    | Padding
    | MaximumSegmentSize(size: nat)
    | WindowScale(scale: Byte)
    | SackPermitted
    | Sack(blocks: seq<Byte>)
    | Timestamp(values: seq<Byte>)
  {
    predicate Valid() {
      match this
      case MaximumSegmentSize(size) => size < LIMIT_16
      case Sack(blocks) => |blocks| <= 253
      case Timestamp(values) => |values| == 8
      case _ => true
    }

    // Kind, length, value.
    function Encoded(): (bytes: seq<Byte>)
      requires Valid()
      ensures |bytes| > 0
    {
      match this
      case Padding => [1]
      case MaximumSegmentSize(size) => [2, 4, (size / 0x100) as Byte, (size % 0x100) as Byte]
      case WindowScale(scale) => [3, 3, scale]
      case SackPermitted => [4, 2]
      case Sack(blocks) => [5, (2 + |blocks|) as Byte] + blocks
      case Timestamp(values) => [8, 10] + values
    }

    function Read(o: Options): Options {
      match this
      case MaximumSegmentSize(size) => o.(maximumSegmentSize := size)
      case WindowScale(scale) => o.(windowScale := scale as nat)
      case SackPermitted => o.(selectiveAcknowledgment := true)
      case _ => o
    }
  }

  ghost predicate AllValid(options: seq<TcpOption>) {
    forall i | 0 <= i < |options| :: options[i].Valid()
  }

  function EncodedAll(options: seq<TcpOption>): seq<Byte>
    requires AllValid(options)
  {
    if options == [] then [] else options[0].Encoded() + EncodedAll(options[1..])
  }

  function ReadAll(options: seq<TcpOption>, o: Options): Options {
    if options == [] then o else ReadAll(options[1..], options[0].Read(o))
  }

  lemma HoldsSplit(memory: nat -> Byte, at: nat, a: seq<Byte>, b: seq<Byte>)
    requires Holds(memory, at, a + b)
    ensures Holds(memory, at, a) && Holds(memory, at + |a|, b)
  {
    assert forall i | 0 <= i < |a| :: (a + b)[i] == a[i];
    assert forall i | 0 <= i < |b| :: (a + b)[|a| + i] == b[i];
  }

  lemma OneOption(memory: nat -> Byte, pos: nat, option: TcpOption, o: Options)
    requires option.Valid() && Holds(memory, pos, option.Encoded()) && pos < o.end
    ensures NextOption(memory, pos) == pos + |option.Encoded()|
    ensures WithOption(memory, pos, o) == option.Read(o)
  {
    var bytes := option.Encoded();
    assert memory(pos) == bytes[0];
    assert |bytes| > 1 ==> memory(pos + 1) == bytes[1];
    assert |bytes| > 2 ==> memory(pos + 2) == bytes[2];
    assert |bytes| > 3 ==> memory(pos + 3) == bytes[3];
  }

  lemma FirstIsRead(memory: nat -> Byte, pos: nat, option: TcpOption, o: Options)
    requires option.Valid() && Holds(memory, pos, option.Encoded()) && pos < o.end
    ensures ParsedOptions(memory, pos, o) == ParsedOptions(memory, pos + |option.Encoded()|, option.Read(o))
    ensures option.Read(o).end == o.end
  {
    OneOption(memory, pos, option, o);
    hide NextOption, WithOption, TcpOption.Encoded, Holds;
  }

  lemma FirstAndRest(memory: nat -> Byte, pos: nat, options: seq<TcpOption>)
    requires options != [] && AllValid(options) && Holds(memory, pos, EncodedAll(options))
    ensures var first, rest := options[0], options[1..];
            && first.Valid() && AllValid(rest)
            && Holds(memory, pos, first.Encoded()) && Holds(memory, pos + |first.Encoded()|, EncodedAll(rest))
            && |EncodedAll(options)| == |first.Encoded()| + |EncodedAll(rest)|
  {
    assert options[0].Valid() && AllValid(options[1..]);
    hide TcpOption.Encoded, TcpOption.Valid, Holds, AllValid;
    assert EncodedAll(options) == options[0].Encoded() + EncodedAll(options[1..]);
    hide EncodedAll;
    HoldsSplit(memory, pos, options[0].Encoded(), EncodedAll(options[1..]));
  }

  lemma NoOption(memory: nat -> Byte, pos: nat, o: Options)
    requires o.end == pos || (o.end > pos && memory(pos) == 0)
    ensures ParsedOptions(memory, pos, o) == o.(end := if o.end == pos then pos else pos + 1)
  {
    if pos < o.end {
      assert ParsedOptions(memory, pos + 1, o.(end := pos + 1)) == o.(end := pos + 1);
    }
  }

  /** A list of known options is read as it is meant, each once, to its end: the header's end, or the first End
      option, behind which anything may stand. */
  lemma {:induction false} OptionsRoundTrip(memory: nat -> Byte, pos: nat, options: seq<TcpOption>, o: Options)
    requires AllValid(options) && Holds(memory, pos, EncodedAll(options))
    requires var after := pos + |EncodedAll(options)|; o.end == after || (o.end > after && memory(after) == 0)
    ensures var after := pos + |EncodedAll(options)|;
            ParsedOptions(memory, pos, o) == ReadAll(options, o).(end := if o.end == after then after else after + 1)
    decreases |options|
  {
    hide ParsedOptions, AllValid, Holds, TcpOption.Encoded, TcpOption.Read;
    if options == [] {
      NoOption(memory, pos, o);
    } else {
      FirstAndRest(memory, pos, options);
      FirstIsRead(memory, pos, options[0], o);
      hide EncodedAll;
      OptionsRoundTrip(memory, pos + |options[0].Encoded()|, options[1..], options[0].Read(o));
    }
  }

  /** So what the peer's options say is what a connection knows of it after an accepted segment. */
  lemma {:induction false} OptionsAreTaken(c: Tcb, s: Segment, options: seq<TcpOption>, now: nat, frame: bool,
                                           closeFrame: bool)
    requires Accepts(c, s) && AllValid(options) && Holds(s.memory, 20, EncodedAll(options))
    requires var after := 20 + |EncodedAll(options)|;
             4 * s.dataOffset == after || (4 * s.dataOffset > after && s.memory(after) == 0)
    ensures var r := Apply(c, Deliver(s, now, frame, closeFrame));
            var o := ReadAll(options, Options(0, c.remoteMaximumSegmentSize, c.remoteWindowScale,
                                              c.selectiveAcknowledgmentEnabled));
            && r.remoteMaximumSegmentSize == o.maximumSegmentSize && r.remoteWindowScale == o.windowScale
            && r.selectiveAcknowledgmentEnabled == o.selectiveAcknowledgment
  {
    var o := Options(4 * s.dataOffset, c.remoteMaximumSegmentSize, c.remoteWindowScale, c.selectiveAcknowledgmentEnabled);
    OptionsRoundTrip(s.memory, HEADER_LENGTH, options, o);
    ReadIgnoresEnd(options, o, 0);
    hide ParsedOptions, EncodedAll, ReadAll, Holds;
    ReceivedKeepsOptions(c, s, now, frame);
    CloseKeepsNumbers(Received(c, s, now, frame), now, closeFrame);
    hide Received, ClosedBy;
  }

  lemma {:induction false} ReadIgnoresEnd(options: seq<TcpOption>, o: Options, end: nat)
    ensures ReadAll(options, o.(end := end)) == ReadAll(options, o).(end := end)
  {
    if options != [] {
      ReadIgnoresEnd(options[1..], options[0].Read(o), end);
    }
  }

  lemma ReceivedKeepsOptions(c: Tcb, s: Segment, now: nat, frame: bool)
    requires Accepts(c, s)
    ensures var r, o := Received(c, s, now, frame), OptionsOf(c, s);
            && r.remoteMaximumSegmentSize == o.maximumSegmentSize && r.remoteWindowScale == o.windowScale
            && r.selectiveAcknowledgmentEnabled == o.selectiveAcknowledgment
  {
    hide OptionsOf, ReceivedSyn, Acknowledged, ReceivedData;
    var c1 := WithHeader(c, s);
    OpeningKeepsOptions(c1, s, now, frame);
    DataKeepsNumbers(Acknowledged(c1, s, now), s, OptionsOf(c, s).end, now, frame);
  }

  // ---------------------------------------------------------------------------
  // The timer
  // ---------------------------------------------------------------------------

  /** A tick before the timer changes nothing.  At the timer a timed close ends; a connection that waits for an
      acknowledgment counts a retry and, if there is a frame, sends one segment and waits a second again, or gives up
      after five; nothing else happens to any other. */
  lemma {:induction false} TickWaitsForTimer(c: Tcb, now: nat, frame: bool)
    ensures var r := Apply(c, Tick(now, frame));
            && (now < c.retryTimer ==> r == c)
            && (now >= c.retryTimer ==>
                  if c.status == TimedClose then r == c.(status := Finished)
                  else if !Retries(c) then r == c
                  else if !RetryLeft(c) then r == c.(status := Closed, retryCounter := r.retryCounter)
                  else r == c.(retryCounter := r.retryCounter, transmitted := r.transmitted,
                               retryTimer := if frame then now + 1000 else c.retryTimer)
                       && |r.transmitted| == |c.transmitted| + if frame then 1 else 0)
            && r.retryCounter ==
               if now >= c.retryTimer && Retries(c) then (c.retryCounter + 1) % 0x100 else c.retryCounter
  {
    hide Outgoing;
  }
}

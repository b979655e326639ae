/**
 The download: whatever the network does to the segments of a peer that sends one byte stream,
 a finished connection holds that stream.

 Placement is relative to the sequence number of the segment that established the connection.
 The shift of a connection is how far that number lies beyond the first byte of the stream.
 */
module TcpDownload {
  import opened Addresses
  import opened Bytes
  import opened Tcp
  import opened TcpLife

  datatype Peer = Peer(address: Ipv6Address, port: Port, initialSequenceNumber: Natural32, stream: seq<Byte>) {
    // Sequence number of the first byte of the stream.
    function Base(): nat {
      initialSequenceNumber + 1
    }

    // The first number after the stream and the FIN.
    function Limit(): nat {
      Base() + |stream| + 1
    }

    ghost predicate Valid() {
      Limit() < LIMIT_32
    }
  }

  // ---------------------------------------------------------------------------
  // Where the parser looks for the payload
  // ---------------------------------------------------------------------------

  // Stepping from option to option, the walk meets an End before the last header byte.
  predicate MeetsEarlyEnd(memory: nat -> Byte, pos: nat, headerEnd: nat)
    decreases headerEnd - pos
  {
    pos < headerEnd
    && if memory(pos) == 0 then pos + 1 < headerEnd
       else MeetsEarlyEnd(memory, NextOption(memory, pos), headerEnd)
  }

  /** The payload is copied from the end of the header if and only if no End option
      comes before the last byte of the header. */
  lemma {:induction false} CopiesFromHeaderEndIff(memory: nat -> Byte, pos: nat, o: Options)
    ensures ParsedOptions(memory, pos, o).end == o.end <==> !MeetsEarlyEnd(memory, pos, o.end)
    decreases o.end - pos
  {
    if pos < o.end {
      CopiesFromHeaderEndIff(memory, NextOption(memory, pos), WithOption(memory, pos, o));
    }
  }

  predicate CleanOptions(s: Segment) {
    !MeetsEarlyEnd(s.memory, HEADER_LENGTH, s.HeaderEnd())
  }

  // ---------------------------------------------------------------------------
  // What the peer sends
  // ---------------------------------------------------------------------------

  // A slice of the stream, possibly with the FIN at its end; or a bare acknowledgment.
  ghost predicate CarriesSlice(p: Peer, s: Segment) {
    && s.HeaderEnd() <= s.ipPayloadLength
    && var length, at := s.ipPayloadLength - s.HeaderEnd(), s.sequenceNumber - p.Base();
       if length == 0 && !s.finish then 0 <= at <= |p.stream| + 1
       else
         && 0 <= at && at + length <= |p.stream|
         && (s.finish ==> at + length == |p.stream|)
         && forall i | 0 <= i < length :: PayloadByte(s, i) == p.stream[at + i]
  }

  // No option ends the header early where there is something to copy.
  ghost predicate IsSlice(p: Peer, s: Segment) {
    CarriesSlice(p, s) && (s.ipPayloadLength > s.HeaderEnd() ==> CleanOptions(s))
  }

  function PayloadByte(s: Segment, i: nat): Byte {
    s.memory(s.HeaderEnd() + i)
  }

  // What may arrive in this state.  For the connection's port the peer resets, synchronizes with its initial
  // number, or sends a slice; other hosts send anything, except a SYN that would be accepted in its place.
  ghost predicate FromNetwork(p: Peer, c: Tcb, s: Segment) {
    s.destinationPort == c.localPort ==>
      if s.sourceAddress == p.address && s.sourcePort == p.port then
        s.reset || (if s.synchronize then s.sequenceNumber == p.initialSequenceNumber else IsSlice(p, s))
      else
        c.status == Listen ==> s.reset || !s.synchronize || s.acknowledgment
  }

  // In the life of a connection the owner and the timer do what they like, close() at any time included.
  ghost predicate FromEnvironment(p: Peer, c: Tcb, e: Event) {
    if e.Deliver? then FromNetwork(p, c, e.segment) else !Reopens(c, e)
  }

  ghost predicate EnvironmentRun(p: Peer, c: Tcb, events: seq<Event>) {
    forall i | 0 <= i < |events| :: FromEnvironment(p, Run(c, events[..i]), events[i])
  }

  lemma EnvironmentFront(p: Peer, c: Tcb, events: seq<Event>, n: nat)
    requires EnvironmentRun(p, c, events) && n <= |events|
    ensures EnvironmentRun(p, c, events[..n])
    ensures n < |events| ==> FromEnvironment(p, Run(c, events[..n]), events[n])
  {
    assert forall i | 0 <= i < n :: events[..n][..i] == events[..i];
  }

  lemma EnvironmentExtends(p: Peer, c: Tcb, events: seq<Event>, e: Event)
    requires EnvironmentRun(p, c, events) && FromEnvironment(p, Run(c, events), e)
    ensures EnvironmentRun(p, c, events + [e])
  {
    var all := events + [e];
    assert forall i | 0 <= i <= |events| :: all[..i] == events[..i];
    assert events[..|events|] == events;
  }

  // ---------------------------------------------------------------------------
  // The invariant
  // ---------------------------------------------------------------------------

  function Shift(p: Peer, c: Tcb): int {
    c.remoteInitialSequenceNumber - p.Base()
  }

  predicate Synchronized(c: Tcb) {
    c.status !in {Closed, Listen, SynSent, SynReceived}
  }

  // Every byte in the buffer is the stream's byte for its offset.
  ghost predicate OnlyStream(p: Peer, c: Tcb) {
    forall o | o in c.receiveBuffer ::
      0 <= o + Shift(p, c) < |p.stream| && c.receiveBuffer[o] == p.stream[o + Shift(p, c)]
  }

  // The buffer has byte i of the stream.
  ghost predicate HoldsByte(p: Peer, c: Tcb, i: int) {
    i - Shift(p, c) in c.receiveBuffer
  }

  // Every byte of the stream below `limit` is in the buffer.
  ghost predicate StoredBelow(p: Peer, c: Tcb, limit: int) {
    forall i | 0 <= i < |p.stream| && p.Base() + i < limit :: HoldsByte(p, c, i)
  }

  ghost predicate AcknowledgesOnly(c: Tcb, limit: nat) {
    forall i | 0 <= i < |c.transmitted| && c.transmitted[i].acknowledgment ::
      c.transmitted[i].acknowledgmentNumber <= limit
  }

  ghost predicate SentToPeer(p: Peer, c: Tcb) {
    forall i | 0 <= i < |c.transmitted| ::
      c.transmitted[i].destinationAddress == p.address && c.transmitted[i].destinationPort == p.port
      && c.transmitted[i].sourcePort == c.localPort
  }

  ghost predicate Opening(p: Peer, c: Tcb) {
    && !c.remoteFinished && c.receiveBuffer == map[]
    && (c.status == SynSent || c.status == SynReceived ==> c.remoteAddress == p.address && c.remotePort == p.port)
    && (c.status == SynReceived ==> c.localAcknowledgment == p.Base())
    && AcknowledgesOnly(c, p.Base())
    && SentToPeer(p, c)
  }

  ghost predicate Receiving(p: Peer, c: Tcb) {
    && c.remoteAddress == p.address && c.remotePort == p.port
    && p.Base() <= c.localAcknowledgment <= p.Limit()
    && (c.remoteFinished <==> c.localAcknowledgment == p.Limit())
    && (c.status == TimedClose || c.status == Finished ==> c.remoteFinished)
    && OnlyStream(p, c)
    && StoredBelow(p, c, c.localAcknowledgment)
    && AcknowledgesOnly(c, c.localAcknowledgment)
    && SentToPeer(p, c)
  }

  ghost predicate DownloadInvariant(p: Peer, c: Tcb) {
    && (c.status in {Listen, SynSent, SynReceived} ==> Opening(p, c))
    && (Synchronized(c) ==> Receiving(p, c))
  }

  // ---------------------------------------------------------------------------
  // Storing a slice
  // ---------------------------------------------------------------------------

  lemma {:induction false} CopiedBytes(buffer: map<int, Byte>, dst: int, memory: nat -> Byte, from: nat, n: nat)
    ensures var r := Copied(buffer, dst, memory, from, n);
            && (forall o :: o in r <==> o in buffer || dst <= o < dst + n)
            && (forall o | o in r :: r[o] == if dst <= o < dst + n then memory(from + (o - dst)) else buffer[o])
  {
    if n > 0 {
      CopiedBytes(buffer, dst, memory, from, n - 1);
    }
  }

  lemma SliceNumbers(p: Peer, s: Segment)
    requires p.Valid() && IsSlice(p, s)
    ensures s.PayloadLength() == s.ipPayloadLength - s.HeaderEnd()
    ensures NextSequenceNumber(s) == s.sequenceNumber + s.PayloadLength() + (if s.finish then 1 else 0)
    ensures NextSequenceNumber(s) <= p.Limit()
  {
  }

  // The connection after the payload of a slice was copied.
  function WithSlice(c: Tcb, s: Segment): Tcb {
    c.(receiveBuffer := Copied(c.receiveBuffer, s.sequenceNumber - c.remoteInitialSequenceNumber,
                               s.memory, s.HeaderEnd(), s.PayloadLength()))
  }

  lemma CopyKeepsStream(p: Peer, c: Tcb, s: Segment)
    requires p.Valid() && IsSlice(p, s) && OnlyStream(p, c)
    ensures OnlyStream(p, WithSlice(c, s))
    ensures forall i :: HoldsByte(p, c, i) ==> HoldsByte(p, WithSlice(c, s), i)
    ensures forall i | s.sequenceNumber <= p.Base() + i < s.sequenceNumber + s.PayloadLength() ::
              HoldsByte(p, WithSlice(c, s), i)
  {
    SliceNumbers(p, s);
    var length, at := s.PayloadLength(), s.sequenceNumber - p.Base();
    var dst := s.sequenceNumber - c.remoteInitialSequenceNumber;
    var r := WithSlice(c, s).receiveBuffer;
    CopiedBytes(c.receiveBuffer, dst, s.memory, s.HeaderEnd(), length);
    forall o | o in r
      ensures 0 <= o + Shift(p, c) < |p.stream| && r[o] == p.stream[o + Shift(p, c)]
    {
      assert r == Copied(c.receiveBuffer, dst, s.memory, s.HeaderEnd(), length);
      if dst <= o < dst + length {
        assert o + Shift(p, c) == at + (o - dst);
        assert PayloadByte(s, o - dst) == p.stream[at + (o - dst)];
      } else {
        assert o in c.receiveBuffer && r[o] == c.receiveBuffer[o];
      }
    }
    forall i | s.sequenceNumber <= p.Base() + i < s.sequenceNumber + length
      ensures HoldsByte(p, WithSlice(c, s), i)
    {
      var o := i - Shift(p, c);
      assert dst <= o < dst + length;
    }
  }

  // Storing a slice extends the prefix exactly when the slice starts where it is expected.
  lemma StoreKeepsReceiving(p: Peer, c: Tcb, s: Segment, from: nat)
    requires p.Valid() && IsSlice(p, s) && Receiving(p, c)
    requires s.PayloadLength() > 0 ==> from == s.HeaderEnd()
    requires s.finish ==> s.sequenceNumber == c.localAcknowledgment
    ensures var r := Stored(c.(remoteFinished := c.remoteFinished || s.finish), s, from);
            Receiving(p, r) && r.localAcknowledgment >= c.localAcknowledgment
  {
    SliceNumbers(p, s);
    CopyKeepsStream(p, c, s);
    assert s.PayloadLength() == 0 ==>
        Copied(c.receiveBuffer, s.sequenceNumber - c.remoteInitialSequenceNumber, s.memory, from, s.PayloadLength())
        == WithSlice(c, s).receiveBuffer;
    assert s.finish ==> s.sequenceNumber + s.PayloadLength() == p.Base() + |p.stream|;
    hide Copied, NextSequenceNumber, IsSlice, OnlyStream, AcknowledgesOnly, SentToPeer;
    var r := Stored(c.(remoteFinished := c.remoteFinished || s.finish), s, from);
    if c.localAcknowledgment < NextSequenceNumber(s) {
      assert r.receiveBuffer == WithSlice(c, s).receiveBuffer;
    } else {
      assert r.receiveBuffer == c.receiveBuffer;
    }
    forall i | 0 <= i < |p.stream| && p.Base() + i < r.localAcknowledgment
      ensures HoldsByte(p, r, i)
    {
      if p.Base() + i < c.localAcknowledgment {
        assert HoldsByte(p, c, i);
      }
      assert HoldsByte(p, WithSlice(c, s), i) || r.receiveBuffer == c.receiveBuffer;
    }
  }

  // What a synchronized connection stores of a data segment, wherever its options end.
  lemma StoresFromOptionsEnd(c: Tcb, s: Segment, now: nat, frame: bool, i: nat)
    requires Synchronized(c) && FromRemote(c, s) && !s.reset && !s.synchronize && !s.finish
    requires c.localAcknowledgment < NextSequenceNumber(s) && i < s.PayloadLength()
    ensures var r := Received(c, s, now, frame);
            var o := s.sequenceNumber - c.remoteInitialSequenceNumber + i;
            && o in r.receiveBuffer && r.receiveBuffer[o] == s.memory(OptionsOf(c, s).end + i)
            && (OptionsOf(c, s).end == s.HeaderEnd() <==> CleanOptions(s))
  {
    CopiesFromHeaderEndIff(s.memory, HEADER_LENGTH,
                           Options(s.HeaderEnd(), c.remoteMaximumSegmentSize, c.remoteWindowScale,
                                   c.selectiveAcknowledgmentEnabled));
    CopiedBytes(c.receiveBuffer, s.sequenceNumber - c.remoteInitialSequenceNumber, s.memory,
                OptionsOf(c, s).end, s.PayloadLength());
    StoresPayload(c, s, now, frame);
    hide Copied, ParsedOptions, Received;
  }

  lemma StoresPayload(c: Tcb, s: Segment, now: nat, frame: bool)
    requires Synchronized(c) && FromRemote(c, s) && !s.reset && !s.synchronize && !s.finish
    requires c.localAcknowledgment < NextSequenceNumber(s)
    ensures Received(c, s, now, frame).receiveBuffer ==
            Copied(c.receiveBuffer, s.sequenceNumber - c.remoteInitialSequenceNumber, s.memory,
                   OptionsOf(c, s).end, s.PayloadLength())
  {
    hide Copied, ParsedOptions, Outgoing, NextSequenceNumber, Acknowledged;
    AcknowledgingKeepsBuffer(WithHeader(c, s), s, now);
  }

  lemma AcknowledgingKeepsBuffer(c: Tcb, s: Segment, now: nat)
    requires Synchronized(c)
    ensures var r := Acknowledged(c, s, now);
            && r.receiveBuffer == c.receiveBuffer && r.localAcknowledgment == c.localAcknowledgment
            && r.remoteInitialSequenceNumber == c.remoteInitialSequenceNumber
  {
  }

  lemma EndStops(memory: nat -> Byte, pos: nat, o: Options)
    requires pos < o.end && memory(pos) == 0
    ensures ParsedOptions(memory, pos, o).end == pos + 1
  {
    assert ParsedOptions(memory, pos + 1, o.(end := pos + 1)) == o.(end := pos + 1);
  }

  /** A segment whose options are four End bytes and whose payload is a single 1 leaves a 0 in the buffer. */
  lemma {:induction false} EarlyEndMisplacesPayload(c: Tcb, s: Segment, now: nat, frame: bool)
    requires Synchronized(c) && FromRemote(c, s) && !s.reset && !s.synchronize && !s.finish
    requires c.localAcknowledgment == s.sequenceNumber == c.remoteInitialSequenceNumber < LIMIT_32 - 1
    requires s.dataOffset == 6 && s.ipPayloadLength == 25
    requires forall at: nat :: s.memory(at) == if at < 24 then 0 else 1
    ensures PayloadByte(s, 0) == 1
    ensures 0 in Received(c, s, now, frame).receiveBuffer && Received(c, s, now, frame).receiveBuffer[0] == 0
  {
    assert s.memory(20) == 0 && s.memory(21) == 0 && s.memory(24) == 1;
    EndStops(s.memory, HEADER_LENGTH, Options(24, c.remoteMaximumSegmentSize, c.remoteWindowScale,
                                              c.selectiveAcknowledgmentEnabled));
    StoresFromOptionsEnd(c, s, now, frame, 0);
    hide Received, ParsedOptions;
  }

  // ---------------------------------------------------------------------------
  // Every step keeps the invariant
  // ---------------------------------------------------------------------------

  lemma TransmitKeeps(p: Peer, c: Tcb, now: nat, frame: bool)
    requires p.Valid() && DownloadInvariant(p, c)
    requires c.status != Closed && c.status != Listen
    ensures DownloadInvariant(p, Transmit(c, now, frame))
  {
    assert c.localAcknowledgment < LIMIT_32 ==> Low32(c.localAcknowledgment) == c.localAcknowledgment;
    hide Low32;
    var r := Transmit(c, now, frame);
    assert Shift(p, r) == Shift(p, c);
    assert forall i :: HoldsByte(p, c, i) <==> HoldsByte(p, r, i);
  }

  lemma SynKeeps(p: Peer, c: Tcb, s: Segment, now: nat, frame: bool)
    requires p.Valid() && DownloadInvariant(p, c)
    requires s.sourceAddress == p.address && s.sourcePort == p.port && s.sequenceNumber == p.initialSequenceNumber
    ensures DownloadInvariant(p, ReceivedSyn(c, s, now, frame))
  {
    hide Transmit;
    var c1 := c.(localAcknowledgment := Add32(s.sequenceNumber, 1));
    match c.status {
      case Listen =>
        TransmitKeeps(p, c1.(remoteAddress := s.sourceAddress, remotePort := s.sourcePort,
                             localSequenceNumber := 0, status := SynReceived), now, frame);
      case SynSent =>
        TransmitKeeps(p, c1.(status := SynReceived), now, frame);
        TransmitKeeps(p, SetEstablished(c1, s), now, frame);
      case SynReceived =>
        TransmitKeeps(p, c1, now, frame);
      case _ =>
    }
  }

  lemma AcknowledgeKeeps(p: Peer, c: Tcb, s: Segment, now: nat)
    requires p.Valid() && DownloadInvariant(p, c) && c.status !in {Closed, Listen, SynSent}
    ensures Receiving(p, Acknowledged(c, s, now)) && Synchronized(Acknowledged(c, s, now))
    ensures Acknowledged(c, s, now).localAcknowledgment == c.localAcknowledgment
  {
    var r := Acknowledged(c, s, now);
    if c.status != SynReceived {
      assert forall i :: HoldsByte(p, c, i) <==> HoldsByte(p, r, i);
    }
  }

  lemma DataKeeps(p: Peer, c: Tcb, s: Segment, from: nat, now: nat, frame: bool)
    requires p.Valid() && IsSlice(p, s) && Receiving(p, c) && Synchronized(c)
    requires s.PayloadLength() > 0 ==> from == s.HeaderEnd()
    ensures Receiving(p, ReceivedData(c, s, from, now, frame)) && Synchronized(ReceivedData(c, s, from, now, frame))
    ensures ReceivedData(c, s, from, now, frame).localAcknowledgment >= c.localAcknowledgment
  {
    hide IsSlice, Copied, NextSequenceNumber, OnlyStream, StoredBelow, AcknowledgesOnly, SentToPeer;
    if !s.finish || s.sequenceNumber == c.localAcknowledgment {
      StoreKeepsReceiving(p, c, s, from);
      var r := Stored(c.(remoteFinished := c.remoteFinished || s.finish), s, from);
      var c1 := if s.finish then FinishAccepted(c, now) else c;
      var c2 := Stored(c1, s, from);
      SameReceiving(p, r, c2);
      TransmitKeeps(p, c2, now, frame);
    }
  }

  lemma SameReceiving(p: Peer, a: Tcb, b: Tcb)
    requires Receiving(p, a)
    requires b == a.(status := b.status, retryTimer := b.retryTimer)
    requires b.status == TimedClose || b.status == Finished ==> b.remoteFinished
    ensures Receiving(p, b)
  {
    assert forall i :: HoldsByte(p, a, i) <==> HoldsByte(p, b, i);
  }

  lemma HeaderKeeps(p: Peer, c: Tcb, s: Segment)
    requires DownloadInvariant(p, c)
    ensures DownloadInvariant(p, WithHeader(c, s))
  {
    hide ParsedOptions;
    var r := WithHeader(c, s);
    assert forall i :: HoldsByte(p, c, i) <==> HoldsByte(p, r, i);
  }

  lemma ReceiveKeeps(p: Peer, c: Tcb, s: Segment, now: nat, frame: bool)
    requires p.Valid() && DownloadInvariant(p, c) && FromNetwork(p, c, s) && s.destinationPort == c.localPort
    ensures DownloadInvariant(p, Received(c, s, now, frame))
    ensures Received(c, s, now, frame).status == SynReceived ==> !Received(c, s, now, frame).remoteFinished
  {
    var c1, o := WithHeader(c, s), OptionsOf(c, s);
    HeaderKeeps(p, c, s);
    CopiesFromHeaderEndIff(s.memory, HEADER_LENGTH,
                           Options(s.HeaderEnd(), c.remoteMaximumSegmentSize, c.remoteWindowScale,
                                   c.selectiveAcknowledgmentEnabled));
    assert IsSlice(p, s) && s.PayloadLength() > 0 ==> o.end == s.HeaderEnd() by {
      if IsSlice(p, s) && p.Valid() {
        SliceNumbers(p, s);
      }
    }
    hide WithHeader, ReceivedSyn, Acknowledged, ReceivedData, Receiving, IsSlice, OptionsOf;
    if c.status != Closed && (c.status == Listen || FromRemote(c, s)) && !s.reset {
      ReceiveLiveKeeps(p, c, c1, s, o.end, now, frame);
    }
  }

  lemma ListenIgnores(c: Tcb, s: Segment, now: nat, frame: bool)
    requires c.status == Listen && s.acknowledgment
    ensures ReceivedSyn(c, s, now, frame) == c
  {
  }

  // A segment that passes the header stage, with `c1` the state after it.
  lemma ReceiveLiveKeeps(p: Peer, c: Tcb, c1: Tcb, s: Segment, from: nat, now: nat, frame: bool)
    requires p.Valid() && DownloadInvariant(p, c1) && FromNetwork(p, c, s) && !s.reset
    requires s.destinationPort == c.localPort && c1.status == c.status
    requires c.status != Closed && (c.status == Listen || FromRemote(c, s))
    requires c1.remoteAddress == c.remoteAddress && c1.remotePort == c.remotePort
    requires IsSlice(p, s) && s.PayloadLength() > 0 ==> from == s.HeaderEnd()
    ensures s.synchronize ==> DownloadInvariant(p, ReceivedSyn(c1, s, now, frame))
    ensures !s.synchronize && c.status !in {Listen, SynSent} ==>
              DownloadInvariant(p, ReceivedData(Acknowledged(c1, s, now), s, from, now, frame))
              && Synchronized(ReceivedData(Acknowledged(c1, s, now), s, from, now, frame))
  {
    hide ReceivedSyn, Acknowledged, ReceivedData, IsSlice, OnlyStream, StoredBelow, AcknowledgesOnly, SentToPeer;
    if s.synchronize {
      if c.status == Listen && s.acknowledgment {
        ListenIgnores(c1, s, now, frame);
      } else {
        SynKeeps(p, c1, s, now, frame);
      }
    } else if c.status !in {Listen, SynSent} {
      AcknowledgeKeeps(p, c1, s, now);
      DataKeeps(p, Acknowledged(c1, s, now), s, from, now, frame);
    }
  }

  lemma CloseKeeps(p: Peer, c: Tcb, now: nat, frame: bool)
    requires p.Valid() && DownloadInvariant(p, c)
    ensures DownloadInvariant(p, ClosedBy(c, now, frame))
  {
    hide Transmit;
    var r := c.(status := FinSent);
    if c.status == Established {
      SameReceiving(p, c, r);
      TransmitKeeps(p, r, now, frame);
    } else if c.status == SynReceived {
      NothingReceived(p, c);
      TransmitKeeps(p, r, now, frame);
    }
  }

  // Closed half open, the connection starts to receive without a base.
  lemma NothingReceived(p: Peer, c: Tcb)
    requires p.Valid() && c.status == SynReceived && Opening(p, c)
    ensures Receiving(p, c.(status := FinSent))
  {
  }

  lemma PollKeeps(p: Peer, c: Tcb, now: nat, frame: bool)
    requires p.Valid() && DownloadInvariant(p, c)
    ensures DownloadInvariant(p, Poll(c, now, frame))
  {
    hide OnlyStream, AcknowledgesOnly, Transmit;
    var c1 := c.(retryCounter := (c.retryCounter + 1) % 0x100);
    assert forall i :: HoldsByte(p, c, i) <==> HoldsByte(p, c1, i);
    if c.status != Closed && c.status != Listen {
      CountedKeeps(p, c, c1);
      TransmitKeeps(p, c1, now, frame);
    }
    if c.status == TimedClose {
      SameReceiving(p, c, c.(status := Finished));
    }
  }

  lemma CountedKeeps(p: Peer, c: Tcb, c1: Tcb)
    requires DownloadInvariant(p, c) && c1 == c.(retryCounter := c1.retryCounter)
    ensures DownloadInvariant(p, c1)
  {
    assert forall i :: HoldsByte(p, c, i) <==> HoldsByte(p, c1, i);
  }

  lemma StepKeeps(p: Peer, c: Tcb, e: Event)
    requires p.Valid() && DownloadInvariant(p, c) && FromEnvironment(p, c, e)
    ensures DownloadInvariant(p, Apply(c, e))
  {
    hide Received, Poll, ClosedBy, DownloadInvariant;
    match e {
      case Deliver(s, now, frame, closeFrame) =>
        if s.destinationPort == c.localPort {
          ReceiveKeeps(p, c, s, now, frame);
          if Received(c, s, now, frame).remoteFinished {
            CloseKeeps(p, Received(c, s, now, frame), now, closeFrame);
          }
        }
      case Tick(now, frame) =>
        PollKeeps(p, c, now, frame);
      case CallClose(now, frame) =>
        CloseKeeps(p, c, now, frame);
      case _ =>
    }
  }

  // ---------------------------------------------------------------------------
  // Runs
  // ---------------------------------------------------------------------------

  // A fresh connection that listens, or one that connects to the peer.
  ghost predicate Opened(p: Peer, c: Tcb) {
    || (exists port: Port :: c == Listened(Fresh(port)))
    || (exists port: Port, now: nat, frame: bool ::
          c == Apply(Fresh(port), CallConnect(p.address, p.port, now, frame)))
  }

  lemma OpenedKeeps(p: Peer, c: Tcb)
    requires Opened(p, c)
    ensures DownloadInvariant(p, c)
  {
  }

  lemma {:induction false} RunsKeep(p: Peer, c: Tcb, events: seq<Event>)
    requires p.Valid() && Opened(p, c)
    requires EnvironmentRun(p, c, events)
    ensures DownloadInvariant(p, Run(c, events))
  {
    hide DownloadInvariant, Apply, Opened, FromEnvironment;
    if events == [] {
      OpenedKeeps(p, c);
    } else {
      var n := |events| - 1;
      EnvironmentFront(p, c, events, n);
      RunsKeep(p, c, events[..n]);
      StepKeeps(p, Run(c, events[..n]), events[n]);
    }
  }

  /** Acknowledged means stored: in every synchronized state the buffer holds each stream byte below
      the local acknowledgment and nothing but stream bytes, and no acknowledgment sent covers more. */
  lemma {:induction false} AcknowledgedIsStored(p: Peer, c: Tcb, events: seq<Event>, i: nat)
    requires p.Valid() && Opened(p, c)
    requires EnvironmentRun(p, c, events)
    requires Synchronized(Run(c, events))
    ensures var r := Run(c, events);
            && OnlyStream(p, r)
            && StoredBelow(p, r, r.localAcknowledgment)
            && SentToPeer(p, r)
            && (i < |r.transmitted| && r.transmitted[i].acknowledgment ==>
                  StoredBelow(p, r, r.transmitted[i].acknowledgmentNumber))
  {
    RunsKeep(p, c, events);
    hide Run, FromEnvironment;
  }

  /** A synchronized connection never takes an acknowledgment back, whatever arrives. */
  lemma {:induction false} AcknowledgmentNeverDecreases(c: Tcb, e: Event)
    requires Synchronized(c)
    ensures Apply(c, e).localAcknowledgment >= c.localAcknowledgment
  {
    hide Outgoing, Received;
    if e.Deliver? {
      ReceiveNeverDecreases(c, e.segment, e.now, e.frame);
    }
  }

  lemma ReceiveNeverDecreases(c: Tcb, s: Segment, now: nat, frame: bool)
    requires Synchronized(c)
    ensures Received(c, s, now, frame).localAcknowledgment >= c.localAcknowledgment
  {
    hide Outgoing, ParsedOptions, ReceivedData;
    DataNeverDecreases(Acknowledged(WithHeader(c, s), s, now), s, OptionsOf(c, s).end, now, frame);
  }

  lemma DataNeverDecreases(c: Tcb, s: Segment, from: nat, now: nat, frame: bool)
    ensures ReceivedData(c, s, from, now, frame).localAcknowledgment >= c.localAcknowledgment
  {
  }

  // A segment of the peer for the connection that carries something and starts exactly at the acknowledgment.
  predicate Advances(c: Tcb, s: Segment) {
    && s.destinationPort == c.localPort && FromRemote(c, s) && !s.reset && !s.synchronize
    && s.sequenceNumber == c.localAcknowledgment && (s.finish || s.PayloadLength() > 0)
  }

  /** The acknowledgment moves if and only if a segment starts exactly at it, and then past all that segment
      carries; a segment that overlaps it, however far it reaches, is stored and not acknowledged. */
  lemma {:induction false} AcknowledgmentMovesIff(p: Peer, c: Tcb, e: Event)
    requires p.Valid() && DownloadInvariant(p, c) && FromEnvironment(p, c, e) && Synchronized(c)
    ensures var r := Apply(c, e);
            && (r.localAcknowledgment > c.localAcknowledgment <==> e.Deliver? && Advances(c, e.segment))
            && (r.localAcknowledgment != c.localAcknowledgment ==>
                  r.localAcknowledgment == c.localAcknowledgment + e.segment.PayloadLength()
                                           + if e.segment.finish then 1 else 0)
  {
    hide Outgoing, Received, IsSlice, OnlyStream, StoredBelow, AcknowledgesOnly, SentToPeer, NextSequenceNumber;
    if e.Deliver? && e.segment.destinationPort == c.localPort {
      ReceiveMoves(p, c, e.segment, e.now, e.frame);
    }
  }

  lemma ReceiveMoves(p: Peer, c: Tcb, s: Segment, now: nat, frame: bool)
    requires p.Valid() && DownloadInvariant(p, c) && FromNetwork(p, c, s) && Synchronized(c)
    requires s.destinationPort == c.localPort
    ensures Received(c, s, now, frame).localAcknowledgment ==
            c.localAcknowledgment + if Advances(c, s) then s.PayloadLength() + (if s.finish then 1 else 0) else 0
  {
    hide Outgoing, ParsedOptions, ReceivedData, OnlyStream, StoredBelow, AcknowledgesOnly, SentToPeer;
    if FromRemote(c, s) && !s.reset && !s.synchronize {
      AcknowledgingKeepsBuffer(WithHeader(c, s), s, now);
      DataMoves(p, Acknowledged(WithHeader(c, s), s, now), s, OptionsOf(c, s).end, now, frame);
    }
  }

  lemma DataMoves(p: Peer, c: Tcb, s: Segment, from: nat, now: nat, frame: bool)
    requires p.Valid() && IsSlice(p, s)
    ensures ReceivedData(c, s, from, now, frame).localAcknowledgment ==
            c.localAcknowledgment +
            if s.sequenceNumber == c.localAcknowledgment then s.PayloadLength() + (if s.finish then 1 else 0) else 0
  {
    SliceNumbers(p, s);
    hide Outgoing, Copied, IsSlice, NextSequenceNumber;
  }

  // The buffer is exactly the stream, displaced by the shift.
  ghost predicate HoldsShifted(p: Peer, c: Tcb) {
    && (forall i | 0 <= i < |p.stream| :: HoldsByte(p, c, i))
    && OnlyStream(p, c)
  }

  // The buffer starts with the stream.
  ghost predicate HoldsStream(p: Peer, buffer: map<int, Byte>) {
    forall i {:trigger i in buffer} | 0 <= i < |p.stream| :: i in buffer && buffer[i] == p.stream[i]
  }

  /** End-to-end download: in every run a finished remote, and so a finished connection, means that
      the whole stream was stored and acknowledged together with the FIN; and the stream stands at
      the start of the buffer if and only if the shift is zero. */
  lemma {:induction false} DownloadComplete(p: Peer, c: Tcb, events: seq<Event>)
    requires p.Valid() && Opened(p, c)
    requires EnvironmentRun(p, c, events)
    ensures var r := Run(c, events);
            && (r.status == Finished ==> r.remoteFinished)
            && (Synchronized(r) && r.remoteFinished ==>
                  && r.localAcknowledgment == p.Limit()
                  && HoldsShifted(p, r)
                  && (HoldsStream(p, r.receiveBuffer) <==> p.stream == [] || Shift(p, r) == 0))
  {
    RunsKeep(p, c, events);
    hide Run, FromEnvironment, Opened;
    var r := Run(c, events);
    if Synchronized(r) && r.remoteFinished {
      StreamInPlaceIff(p, r);
    }
  }

  lemma StreamInPlaceIff(p: Peer, c: Tcb)
    requires HoldsShifted(p, c)
    ensures HoldsStream(p, c.receiveBuffer) <==> p.stream == [] || Shift(p, c) == 0
  {
    var buffer := c.receiveBuffer;
    if p.stream != [] && HoldsStream(p, buffer) {
      assert 0 in buffer && |p.stream| - 1 in buffer;
    }
    if Shift(p, c) == 0 {
      forall i | 0 <= i < |p.stream| ensures i in buffer && buffer[i] == p.stream[i] {
        assert HoldsByte(p, c, i);
      }
    }
  }

  // ---------------------------------------------------------------------------
  // Where the shift comes from
  // ---------------------------------------------------------------------------

  // Event j synchronizes the connection.
  ghost predicate SynchronizesAt(c: Tcb, events: seq<Event>, j: int) {
    && 0 <= j < |events|
    && !Synchronized(Run(c, events[..j]))
    && Synchronized(Run(c, events[..j + 1]))
  }

  // The event that synchronizes a connection: a segment, or the call that closes it half open.
  ghost predicate Opens(p: Peer, c: Tcb, e: Event) {
    || (c.status == SynReceived && (e.Deliver? || e.CallClose?))
    || (c.status == SynSent && e.Deliver? && e.segment.sequenceNumber == p.initialSequenceNumber)
  }

  // The base such an event leaves; closing takes none.
  function TakenBase(e: Event): Natural32 {
    if e.Deliver? then e.segment.sequenceNumber else 0
  }

  predicate Unsynchronized(c: Tcb) {
    c.status in {Listen, SynSent, SynReceived}
  }

  lemma BaseStep(p: Peer, c: Tcb, e: Event)
    requires p.Valid() && DownloadInvariant(p, c) && FromEnvironment(p, c, e)
    ensures var r := Apply(c, e);
            && (r.status == SynSent ==> c.status == SynSent)
            && (Unsynchronized(r) ==> Unsynchronized(c))
            && (Unsynchronized(r) || (Synchronized(c) && Synchronized(r)) ==>
                  r.remoteInitialSequenceNumber == c.remoteInitialSequenceNumber)
            && (!Synchronized(c) && Synchronized(r) ==>
                  && Opens(p, c, e) && Unsynchronized(c)
                  && r.remoteInitialSequenceNumber == if e.Deliver? then TakenBase(e) else c.remoteInitialSequenceNumber)
  {
    hide ParsedOptions, Outgoing, Received, IsSlice, Receiving;
    if e.Deliver? && e.segment.destinationPort == c.localPort {
      ReceiveKeeps(p, c, e.segment, e.now, e.frame);
      ReceiveBase(c, e.segment, e.now, e.frame);
    }
  }

  lemma ReceiveBase(c: Tcb, s: Segment, now: nat, frame: bool)
    ensures var r := Received(c, s, now, frame);
            && (r.status == SynSent ==> c.status == SynSent)
            && (Unsynchronized(r) ==> Unsynchronized(c))
            && (Unsynchronized(r) || Synchronized(c) ==>
                  r.remoteInitialSequenceNumber == c.remoteInitialSequenceNumber)
            && (!Synchronized(c) && Synchronized(r) ==>
                  && r.remoteInitialSequenceNumber == s.sequenceNumber
                  && (c.status == SynReceived
                      || (c.status == SynSent && FromRemote(c, s) && s.synchronize && !s.reset)))
  {
    hide ParsedOptions, ReceivedSyn, ReceivedData;
    SynBase(WithHeader(c, s), s, now, frame);
    DataBase(Acknowledged(WithHeader(c, s), s, now), s, OptionsOf(c, s).end, now, frame);
  }

  lemma SynBase(c: Tcb, s: Segment, now: nat, frame: bool)
    ensures var r := ReceivedSyn(c, s, now, frame);
            && (if c.status == SynSent && r.status == Established
                then r.remoteInitialSequenceNumber == s.sequenceNumber
                else r.remoteInitialSequenceNumber == c.remoteInitialSequenceNumber
                     && (r.status == c.status || (r.status == SynReceived && Unsynchronized(c))))
            && (Synchronized(c) ==> r == c)
  {
  }

  lemma DataBase(c: Tcb, s: Segment, from: nat, now: nat, frame: bool)
    ensures var r := ReceivedData(c, s, from, now, frame);
            && r.remoteInitialSequenceNumber == c.remoteInitialSequenceNumber
            && r.status in {c.status, TimedClose}
            && (r.status != c.status ==> c.status == WaitingForRemoteToFinish)
  {
  }

  // The base of a synchronized connection comes from the event that synchronized it.
  lemma {:induction false} BaseIsFirstNumber(p: Peer, c: Tcb, events: seq<Event>) returns (j: int)
    requires p.Valid() && Opened(p, c)
    requires EnvironmentRun(p, c, events)
    ensures Run(c, events).status == SynSent ==> c.status == SynSent
    ensures Unsynchronized(Run(c, events)) ==> Run(c, events).remoteInitialSequenceNumber == 0
    ensures Synchronized(Run(c, events)) ==>
              && SynchronizesAt(c, events, j)
              && Run(c, events).remoteInitialSequenceNumber == TakenBase(events[j])
              && Opens(p, Run(c, events[..j]), events[j])
              && (Run(c, events[..j]).status == SynSent ==> c.status == SynSent)
  {
    hide Apply, DownloadInvariant, Opened, FromEnvironment, Opens;
    j := 0;
    if events == [] {
      OpenedUnsynchronized(p, c);
    } else {
      var n := |events| - 1;
      var front := events[..n];
      assert forall i | 0 <= i <= n :: front[..i] == events[..i];
      EnvironmentFront(p, c, events, n);
      j := BaseIsFirstNumber(p, c, front);
      RunsKeep(p, c, front);
      BaseStep(p, Run(c, front), events[n]);
      assert events[..n + 1] == events;
      if !Synchronized(Run(c, front)) {
        j := n;
      }
    }
  }

  lemma OpenedUnsynchronized(p: Peer, c: Tcb)
    requires Opened(p, c)
    ensures (c.status == Listen || c.status == SynSent) && c.remoteInitialSequenceNumber == 0
  {
  }

  // The event completes the handshake with a segment that carries the next number expected.
  predicate BeginsInPlace(c: Tcb, e: Event) {
    c.status == SynReceived && e.Deliver? && e.segment.sequenceNumber == c.localAcknowledgment
  }

  predicate HoldsAt(buffer: map<int, Byte>, offset: int, b: Byte) {
    offset in buffer && buffer[offset] == b
  }

  // Every byte of the stream stands this far from its place.
  ghost predicate HoldsDisplaced(p: Peer, buffer: map<int, Byte>, distance: int) {
    forall i | 0 <= i < |p.stream| :: HoldsAt(buffer, i + distance, p.stream[i])
  }

  /** The finished download stands at the start of the buffer if and only if the event that synchronized the
      connection was a segment that left SynReceived and carried the next number expected, or the stream is empty.
      Otherwise it stands displaced by how far the base taken falls short of the first number of the stream: one
      when the answer to our own SYN synchronized it, all of it when close() did, which takes no base. */
  lemma {:induction false} DownloadInPlaceIff(p: Peer, c: Tcb, events: seq<Event>) returns (j: int)
    requires p.Valid() && Opened(p, c)
    requires EnvironmentRun(p, c, events)
    requires Run(c, events).status == Finished
    ensures var buffer := Run(c, events).receiveBuffer;
            && SynchronizesAt(c, events, j)
            && Opens(p, Run(c, events[..j]), events[j])
            && (Run(c, events[..j]).status == SynSent ==> c.status == SynSent)
            && HoldsDisplaced(p, buffer, p.Base() - TakenBase(events[j]))
            && (HoldsStream(p, buffer) <==> p.stream == [] || BeginsInPlace(Run(c, events[..j]), events[j]))
  {
    hide Run, EnvironmentRun, DownloadInvariant, Opened, HoldsStream, HoldsShifted, HoldsDisplaced, Opens,
         BeginsInPlace, TakenBase;
    DownloadComplete(p, c, events);
    j := BaseIsFirstNumber(p, c, events);
    EnvironmentFront(p, c, events, j);
    RunsKeep(p, c, events[..j]);
    DisplacedByShift(p, Run(c, events));
    BaseIffInPlace(p, Run(c, events[..j]), events[j]);
  }

  lemma BaseIffInPlace(p: Peer, c: Tcb, e: Event)
    requires DownloadInvariant(p, c) && Opens(p, c, e)
    ensures TakenBase(e) == p.Base() <==> BeginsInPlace(c, e)
  {
    hide Receiving;
  }

  lemma DisplacedByShift(p: Peer, c: Tcb)
    requires HoldsShifted(p, c)
    ensures HoldsDisplaced(p, c.receiveBuffer, -Shift(p, c))
  {
    forall i | 0 <= i < |p.stream| ensures HoldsAt(c.receiveBuffer, i - Shift(p, c), p.stream[i]) {
      assert HoldsByte(p, c, i);
    }
  }

  /** On a connection that listened, the download stands at the start of the buffer if and only if it left
      SynReceived by a segment that carried the next number expected, and not by close(). */
  lemma {:induction false} ListeningDownloadIff(p: Peer, port: Port, events: seq<Event>) returns (j: int)
    requires p.Valid()
    requires EnvironmentRun(p, Listened(Fresh(port)), events)
    requires Run(Listened(Fresh(port)), events).status == Finished
    ensures var c := Listened(Fresh(port));
            && SynchronizesAt(c, events, j) && Run(c, events[..j]).status == SynReceived
            && (events[j].Deliver? || events[j].CallClose?)
            && (HoldsStream(p, Run(c, events).receiveBuffer) <==>
                p.stream == [] || BeginsInPlace(Run(c, events[..j]), events[j]))
  {
    var c := Listened(Fresh(port));
    assert Opened(p, c);
    j := DownloadInPlaceIff(p, c, events);
  }

  // The connection after it was opened towards the peer.
  function Connecting(p: Peer, port: Port, now: nat, frame: bool): Tcb {
    Apply(Fresh(port), CallConnect(p.address, p.port, now, frame))
  }

  /** On a connection that connected, the download stands one place too far if the answer to our SYN
      acknowledged it; otherwise both ends opened at once, and it stands in place if and only if it left
      SynReceived by a segment that carried the next number expected. */
  lemma {:induction false} ConnectingDownloadIff(p: Peer, port: Port, now: nat, frame: bool, events: seq<Event>)
    returns (j: int)
    requires p.Valid()
    requires EnvironmentRun(p, Connecting(p, port, now, frame), events)
    requires Run(Connecting(p, port, now, frame), events).status == Finished
    ensures 0 <= j < |events|
    ensures var c := Connecting(p, port, now, frame);
            var buffer := Run(c, events).receiveBuffer;
            var before := Run(c, events[..j]);
            && SynchronizesAt(c, events, j)
            && (before.status == SynSent ==>
                  && events[j].Deliver? && HoldsDisplaced(p, buffer, 1)
                  && (HoldsStream(p, buffer) <==> p.stream == []))
            && (before.status != SynSent ==>
                  && before.status == SynReceived && (events[j].Deliver? || events[j].CallClose?)
                  && (HoldsStream(p, buffer) <==> p.stream == [] || BeginsInPlace(before, events[j])))
  {
    var c := Connecting(p, port, now, frame);
    assert Opened(p, c);
    j := DownloadInPlaceIff(p, c, events);
    hide Run, HoldsStream, HoldsDisplaced, EnvironmentRun;
  }
}

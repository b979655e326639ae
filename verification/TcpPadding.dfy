/**
 What one segment padded with End options does to a download: the connection finishes as if all were well, with
 a byte in the buffer that the peer did not send.
 */
module TcpPadding {
  import opened Bytes
  import opened Tcp
  import opened TcpLife
  import opened TcpDownload
  import opened TcpFinish

  // What may arrive when the peer may pad its options where it likes.
  ghost predicate FromPadding(p: Peer, c: Tcb, e: Event) {
    || FromEnvironment(p, c, e)
    || (e.Deliver? && CarriesSlice(p, e.segment) && !e.segment.synchronize
        && e.segment.sourceAddress == p.address && e.segment.sourcePort == p.port)
  }

  // An honest peer's segments arrive from the start on, in packets that can exist, padded or not.
  ghost predicate PaddedRun(p: Peer, c: Tcb, events: seq<Event>) {
    forall i | 0 <= i < |events| ::
      && FromPadding(p, Run(c, events[..i]), events[i])
      && AcknowledgesSent(true, p, Run(c, events[..i]), events[i]) && Possible(events[i], 0)
  }

  lemma PadExtend(p: Peer, c: Tcb, events: seq<Event>, e: Event) returns (all: seq<Event>)
    requires PaddedRun(p, c, events) && FromPadding(p, Run(c, events), e)
    requires AcknowledgesSent(true, p, Run(c, events), e) && Possible(e, 0)
    ensures all == events + [e] && PaddedRun(p, c, all) && Run(c, all) == Apply(Run(c, events), e)
  {
    hide FromPadding, AcknowledgesSent, Possible;
    all := events + [e];
    RunExtends(c, events, e);
    hide Run;
    assert forall i | 0 <= i <= |events| :: all[..i] == events[..i];
    assert events[..|events|] == events;
  }

  lemma CleanIsPadded(p: Peer, c: Tcb, events: seq<Event>)
    requires Continues(true, p, c, [], events, 0)
    ensures PaddedRun(p, c, events)
  {
    hide Run, FromEnvironment, AcknowledgesSent, Possible;
  }

  // ---------------------------------------------------------------------------
  // The peer the connection believes in
  // ---------------------------------------------------------------------------

  // One that sends 0 for the first byte.
  function Misread(p: Peer): (q: Peer)
    requires p.stream != []
    ensures q.Valid() == p.Valid() && q.Base() == p.Base() && q.Limit() == p.Limit()
    ensures q.address == p.address && q.port == p.port && |q.stream| == |p.stream|
  {
    p.(stream := p.stream[0 := 0])
  }

  // The first byte of the stream behind four End options.
  function PaddedByte(p: Peer, port: Port): (s: Segment)
    requires p.Valid() && p.stream != []
    ensures CarriesSlice(p, s) && MeetsEarlyEnd(s.memory, HEADER_LENGTH, s.HeaderEnd())
  {
    Segment(p.address, 0, p.port, port, p.Base(), 1, false, false, false, true, 6, HEADER_LENGTH + 5,
            i => if i < 24 then 0 else p.stream[0])
  }

  // What it is taken for.
  function MisreadByte(p: Peer, port: Port): (s: Segment)
    requires p.Valid() && p.stream != []
    ensures IsSlice(Misread(p), s)
  {
    Slice(Misread(p), port, 0, 1, false, 1)
  }

  lemma PaddedOptions(c: Tcb, p: Peer, port: Port)
    requires p.Valid() && p.stream != []
    ensures OptionsOf(c, PaddedByte(p, port)) == OptionsOf(c, MisreadByte(p, port)).(end := 21)
    ensures OptionsOf(c, MisreadByte(p, port)).end == 20
  {
    var s := PaddedByte(p, port);
    assert s.memory(20) == 0;
    var o := Options(24, c.remoteMaximumSegmentSize, c.remoteWindowScale, c.selectiveAcknowledgmentEnabled);
    assert ParsedOptions(s.memory, 21, o.(end := 21)) == o.(end := 21);
  }

  lemma PaddedCopy(p: Peer, port: Port, buffer: map<int, Byte>, dst: int)
    requires p.Valid() && p.stream != []
    ensures Copied(buffer, dst, PaddedByte(p, port).memory, 21, 1) ==
            Copied(buffer, dst, MisreadByte(p, port).memory, 20, 1)
  {
    var padded, misread := PaddedByte(p, port).memory, MisreadByte(p, port).memory;
    assert padded(21) == 0 && misread(20) == 0;
    assert Copied(buffer, dst, padded, 21, 0) == buffer == Copied(buffer, dst, misread, 20, 0);
  }

  // The connection cannot tell the two apart.
  lemma TakenForMisread(p: Peer, c: Tcb, now: nat)
    requires p.Valid() && p.stream != [] && c.status == Established
    ensures Apply(c, Deliver(PaddedByte(p, c.localPort), now, true, true)) ==
            Apply(c, Deliver(MisreadByte(p, c.localPort), now, true, true))
  {
    var s, s' := PaddedByte(p, c.localPort), MisreadByte(p, c.localPort);
    PaddedOptions(c, p, c.localPort);
    PaddedCopy(p, c.localPort, c.receiveBuffer, s.sequenceNumber - c.remoteInitialSequenceNumber);
    assert s.PayloadLength() == 1 == s'.PayloadLength();
    hide Copied, ParsedOptions, Outgoing, PaddedByte, MisreadByte;
    SameReceived(c, s, s', now);
  }

  lemma SameReceived(c: Tcb, s: Segment, s': Segment, now: nat)
    requires c.status == Established && !s.reset && !s.synchronize && !s.finish
    requires s' == s.(dataOffset := s'.dataOffset, ipPayloadLength := s'.ipPayloadLength, memory := s'.memory)
    requires s.PayloadLength() == s'.PayloadLength() == 1
    requires OptionsOf(c, s) == OptionsOf(c, s').(end := OptionsOf(c, s).end)
    requires Copied(c.receiveBuffer, s.sequenceNumber - c.remoteInitialSequenceNumber, s.memory, OptionsOf(c, s).end, 1)
          == Copied(c.receiveBuffer, s.sequenceNumber - c.remoteInitialSequenceNumber, s'.memory, OptionsOf(c, s').end, 1)
    ensures Received(c, s, now, true) == Received(c, s', now, true)
  {
    hide Copied, OptionsOf, Outgoing;
  }

  // ---------------------------------------------------------------------------
  // A run
  // ---------------------------------------------------------------------------

  // After the handshake nothing was received, from either peer.
  lemma NothingOfEither(p: Peer, c: Tcb)
    requires p.Valid() && p.stream != [] && Live(p, c) && c.status == Established
    requires c.receiveBuffer == map[] && c.localAcknowledgment == p.Base()
    ensures Live(Misread(p), c)
  {
  }

  lemma PaddedByteArrives(p: Peer, c: Tcb)
    requires p.Valid() && p.stream != [] && Live(Misread(p), c) && c.status == Established
    requires c.localAcknowledgment == p.Base() && c.localSequenceNumber <= c.remoteAcknowledgment
    requires Acknowledgeable(true, c, 1)
    ensures var e := Deliver(PaddedByte(p, c.localPort), 0, true, true);
            var r := Apply(c, e);
            && FromPadding(p, c, e) && AcknowledgesSent(true, p, c, e) && Possible(e, 0)
            && Live(Misread(p), r) && r.status == Established && !r.remoteFinished
            && r.localAcknowledgment == p.Base() + 1 && r.localSequenceNumber <= r.remoteAcknowledgment
            && r.remoteInitialSequenceNumber == c.remoteInitialSequenceNumber
  {
    var q := Misread(p);
    var e := Deliver(MisreadByte(p, c.localPort), 0, true, true);
    TakenForMisread(p, c, 0);
    ByteStored(p, c);
    StepKeeps(q, c, e);
    StepSteady(c, e);
    hide Apply, Live, Acknowledgeable, IsSlice, CarriesSlice;
  }

  lemma ByteStored(p: Peer, c: Tcb)
    requires p.Valid() && p.stream != [] && Live(Misread(p), c) && c.status == Established
    requires c.localAcknowledgment == p.Base() && c.localSequenceNumber <= c.remoteAcknowledgment
    ensures var e := Deliver(MisreadByte(p, c.localPort), 0, true, true);
            var r := Apply(c, e);
            && FromEnvironment(Misread(p), c, e)
            && r.status == Established && !r.remoteFinished
            && r.localAcknowledgment == p.Base() + 1 && r.localSequenceNumber <= r.remoteAcknowledgment
            && r.remoteInitialSequenceNumber == c.remoteInitialSequenceNumber
  {
    hide ParsedOptions, Outgoing, Copied, IsSlice, CarriesSlice;
  }

  // Behind the first byte both peers send the same.
  lemma SliceOfEither(p: Peer, s: Segment)
    requires p.Valid() && p.stream != [] && IsSlice(Misread(p), s)
    requires s.sequenceNumber > p.Base() || (!s.finish && s.ipPayloadLength == s.HeaderEnd())
    ensures IsSlice(p, s)
  {
  }

  // An established connection that believes in the other peer, with something stored.
  ghost predicate Believes(p: Peer, c: Tcb)
    requires p.stream != []
  {
    && Live(Misread(p), c) && c.status == Established && !c.remoteFinished
    && c.localAcknowledgment > p.Base() && c.localSequenceNumber <= c.remoteAcknowledgment
  }

  // One that answered all of it.
  ghost predicate Answered(p: Peer, c: Tcb)
    requires p.stream != []
  {
    && Live(Misread(p), c) && c.status == FinSent && c.remoteFinished
    && Acknowledgeable(true, c, c.localSequenceNumber + 1)
  }

  // The next piece, without padding, comes from either peer.
  lemma NextArrives(p: Peer, c: Tcb) returns (e: Event)
    requires p.Valid() && p.stream != [] && Believes(p, c)
    ensures FromPadding(p, c, e) && AcknowledgesSent(true, p, c, e) && Possible(e, 0)
    ensures var r := Apply(c, e);
            && p.Limit() >= r.localAcknowledgment > c.localAcknowledgment
            && (if r.remoteFinished then Answered(p, r) else Believes(p, r))
            && r.remoteInitialSequenceNumber == c.remoteInitialSequenceNumber
  {
    var q := Misread(p);
    hide Live, FromEnvironment, Apply, Piece, Acknowledgeable, AcknowledgesSent, Possible, AcknowledgedNumber, Misread,
         FromPadding;
    Missing(q, c);
    AcknowledgedIsReady(true, c);
    PieceArrives(true, q, c, 0);
    e := Deliver(NextPiece(true, q, c), 0, true, true);
    PieceAddressed(q, c);
    PieceOfEither(p, c, e);
    StepLive(q, c, e);
    WithinLimit(q, Apply(c, e));
  }

  lemma WithinLimit(p: Peer, c: Tcb)
    requires Live(p, c) && Synchronized(c)
    ensures c.localAcknowledgment <= p.Limit()
  {
  }

  // The rest of the stream arrives without padding.
  lemma {:induction false} RestArrives(p: Peer, c: Tcb, events: seq<Event>) returns (all: seq<Event>)
    requires p.Valid() && p.stream != [] && PaddedRun(p, c, events) && Believes(p, Run(c, events))
    ensures PaddedRun(p, c, all) && Answered(p, Run(c, all))
    ensures Run(c, all).remoteInitialSequenceNumber == Run(c, events).remoteInitialSequenceNumber
    decreases p.Limit() - Run(c, events).localAcknowledgment
  {
    hide Run, PaddedRun, Believes, Answered, Apply, FromPadding, AcknowledgesSent, Possible;
    var e := NextArrives(p, Run(c, events));
    all := PadExtend(p, c, events, e);
    if !Run(c, all).remoteFinished {
      all := RestArrives(p, c, all);
    }
  }

  lemma StepLive(p: Peer, c: Tcb, e: Event)
    requires p.Valid() && Live(p, c) && FromEnvironment(p, c, e)
    ensures Live(p, Apply(c, e))
  {
    StepKeeps(p, c, e);
    NeverReopens(p, c, e);
    StepSteady(c, e);
    hide Apply, DownloadInvariant, Steady;
  }

  // A segment with this header is addressed by the peer to the connection.
  predicate Addressed(p: Peer, c: Tcb, s: Segment) {
    !s.reset && !s.synchronize && s.destinationPort == c.localPort
    && s.sourceAddress == p.address && s.sourcePort == p.port
  }

  lemma PieceAddressed(p: Peer, c: Tcb)
    requires p.Valid() && p.Base() <= c.localAcknowledgment <= p.Base() + |p.stream| && c.localSequenceNumber < LIMIT_32
    ensures Addressed(p, c, NextPiece(true, p, c))
    ensures NextPiece(true, p, c).sequenceNumber == c.localAcknowledgment
  {
  }

  lemma BareAddressed(p: Peer, c: Tcb, acknowledgmentNumber: Natural32)
    requires p.Valid()
    ensures var s := Bare(Seen(p, c.localPort), false, false, p.Base(), acknowledgmentNumber);
            Addressed(p, c, s) && !s.finish && s.ipPayloadLength == s.HeaderEnd()
  {
  }

  lemma PieceOfEither(p: Peer, c: Tcb, e: Event)
    requires p.Valid() && p.stream != [] && FromEnvironment(Misread(p), c, e)
    requires AcknowledgesSent(true, Misread(p), c, e)
    requires e.Deliver? && Addressed(p, c, e.segment)
    requires e.segment.sequenceNumber > p.Base() || (!e.segment.finish && e.segment.ipPayloadLength == e.segment.HeaderEnd())
    ensures FromPadding(p, c, e) && AcknowledgesSent(true, p, c, e)
  {
    SliceOfEither(p, e.segment);
    hide IsSlice, Acknowledgeable;
  }

  lemma PaddedCloses(p: Peer, c: Tcb, events: seq<Event>) returns (all: seq<Event>)
    requires p.Valid() && p.stream != [] && PaddedRun(p, c, events) && Answered(p, Run(c, events))
    ensures PaddedRun(p, c, all)
    ensures var r := Run(c, all);
            && Live(Misread(p), r) && r.status == Finished
            && r.remoteInitialSequenceNumber == Run(c, events).remoteInitialSequenceNumber
  {
    var q, r := Misread(p), Run(c, events);
    hide Run, PaddedRun, Live, FromEnvironment, Apply, Acknowledgeable, AcknowledgesSent, Possible, Misread;
    FinishAcknowledged(true, q, r, 0);
    var s := Bare(Seen(q, r.localPort), false, false, q.Base(), r.localSequenceNumber + 1);
    BareAddressed(q, r, r.localSequenceNumber + 1);
    PieceOfEither(p, r, Deliver(s, 0, true, true));
    StepLive(q, r, Deliver(s, 0, true, true));
    all := PadExtend(p, c, events, Deliver(s, 0, true, true));
    var t := Run(c, all);
    TimerEnds(p, t);
    StepLive(q, t, Tick(t.retryTimer, true));
    all := PadExtend(p, c, all, Tick(t.retryTimer, true));
  }

  lemma TimerEnds(p: Peer, c: Tcb)
    requires p.Valid() && p.stream != [] && c.status == TimedClose
    ensures var e := Tick(c.retryTimer, true);
            && FromEnvironment(p, c, e) && FromEnvironment(Misread(p), c, e) && FromPadding(p, c, e)
            && AcknowledgesSent(true, p, c, e) && Possible(e, 0)
            && Apply(c, e) == c.(status := Finished)
  {
  }

  /** For every stream that does not begin with 0, a run in which one segment padded with End options makes a
      listening connection finish with the right base and every byte in place but the first. */
  lemma {:induction false} PaddingFinishesWrong(p: Peer, port: Port) returns (events: seq<Event>)
    requires p.Valid() && p.stream != [] && p.stream[0] != 0
    ensures var r := Run(Listened(Fresh(port)), events);
            && PaddedRun(p, Listened(Fresh(port)), events) && r.status == Finished && Shift(p, r) == 0
            && HoldsAt(r.receiveBuffer, 0, 0)
            && forall i | 1 <= i < |p.stream| :: HoldsAt(r.receiveBuffer, i, p.stream[i])
  {
    hide Run, PaddedRun, EnvironmentRun, Opened, Live, Apply, FromPadding, Acknowledgeable, AcknowledgesSent, Possible,
         Listened, Misread;
    var c := Listened(Fresh(port));
    events := EstablishedInPlace(p, port);
    var r := Run(c, events);
    NothingOfEither(p, r);
    PaddedByteArrives(p, r);
    events := PadExtend(p, c, events, Deliver(PaddedByte(p, r.localPort), 0, true, true));
    events := RestArrives(p, c, events);
    events := PaddedCloses(p, c, events);
    MisreadInPlace(p, Run(c, events));
  }

  lemma EstablishedInPlace(p: Peer, port: Port) returns (events: seq<Event>)
    requires p.Valid()
    ensures var c := Listened(Fresh(port));
            var r := Run(c, events);
            && PaddedRun(p, c, events) && Live(p, r) && r.status == Established
            && r.remoteInitialSequenceNumber == p.Base() == r.localAcknowledgment && r.receiveBuffer == map[]
            && r.localSequenceNumber <= r.remoteAcknowledgment && Acknowledgeable(true, r, 1)
  {
    hide Run, PaddedRun, EnvironmentRun, Live, Acknowledgeable, Listened;
    var c := Listened(Fresh(port));
    assert Opened(p, c);
    NothingYet(p, c);
    Unopened(port);
    hide Opened, Continues;
    events := HandshakeCompletes(true, p, c, [], [], 0, 0);
    CleanIsPadded(p, c, events);
    RunsAreLive(p, c, events);
  }

  lemma Unopened(port: Port)
    ensures Unsynchronized(Listened(Fresh(port)))
  {
  }

  lemma RunsAreLive(p: Peer, c: Tcb, events: seq<Event>)
    requires p.Valid() && Opened(p, c) && Continues(true, p, c, [], events, 0)
    ensures Live(p, Run(c, events))
  {
    RunsLive(p, c, events);
  }

  // The whole stream of the peer it believed in.
  lemma MisreadInPlace(p: Peer, c: Tcb)
    requires p.Valid() && p.stream != [] && Live(Misread(p), c) && c.status == Finished
    requires c.remoteInitialSequenceNumber == p.Base()
    ensures Shift(p, c) == 0 && HoldsAt(c.receiveBuffer, 0, 0)
    ensures forall i | 1 <= i < |p.stream| :: HoldsAt(c.receiveBuffer, i, p.stream[i])
  {
    var q := Misread(p);
    assert Shift(q, c) == 0;
    assert HoldsByte(q, c, 0);
    forall i | 1 <= i < |p.stream| ensures HoldsAt(c.receiveBuffer, i, p.stream[i]) {
      assert HoldsByte(q, c, i);
    }
  }
}

/**
 How a download can end: from which states the peer and the timer can finish it, in segments that fit an IPv6
 packet, and when they can still do so with the stream in place.

 An honest peer acknowledges only SYNs and FINs that were transmitted.  What holds of every peer is the case of
 one that need not be honest.
 */
module TcpFinish {
  import opened Bytes
  import opened Tcp
  import opened TcpLife
  import opened TcpDownload

  // ---------------------------------------------------------------------------
  // What the peer acknowledges
  // ---------------------------------------------------------------------------

  // The number acknowledges no more than the SYN or the FIN of this segment.
  predicate Covers(t: Sent, number: nat) {
    (t.synchronize || t.finish) && number <= t.sequenceNumber + 1
  }

  // The number acknowledges nothing, or what was transmitted.
  predicate CoversSent(transmitted: seq<Sent>, number: nat) {
    number == 0 || exists i :: 0 <= i < |transmitted| && Covers(transmitted[i], number)
  }

  predicate Acknowledgeable(honest: bool, c: Tcb, number: nat) {
    honest ==> CoversSent(c.transmitted, number)
  }

  lemma LessIsAcknowledgeable(honest: bool, c: Tcb, less: nat, number: nat)
    requires Acknowledgeable(honest, c, number) && less <= number
    ensures Acknowledgeable(honest, c, less)
  {
    if honest && number != 0 {
      var i :| 0 <= i < |c.transmitted| && Covers(c.transmitted[i], number);
      assert Covers(c.transmitted[i], less);
    }
  }

  // A FIN that goes out can be acknowledged.
  lemma FinishGoesOut(honest: bool, c: Tcb, now: nat)
    requires c.status == FinSent && c.localSequenceNumber <= c.remoteAcknowledgment && c.localSequenceNumber < LIMIT_32
    ensures Acknowledgeable(honest, Transmit(c, now, true), c.localSequenceNumber + 1)
  {
    var r := Transmit(c, now, true);
    assert Low32(c.localSequenceNumber) == c.localSequenceNumber;
    assert Covers(r.transmitted[|c.transmitted|], c.localSequenceNumber + 1);
  }

  // So can a SYN.
  lemma SynGoesOut(honest: bool, c: Tcb, now: nat)
    requires c.status == SynReceived || c.status == SynSent
    requires c.localSequenceNumber == 0
    ensures Acknowledgeable(honest, Transmit(c, now, true), 1)
  {
    var r := Transmit(c, now, true);
    assert Covers(r.transmitted[|c.transmitted|], 1);
  }

  // Nothing else gives the peer more to acknowledge.
  lemma NothingGoesOut(honest: bool, c: Tcb, now: nat, frame: bool, number: nat)
    requires c.status != SynSent && c.status != SynReceived && !SendsFinish(c)
    ensures Acknowledgeable(honest, Transmit(c, now, frame), number) ==> Acknowledgeable(honest, c, number)
  {
    var r := Transmit(c, now, frame);
    if Acknowledgeable(honest, r, number) && honest && number != 0 {
      var i :| 0 <= i < |r.transmitted| && Covers(r.transmitted[i], number);
      assert r.transmitted[i] == c.transmitted[i];
    }
  }

  // What an honest peer sends for the connection, resets aside, acknowledges only what was transmitted.
  predicate AcknowledgesSent(honest: bool, p: Peer, c: Tcb, e: Event) {
    e.Deliver? && !e.segment.reset && e.segment.destinationPort == c.localPort
    && e.segment.sourceAddress == p.address && e.segment.sourcePort == p.port ==>
      Acknowledgeable(honest, c, e.segment.acknowledgmentNumber)
  }

  // ---------------------------------------------------------------------------
  // The peer's segments
  // ---------------------------------------------------------------------------

  // A connection that has the peer, to address the peer's segments by.
  function Seen(p: Peer, port: Port): Tcb {
    Fresh(port).(remoteAddress := p.address, remotePort := p.port)
  }

  // `length` bytes of the stream from `at` on.
  function Slice(p: Peer, port: Port, at: nat, length: nat, finish: bool, acknowledgmentNumber: Natural32): (s: Segment)
    requires p.Valid() && at + length <= |p.stream| && (finish ==> at + length == |p.stream|)
    requires (length > 0 || finish) && length <= LOCAL_MAXIMUM_SEGMENT_SIZE
    ensures IsSlice(p, s) && s.HeaderEnd() == HEADER_LENGTH && s.PayloadLength() == length
    ensures NextSequenceNumber(s) == s.sequenceNumber + length + (if finish then 1 else 0)
  {
    Segment(p.address, 0, p.port, port, p.Base() + at, acknowledgmentNumber,
            finish, false, false, true, 5, HEADER_LENGTH + length,
            i => if 20 <= i < 20 + length then p.stream[at + i - 20] else 0)
  }

  // As much of the stream from `at` on as fits one segment, with the FIN if that is all.
  function Piece(p: Peer, port: Port, at: nat, acknowledgmentNumber: Natural32): (s: Segment)
    requires p.Valid() && at <= |p.stream|
    ensures IsSlice(p, s) && s.HeaderEnd() == HEADER_LENGTH
    ensures s.PayloadLength() == Min(|p.stream| - at, LOCAL_MAXIMUM_SEGMENT_SIZE)
    ensures s.finish <==> at + s.PayloadLength() == |p.stream|
    ensures NextSequenceNumber(s) == s.sequenceNumber + s.PayloadLength() + (if s.finish then 1 else 0)
  {
    var length := Min(|p.stream| - at, LOCAL_MAXIMUM_SEGMENT_SIZE);
    Slice(p, port, at, length, at + length == |p.stream|, acknowledgmentNumber)
  }

  // The lengths fit their fields.
  predicate FitsPacket(s: Segment) {
    s.dataOffset <= 15 && s.HeaderEnd() <= s.ipPayloadLength < LIMIT_16
  }

  // The run goes on in this environment, with this kind of peer.
  ghost predicate GoesOn(honest: bool, p: Peer, c: Tcb, events: seq<Event>, all: seq<Event>) {
    && events <= all && EnvironmentRun(p, c, all)
    && forall i | |events| <= i < |all| :: AcknowledgesSent(honest, p, Run(c, all[..i]), all[i])
  }

  predicate Possible(e: Event, now: nat) {
    e.now >= now && (e.Deliver? ==> FitsPacket(e.segment))
  }

  // It does so from now on and by packets that can exist.
  ghost predicate Continues(honest: bool, p: Peer, c: Tcb, events: seq<Event>, all: seq<Event>, now: nat) {
    GoesOn(honest, p, c, events, all) && forall i | |events| <= i < |all| :: Possible(all[i], now)
  }

  // Only segments arrive, all at this time.
  ghost predicate OnlyDelivers(events: seq<Event>, all: seq<Event>, now: nat) {
    events <= all && forall i | |events| <= i < |all| :: all[i].Deliver? && all[i].now == now
  }

  lemma Extend(honest: bool, p: Peer, c: Tcb, start: seq<Event>, events: seq<Event>, e: Event, now: nat)
    returns (all: seq<Event>)
    requires Continues(honest, p, c, start, events, now) && FromEnvironment(p, Run(c, events), e)
    requires Possible(e, now) && AcknowledgesSent(honest, p, Run(c, events), e)
    ensures all == events + [e] && Continues(honest, p, c, start, all, now) && Run(c, all) == Apply(Run(c, events), e)
  {
    hide Run, EnvironmentRun, FromEnvironment, AcknowledgesSent, Possible;
    all := events + [e];
    EnvironmentExtends(p, c, events, e);
    RunExtends(c, events, e);
    assert all[..|events|] == events;
    forall i | |start| <= i < |all| ensures AcknowledgesSent(honest, p, Run(c, all[..i]), all[i]) {
      assert i < |events| ==> all[..i] == events[..i];
    }
  }

  // ---------------------------------------------------------------------------
  // What every state of an open connection has
  // ---------------------------------------------------------------------------

  // The local number counts little, a finished remote has been answered by closing, and the retries are not used up.
  predicate Steady(c: Tcb) {
    Numbered(c) && (c.status != Closed ==> c.retryCounter <= RETRY_LIMIT)
  }

  predicate Numbered(c: Tcb) {
    match c.status
    case SynSent | SynReceived => c.localSequenceNumber == 0
    case Established => c.localSequenceNumber <= 1 && !c.remoteFinished
    case FinSent => c.localSequenceNumber <= 1
    case WaitingForRemoteToFinish => c.localSequenceNumber <= 2 && !c.remoteFinished
    case _ => true
  }

  // The same before the dispatcher closes.
  predicate AlmostSteady(c: Tcb) {
    || Steady(c)
    || (c.status == Established && c.localSequenceNumber <= 1 && c.remoteFinished && c.retryCounter <= RETRY_LIMIT)
  }

  lemma StepSteady(c: Tcb, e: Event)
    requires Steady(c) && !Reopens(c, e)
    ensures Steady(Apply(c, e))
  {
    hide Received, Outgoing;
    if e.Deliver? {
      ReceivedSteady(c, e.segment, e.now, e.frame);
    }
  }

  lemma ReceivedSteady(c: Tcb, s: Segment, now: nat, frame: bool)
    requires Steady(c)
    ensures AlmostSteady(Received(c, s, now, frame))
  {
    hide ParsedOptions, ReceivedSyn, Acknowledged, ReceivedData;
    var c1 := WithHeader(c, s);
    SynSteady(c1, s, now, frame);
    if c.status !in {Closed, Listen, SynSent} {
      AcknowledgedSteady(c1, s, now);
      DataSteady(Acknowledged(c1, s, now), s, OptionsOf(c, s).end, now, frame);
    }
  }

  lemma SynSteady(c: Tcb, s: Segment, now: nat, frame: bool)
    requires Steady(c)
    ensures AlmostSteady(ReceivedSyn(c, s, now, frame))
  {
    hide Outgoing;
  }

  lemma AcknowledgedSteady(c: Tcb, s: Segment, now: nat)
    requires Steady(c) && c.status !in {Closed, Listen, SynSent}
    ensures AlmostSteady(Acknowledged(c, s, now)) && Synchronized(Acknowledged(c, s, now))
  {
  }

  lemma DataSteady(c: Tcb, s: Segment, from: nat, now: nat, frame: bool)
    requires AlmostSteady(c) && Synchronized(c)
    ensures AlmostSteady(ReceivedData(c, s, from, now, frame))
  {
    var c1 := if s.finish then FinishAccepted(c, now) else c;
    StoredSteady(c1, s, from, now, frame);
    hide Transmit, Stored;
  }

  lemma StoredSteady(c: Tcb, s: Segment, from: nat, now: nat, frame: bool)
    requires AlmostSteady(c)
    ensures AlmostSteady(Stored(c, s, from)) && AlmostSteady(Transmit(Stored(c, s, from), now, frame))
  {
    hide Outgoing, Copied, NextSequenceNumber;
  }

  // The peer's and the port's connection in such a state.
  ghost predicate Live(p: Peer, c: Tcb) {
    DownloadInvariant(p, c) && Steady(c)
  }

  lemma {:induction false} RunsLive(p: Peer, c: Tcb, events: seq<Event>)
    requires p.Valid() && Opened(p, c) && EnvironmentRun(p, c, events)
    ensures Live(p, Run(c, events))
  {
    RunsKeep(p, c, events);
    hide DownloadInvariant, Apply, FromEnvironment, Steady, Opened;
    if events == [] {
      OpenedSteady(p, c);
    } else {
      var n := |events| - 1;
      EnvironmentFront(p, c, events, n);
      RunsLive(p, c, events[..n]);
      NeverReopens(p, Run(c, events[..n]), events[n]);
      StepSteady(Run(c, events[..n]), events[n]);
    }
  }

  lemma OpenedSteady(p: Peer, c: Tcb)
    requires Opened(p, c)
    ensures Steady(c)
  {
  }

  lemma NeverReopens(p: Peer, c: Tcb, e: Event)
    requires FromEnvironment(p, c, e)
    ensures !Reopens(c, e)
  {
  }

  // ---------------------------------------------------------------------------
  // Steps towards the end
  // ---------------------------------------------------------------------------

  // A SYN, come again or not, is answered.
  lemma SynHalfOpens(honest: bool, p: Peer, c: Tcb, now: nat)
    requires p.Valid() && Live(p, c) && Unsynchronized(c)
    ensures var e := Deliver(Bare(Seen(p, c.localPort), true, false, p.initialSequenceNumber, 0), now, true, true);
            && FromEnvironment(p, c, e) && Possible(e, now) && AcknowledgesSent(honest, p, c, e)
            && Apply(c, e).status == SynReceived && Apply(c, e).localPort == c.localPort
            && Apply(c, e).remoteInitialSequenceNumber == c.remoteInitialSequenceNumber
            && Acknowledgeable(honest, Apply(c, e), 1)
  {
    var s := Bare(Seen(p, c.localPort), true, false, p.initialSequenceNumber, 0);
    hide Outgoing, Low32, CoversSent;
    var r := Received(c, s, now, true);
    assert r == Apply(c, Deliver(s, now, true, true));
    SynGoesOut(honest, r.(transmitted := c.transmitted), now);
  }

  lemma BareIsSlice(p: Peer, port: Port, ahead: nat, acknowledgmentNumber: Natural32)
    requires p.Valid() && ahead <= |p.stream| + 1
    ensures IsSlice(p, Bare(Seen(p, port), false, false, p.Base() + ahead, acknowledgmentNumber))
  {
  }

  lemma AcknowledgmentEstablishes(honest: bool, p: Peer, c: Tcb, ahead: nat, now: nat)
    requires p.Valid() && Live(p, c) && c.status == SynReceived && ahead <= |p.stream|
    requires Acknowledgeable(honest, c, 1)
    ensures var e := Deliver(Bare(Seen(p, c.localPort), false, false, p.Base() + ahead, 1), now, true, true);
            && FromEnvironment(p, c, e) && Possible(e, now) && AcknowledgesSent(honest, p, c, e)
            && Apply(c, e).status == Established && Apply(c, e).remoteInitialSequenceNumber == p.Base() + ahead
            && Apply(c, e).remoteAcknowledgment >= Apply(c, e).localSequenceNumber
            && Apply(c, e).localAcknowledgment == p.Base() && Apply(c, e).receiveBuffer == map[]
            && Acknowledgeable(honest, Apply(c, e), 1)
  {
    BareIsSlice(p, c.localPort, ahead, 1);
    hide Outgoing, Low32, IsSlice, CoversSent;
  }

  lemma AnswerEstablishes(honest: bool, p: Peer, c: Tcb, now: nat)
    requires p.Valid() && Live(p, c) && c.status == SynSent && Acknowledgeable(honest, c, 1)
    ensures var s := Bare(Seen(p, c.localPort), true, false, p.initialSequenceNumber, 1).(acknowledgment := true);
            var e := Deliver(s, now, true, true);
            && FromEnvironment(p, c, e) && Possible(e, now) && AcknowledgesSent(honest, p, c, e)
            && Apply(c, e).status == Established && Apply(c, e).localSequenceNumber == 1
            && Apply(c, e).remoteInitialSequenceNumber == p.initialSequenceNumber
            && Acknowledgeable(honest, Apply(c, e), 1)
  {
    hide Outgoing, Low32, CoversSent;
    var s := Bare(Seen(p, c.localPort), true, false, p.initialSequenceNumber, 1).(acknowledgment := true);
    StaysAcknowledgeable(honest, c, Apply(c, Deliver(s, now, true, true)), 1);
  }

  lemma StaysAcknowledgeable(honest: bool, c: Tcb, r: Tcb, number: nat)
    requires Acknowledgeable(honest, c, number) && c.transmitted <= r.transmitted
    ensures Acknowledgeable(honest, r, number)
  {
    if honest && number != 0 {
      var i :| 0 <= i < |c.transmitted| && Covers(c.transmitted[i], number);
      assert Covers(r.transmitted[i], number);
    }
  }

  predicate Open(c: Tcb) {
    c.status in {Established, FinSent, WaitingForRemoteToFinish}
  }

  // What is still missing of the stream and its FIN.
  lemma Missing(p: Peer, c: Tcb)
    requires p.Valid() && Live(p, c) && Open(c) && !c.remoteFinished
    ensures p.Base() <= c.localAcknowledgment <= p.Base() + |p.stream| && c.localSequenceNumber < LIMIT_32
  {
  }

  // All of our own that came before a FIN was acknowledged, or can be.
  predicate ReadyToFinish(honest: bool, c: Tcb) {
    c.remoteAcknowledgment >= c.localSequenceNumber || Acknowledgeable(honest, c, c.localSequenceNumber)
  }

  // What the peer's segments acknowledge then.
  function AcknowledgedNumber(honest: bool, c: Tcb): (number: Natural32)
    requires c.localSequenceNumber < LIMIT_32
    ensures number <= c.localSequenceNumber && Acknowledgeable(honest, c, number)
    ensures ReadyToFinish(honest, c) && number != c.localSequenceNumber ==>
              c.remoteAcknowledgment >= c.localSequenceNumber
  {
    if Acknowledgeable(honest, c, c.localSequenceNumber) then c.localSequenceNumber else 0
  }

  function NextPiece(honest: bool, p: Peer, c: Tcb): (s: Segment)
    requires p.Valid() && p.Base() <= c.localAcknowledgment <= p.Base() + |p.stream| && c.localSequenceNumber < LIMIT_32
  {
    Piece(p, c.localPort, c.localAcknowledgment - p.Base(), AcknowledgedNumber(honest, c))
  }

  // What a connection that received from the peer while it was open keeps.
  predicate StaysOpen(c: Tcb, r: Tcb) {
    && r.remoteInitialSequenceNumber == c.remoteInitialSequenceNumber
    && r.localSequenceNumber == c.localSequenceNumber
    && (c.status != WaitingForRemoteToFinish ==> r.remoteAcknowledgment >= r.localSequenceNumber)
  }

  // The next piece moves the acknowledgment on; the last one closes.
  lemma PieceArrives(honest: bool, p: Peer, c: Tcb, now: nat)
    requires p.Valid() && Live(p, c) && Open(c) && !c.remoteFinished
    requires c.status == WaitingForRemoteToFinish || ReadyToFinish(honest, c)
    requires p.Base() <= c.localAcknowledgment <= p.Base() + |p.stream| && c.localSequenceNumber < LIMIT_32
    ensures var s := NextPiece(honest, p, c);
            var e := Deliver(s, now, true, true);
            var r := Apply(c, e);
            && FromEnvironment(p, c, e) && Possible(e, now) && AcknowledgesSent(honest, p, c, e)
            && StaysOpen(c, r)
            && r.localAcknowledgment > c.localAcknowledgment
            && (r.remoteFinished <==> s.finish)
            && (if s.finish then r.status == if c.status == WaitingForRemoteToFinish then TimedClose else FinSent
                else r.status == c.status)
            && (s.finish && r.status == FinSent ==> Acknowledgeable(honest, r, r.localSequenceNumber + 1))
            && r.retryTimer > now
  {
    var s := NextPiece(honest, p, c);
    PieceReceived(honest, p, c, s, now);
    hide Received, Outgoing, Piece, IsSlice, CoversSent, AcknowledgedNumber;
    var r := Received(c, s, now, true);
    if r.status == Established {
      FinishGoesOut(honest, r.(status := FinSent), now);
    }
  }

  lemma PieceReceived(honest: bool, p: Peer, c: Tcb, s: Segment, now: nat)
    requires p.Valid() && Live(p, c) && Open(c) && !c.remoteFinished
    requires c.status == WaitingForRemoteToFinish || ReadyToFinish(honest, c)
    requires p.Base() <= c.localAcknowledgment <= p.Base() + |p.stream| && c.localSequenceNumber < LIMIT_32
    requires s == NextPiece(honest, p, c)
    ensures var r := Received(c, s, now, true);
            && StaysOpen(c, r)
            && r.localAcknowledgment > c.localAcknowledgment
            && (r.remoteFinished <==> s.finish)
            && r.status == (if s.finish && c.status == WaitingForRemoteToFinish then TimedClose else c.status)
            && (r.status == FinSent ==> Acknowledgeable(honest, r, r.localSequenceNumber + 1))
            && r.retryTimer > now
  {
    hide ParsedOptions, ReceivedData, OnlyStream, StoredBelow, AcknowledgesOnly, SentToPeer, NextSequenceNumber, IsSlice,
         CoversSent;
    PieceStored(honest, Acknowledged(WithHeader(c, s), s, now), s, OptionsOf(c, s).end, now);
  }

  lemma PieceStored(honest: bool, c: Tcb, s: Segment, from: nat, now: nat)
    requires Open(c) && !c.remoteFinished && s.sequenceNumber == c.localAcknowledgment < NextSequenceNumber(s)
    requires s.finish || s.PayloadLength() > 0
    requires c.status != WaitingForRemoteToFinish ==>
               c.localSequenceNumber <= c.remoteAcknowledgment && c.localSequenceNumber < LIMIT_32
    ensures var r := ReceivedData(c, s, from, now, true);
            && StaysOpen(c, r)
            && r.localAcknowledgment == NextSequenceNumber(s)
            && (r.remoteFinished <==> s.finish)
            && r.status == (if s.finish && c.status == WaitingForRemoteToFinish then TimedClose else c.status)
            && (r.status == FinSent ==> Acknowledgeable(honest, r, r.localSequenceNumber + 1))
            && r.retryTimer > now
  {
    hide Outgoing, Copied, NextSequenceNumber, CoversSent;
    var c2 := Stored(if s.finish then FinishAccepted(c, now) else c, s, from);
    if c2.status == FinSent {
      FinishGoesOut(honest, c2, now);
    }
  }

  // The acknowledgment of our FIN, wherever close() came, takes an answered connection to TimedClose.
  lemma FinishAcknowledged(honest: bool, p: Peer, c: Tcb, now: nat)
    requires p.Valid() && Live(p, c) && c.status == FinSent && c.remoteFinished
    requires Acknowledgeable(honest, c, c.localSequenceNumber + 1)
    ensures c.localSequenceNumber + 1 < LIMIT_32
    ensures var s := Bare(Seen(p, c.localPort), false, false, p.Base(), c.localSequenceNumber + 1);
            var e := Deliver(s, now, true, true);
            && FromEnvironment(p, c, e) && Possible(e, now) && AcknowledgesSent(honest, p, c, e)
            && Apply(c, e).status == TimedClose && Apply(c, e).retryTimer > now
            && Apply(c, e).remoteInitialSequenceNumber == c.remoteInitialSequenceNumber
  {
    BareIsSlice(p, c.localPort, 0, c.localSequenceNumber + 1);
    hide Outgoing, Low32, IsSlice, CoversSent;
  }

  // What an answered connection keeps that sends its FIN again.
  predicate StaysAnswered(honest: bool, c: Tcb, r: Tcb) {
    && r.status == FinSent && r.remoteFinished
    && r.remoteInitialSequenceNumber == c.remoteInitialSequenceNumber
    && Acknowledgeable(honest, r, r.localSequenceNumber + 1)
  }

  // A byte that comes again is answered with the FIN.
  lemma ByteComesAgain(honest: bool, p: Peer, c: Tcb, now: nat)
    requires p.Valid() && Live(p, c) && c.status == FinSent && c.remoteFinished
    requires ReadyToFinish(honest, c) && p.stream != []
    ensures c.localSequenceNumber < LIMIT_32
    ensures var s := Slice(p, c.localPort, 0, 1, false, AcknowledgedNumber(honest, c));
            var e := Deliver(s, now, true, true);
            && FromEnvironment(p, c, e) && Possible(e, now) && AcknowledgesSent(honest, p, c, e)
            && StaysAnswered(honest, c, Apply(c, e))
  {
    var s := Slice(p, c.localPort, 0, 1, false, AcknowledgedNumber(honest, c));
    ByteReceived(honest, p, c, s, now);
    hide Received, Outgoing, Slice, IsSlice, CoversSent, AcknowledgedNumber;
  }

  lemma ByteReceived(honest: bool, p: Peer, c: Tcb, s: Segment, now: nat)
    requires p.Valid() && Live(p, c) && c.status == FinSent && c.remoteFinished
    requires ReadyToFinish(honest, c) && p.stream != [] && c.localSequenceNumber < LIMIT_32
    requires s == Slice(p, c.localPort, 0, 1, false, AcknowledgedNumber(honest, c))
    ensures StaysAnswered(honest, c, Received(c, s, now, true))
  {
    hide ParsedOptions, OnlyStream, StoredBelow, AcknowledgesOnly, SentToPeer, NextSequenceNumber, IsSlice,
         CoversSent, Outgoing;
    FinishGoesOut(honest, Acknowledged(WithHeader(c, s), s, now), now);
  }

  // An acknowledgment prepares the timer's FIN.
  lemma AcknowledgmentPrepares(honest: bool, p: Peer, c: Tcb, now: nat)
    requires p.Valid() && Live(p, c) && c.status == FinSent && c.remoteFinished && ReadyToFinish(honest, c)
    ensures c.localSequenceNumber < LIMIT_32
    ensures var s := Bare(Seen(p, c.localPort), false, false, p.Base(), AcknowledgedNumber(honest, c));
            var e := Deliver(s, now, true, true);
            var r := Apply(c, e);
            && FromEnvironment(p, c, e) && Possible(e, now) && AcknowledgesSent(honest, p, c, e)
            && r.status == FinSent && r.remoteFinished && r.remoteAcknowledgment >= r.localSequenceNumber
            && r.remoteInitialSequenceNumber == c.remoteInitialSequenceNumber
            && r.localSequenceNumber == c.localSequenceNumber
            && r.retryTimer == c.retryTimer && r.retryCounter == c.retryCounter
  {
    BareIsSlice(p, c.localPort, 0, AcknowledgedNumber(honest, c));
    hide Outgoing, Low32, IsSlice, CoversSent, AcknowledgedNumber;
  }

  lemma TimerSendsFinish(honest: bool, p: Peer, c: Tcb, now: nat)
    requires c.status == FinSent && c.remoteFinished && c.localSequenceNumber <= c.remoteAcknowledgment && c.localSequenceNumber < LIMIT_32
    requires c.retryTimer <= now && c.retryCounter < RETRY_LIMIT
    ensures FromEnvironment(p, c, Tick(now, true)) && StaysAnswered(honest, c, Apply(c, Tick(now, true)))
  {
    hide Outgoing, CoversSent;
    FinishGoesOut(honest, c.(retryCounter := c.retryCounter + 1), now);
  }

  // ---------------------------------------------------------------------------
  // From which states it can finish
  // ---------------------------------------------------------------------------

  // Something can make an answered connection send once more: the peer's FIN, a byte that comes again, the timer.
  predicate CanSend(p: Peer, c: Tcb) {
    !c.remoteFinished || p.stream != [] || c.retryCounter < RETRY_LIMIT
  }

  // An open connection needs its SYN acknowledged, if it counts, and its FIN sent.
  predicate Finishable(honest: bool, p: Peer, c: Tcb) {
    match c.status
    case Closed => false
    case Established => ReadyToFinish(honest, c)
    case FinSent =>
      Acknowledgeable(honest, c, c.localSequenceNumber + 1) || (ReadyToFinish(honest, c) && CanSend(p, c))
    case _ => true
  }

  // Without a peer that must be honest only a Closed connection cannot finish.
  lemma FinishableUnlessClosed(p: Peer, c: Tcb)
    ensures Finishable(false, p, c) <==> c.status != Closed
  {
  }

  // Only the timer can send the FIN.
  predicate NeedsTimer(honest: bool, p: Peer, c: Tcb) {
    c.status == FinSent && c.remoteFinished && p.stream == []
    && !Acknowledgeable(honest, c, c.localSequenceNumber + 1)
  }

  lemma HandshakeCompletes(honest: bool, p: Peer, c: Tcb, start: seq<Event>, events: seq<Event>, ahead: nat, now: nat)
    returns (all: seq<Event>)
    requires p.Valid() && Opened(p, c) && Continues(honest, p, c, start, events, now)
    requires Unsynchronized(Run(c, events)) && ahead <= |p.stream|
    ensures Continues(honest, p, c, start, all, now) && OnlyDelivers(events, all, now) && |all| > |events|
    ensures Run(c, all).status == Established && Run(c, all).remoteInitialSequenceNumber == p.Base() + ahead
    ensures Run(c, all).remoteAcknowledgment >= Run(c, all).localSequenceNumber
    ensures Run(c, all).localAcknowledgment == p.Base() && Run(c, all).receiveBuffer == map[]
    ensures Acknowledgeable(honest, Run(c, all), 1)
  {
    hide Run, EnvironmentRun, Opened, Live, FromEnvironment, Apply, Acknowledgeable, AcknowledgesSent, Possible;
    RunsLive(p, c, events);
    SynHalfOpens(honest, p, Run(c, events), now);
    var s := Bare(Seen(p, Run(c, events).localPort), true, false, p.initialSequenceNumber, 0);
    all := Extend(honest, p, c, start, events, Deliver(s, now, true, true), now);
    RunsLive(p, c, all);
    AcknowledgmentEstablishes(honest, p, Run(c, all), ahead, now);
    var a := Bare(Seen(p, Run(c, all).localPort), false, false, p.Base() + ahead, 1);
    all := Extend(honest, p, c, start, all, Deliver(a, now, true, true), now);
  }

  lemma {:induction false} StreamArrives(honest: bool, p: Peer, c: Tcb, start: seq<Event>, events: seq<Event>, now: nat)
    returns (all: seq<Event>)
    requires p.Valid() && Opened(p, c) && Continues(honest, p, c, start, events, now)
    requires var r := Run(c, events);
             && Open(r) && !r.remoteFinished
             && (r.status == WaitingForRemoteToFinish || ReadyToFinish(honest, r))
    ensures Continues(honest, p, c, start, all, now) && OnlyDelivers(events, all, now) && |all| > |events|
    ensures var r := Run(c, all);
            && r.status in {FinSent, TimedClose} && r.remoteFinished && r.retryTimer > now
            && (r.status == FinSent ==> Acknowledgeable(honest, r, r.localSequenceNumber + 1))
            && r.remoteInitialSequenceNumber == Run(c, events).remoteInitialSequenceNumber
    decreases p.Limit() - Run(c, events).localAcknowledgment
  {
    hide Run, EnvironmentRun, Opened, Live, FromEnvironment, Apply, Piece, Acknowledgeable, AcknowledgesSent,
         Possible, AcknowledgedNumber;
    var r := Run(c, events);
    RunsLive(p, c, events);
    Missing(p, r);
    PieceArrives(honest, p, r, now);
    all := Extend(honest, p, c, start, events, Deliver(NextPiece(honest, p, r), now, true, true), now);
    if !Run(c, all).remoteFinished {
      all := StreamArrives(honest, p, c, start, all, now);
    }
  }

  // The timer makes an answered connection send its FIN.
  lemma Nudged(honest: bool, p: Peer, c: Tcb, start: seq<Event>, events: seq<Event>, now: nat)
    returns (all: seq<Event>, s: Segment, time: nat)
    requires p.Valid() && Opened(p, c) && Continues(honest, p, c, start, events, now)
    requires var r := Run(c, events);
             && r.status == FinSent && r.remoteFinished && ReadyToFinish(honest, r) && r.retryCounter < RETRY_LIMIT
    ensures time >= now && all == events + [Deliver(s, time, true, true)] + [Tick(time, true)]
    ensures Continues(honest, p, c, start, all, now) && StaysAnswered(honest, Run(c, events), Run(c, all))
  {
    hide Run, EnvironmentRun, Opened, Live, FromEnvironment, Apply, Acknowledgeable, AcknowledgesSent,
         AcknowledgedNumber;
    var r := Run(c, events);
    RunsLive(p, c, events);
    time := if r.retryTimer < now then now else r.retryTimer;
    AcknowledgmentPrepares(honest, p, r, time);
    s := Bare(Seen(p, r.localPort), false, false, p.Base(), AcknowledgedNumber(honest, r));
    all := Extend(honest, p, c, start, events, Deliver(s, time, true, true), now);
    TimerSendsFinish(honest, p, Run(c, all), time);
    NotADelivery(honest, p, Run(c, all), Tick(time, true));
    all := Extend(honest, p, c, start, all, Tick(time, true), now);
  }

  lemma NotADelivery(honest: bool, p: Peer, c: Tcb, e: Event)
    requires !e.Deliver?
    ensures AcknowledgesSent(honest, p, c, e)
  {
  }

  // A synchronized connection gets to TimedClose by segments alone, unless only the timer can send its FIN.
  lemma Closes(honest: bool, p: Peer, c: Tcb, start: seq<Event>, events: seq<Event>, now: nat) returns (all: seq<Event>)
    requires p.Valid() && Opened(p, c) && Continues(honest, p, c, start, events, now) && Synchronized(Run(c, events))
    requires Finishable(honest, p, Run(c, events)) && !NeedsTimer(honest, p, Run(c, events))
    ensures Continues(honest, p, c, start, all, now) && OnlyDelivers(events, all, now)
    ensures Run(c, all).status in {TimedClose, Finished}
    ensures all != events ==> Run(c, all).status == TimedClose && Run(c, all).retryTimer > now
    ensures Run(c, all).remoteInitialSequenceNumber == Run(c, events).remoteInitialSequenceNumber
  {
    hide Run, EnvironmentRun, Opened, Live, DownloadInvariant, FromEnvironment, Apply, Slice, Acknowledgeable,
         AcknowledgesSent, Possible, AcknowledgedNumber;
    all := events;
    LiveIsAnswered(p, c, all);
    if Open(Run(c, all)) && !Run(c, all).remoteFinished {
      FinishableIsReady(honest, p, Run(c, all));
      all := StreamArrives(honest, p, c, start, all, now);
    } else if Run(c, all).status == FinSent {
      if !Acknowledgeable(honest, Run(c, all), Run(c, all).localSequenceNumber + 1) {
        RunsLive(p, c, all);
        ByteComesAgain(honest, p, Run(c, all), now);
        var s := Slice(p, Run(c, all).localPort, 0, 1, false, AcknowledgedNumber(honest, Run(c, all)));
        all := Extend(honest, p, c, start, all, Deliver(s, now, true, true), now);
      }
    }
    if Run(c, all).status == FinSent {
      RunsLive(p, c, all);
      FinishAcknowledged(honest, p, Run(c, all), now);
      var r := Run(c, all);
      var s := Bare(Seen(p, r.localPort), false, false, p.Base(), r.localSequenceNumber + 1);
      all := Extend(honest, p, c, start, all, Deliver(s, now, true, true), now);
    }
  }

  lemma FinishableIsReady(honest: bool, p: Peer, c: Tcb)
    requires Finishable(honest, p, c) && Open(c)
    ensures c.status == WaitingForRemoteToFinish || ReadyToFinish(honest, c)
  {
    hide CoversSent;
    if Acknowledgeable(honest, c, c.localSequenceNumber + 1) {
      LessIsAcknowledgeable(honest, c, c.localSequenceNumber, c.localSequenceNumber + 1);
    }
  }

  // A connection whose remote finished is neither Established nor waiting for that.
  lemma LiveIsAnswered(p: Peer, c: Tcb, events: seq<Event>)
    requires p.Valid() && Opened(p, c) && EnvironmentRun(p, c, events) && Synchronized(Run(c, events))
    ensures Run(c, events).status in {Established, WaitingForRemoteToFinish} ==> !Run(c, events).remoteFinished
  {
    RunsLive(p, c, events);
    hide Run, EnvironmentRun, Opened, DownloadInvariant;
  }

  lemma TimerFinishes(honest: bool, p: Peer, c: Tcb, start: seq<Event>, events: seq<Event>, now: nat)
    returns (all: seq<Event>, time: nat)
    requires p.Valid() && Opened(p, c) && Continues(honest, p, c, start, events, now)
    requires Run(c, events).status == TimedClose
    ensures time >= now && all == events + [Tick(time, true)]
    ensures Continues(honest, p, c, start, all, now) && Run(c, all).status == Finished
    ensures Run(c, all).remoteInitialSequenceNumber == Run(c, events).remoteInitialSequenceNumber
  {
    hide Run, EnvironmentRun, GoesOn, Opened, AcknowledgesSent;
    var timer := Run(c, events).retryTimer;
    time := if timer < now then now else timer;
    NotADelivery(honest, p, Run(c, events), Tick(time, true));
    all := Extend(honest, p, c, start, events, Tick(time, true), now);
  }

  lemma Finishing(honest: bool, p: Peer, c: Tcb, start: seq<Event>, events: seq<Event>, now: nat)
    returns (all: seq<Event>)
    requires p.Valid() && Opened(p, c) && Continues(honest, p, c, start, events, now) && Synchronized(Run(c, events))
    requires Finishable(honest, p, Run(c, events))
    ensures Continues(honest, p, c, start, all, now) && Run(c, all).status == Finished
    ensures Run(c, all).remoteInitialSequenceNumber == Run(c, events).remoteInitialSequenceNumber
  {
    hide Run, EnvironmentRun, GoesOn, Opened, Acknowledgeable;
    all := events;
    if NeedsTimer(honest, p, Run(c, all)) {
      var nudged, _, _ := Nudged(honest, p, c, start, all, now);
      all := nudged;
    }
    all := Closes(honest, p, c, start, all, now);
    if Run(c, all).status != Finished {
      var finished, _ := TimerFinishes(honest, p, c, start, all, now);
      all := finished;
    }
  }

  /** From these states the peer, honest or not, in packets that can exist, and the timer can finish the connection,
      from any time on.  The base is kept, or, where none was taken, is the start of the stream. */
  lemma {:induction false} CanFinish(honest: bool, p: Peer, c: Tcb, events: seq<Event>, now: nat)
    returns (all: seq<Event>)
    requires p.Valid() && Opened(p, c) && EnvironmentRun(p, c, events) && Finishable(honest, p, Run(c, events))
    ensures Continues(honest, p, c, events, all, now) && Run(c, all).status == Finished
    ensures Shift(p, Run(c, all)) == if Synchronized(Run(c, events)) then Shift(p, Run(c, events)) else 0
  {
    hide Run, EnvironmentRun, Opened, ReadyToFinish;
    all := events;
    if Unsynchronized(Run(c, events)) {
      all := HandshakeCompletes(honest, p, c, events, all, 0, now);
      AcknowledgedIsReady(honest, Run(c, all));
    }
    all := Finishing(honest, p, c, events, all, now);
  }

  lemma AcknowledgedIsReady(honest: bool, c: Tcb)
    requires c.remoteAcknowledgment >= c.localSequenceNumber
    ensures ReadyToFinish(honest, c)
  {
  }

  // ---------------------------------------------------------------------------
  // From which it cannot
  // ---------------------------------------------------------------------------

  lemma StuckTick(honest: bool, p: Peer, c: Tcb, now: nat, frame: bool)
    requires Steady(c) && !Finishable(honest, p, c)
    ensures !Finishable(honest, p, Poll(c, now, frame))
  {
    hide Outgoing, CoversSent;
    var c1 := c.(retryCounter := c.retryCounter + 1);
    if c.status in {Established, FinSent} && !ReadyToFinish(honest, c) {
      NotReadySends(honest, c1, now, frame);
    }
  }

  // A connection whose SYN was not acknowledged and cannot be sends no FIN.
  lemma NotReadySends(honest: bool, c: Tcb, now: nat, frame: bool)
    requires !ReadyToFinish(honest, c) && c.status in {Established, FinSent}
    ensures !ReadyToFinish(honest, Transmit(c, now, frame))
    ensures !Acknowledgeable(honest, Transmit(c, now, frame), c.localSequenceNumber + 1)
  {
    NothingGoesOut(honest, c, now, frame, c.localSequenceNumber);
    var r := Transmit(c, now, frame);
    if Acknowledgeable(honest, r, c.localSequenceNumber + 1) {
      LessIsAcknowledgeable(honest, r, c.localSequenceNumber, c.localSequenceNumber + 1);
    }
  }

  lemma StuckClose(honest: bool, p: Peer, c: Tcb, now: nat, frame: bool)
    requires !Finishable(honest, p, c)
    ensures !Finishable(honest, p, ClosedBy(c, now, frame))
  {
    hide Outgoing, CoversSent;
    if c.status == Established {
      NotReadySends(honest, c.(status := FinSent), now, frame);
    }
  }

  lemma StuckReceive(honest: bool, p: Peer, c: Tcb, s: Segment, now: nat, frame: bool)
    requires p.Valid() && Live(p, c) && FromNetwork(p, c, s) && s.destinationPort == c.localPort
    requires !Finishable(honest, p, c)
    requires c.status != Closed && !s.reset && FromRemote(c, s) ==> Acknowledgeable(honest, c, s.acknowledgmentNumber)
    ensures !Finishable(honest, p, Received(c, s, now, frame))
  {
    hide Outgoing, ParsedOptions, ReceivedData, CoversSent, OnlyStream, StoredBelow, AcknowledgesOnly, SentToPeer, IsSlice;
    if c.status != Closed && FromRemote(c, s) && !s.reset && !s.synchronize {
      if s.acknowledgmentNumber > c.localSequenceNumber {
        LessIsAcknowledgeable(honest, c, c.localSequenceNumber + 1, s.acknowledgmentNumber);
        LessIsAcknowledgeable(honest, c, c.localSequenceNumber, s.acknowledgmentNumber);
      }
      var c1 := Acknowledged(WithHeader(c, s), s, now);
      if !ReadyToFinish(honest, c) {
        NotReadyReceives(honest, c1, s, OptionsOf(c, s).end, now, frame);
      } else {
        AnsweredReceives(p, c1, s, OptionsOf(c, s).end, now, frame);
      }
    }
  }

  lemma NotReadyReceives(honest: bool, c: Tcb, s: Segment, from: nat, now: nat, frame: bool)
    requires !ReadyToFinish(honest, c) && c.status in {Established, FinSent}
    ensures var r := ReceivedData(c, s, from, now, frame);
            r.status == c.status && !ReadyToFinish(honest, r) && !Acknowledgeable(honest, r, r.localSequenceNumber + 1)
  {
    hide Outgoing, CoversSent, Copied, NextSequenceNumber;
    NotReadySends(honest, Stored(if s.finish then FinishAccepted(c, now) else c, s, from), now, frame);
    NotReadySends(honest, c, now, false);
  }

  // An answered connection of an empty stream answers nothing more.
  lemma AnsweredReceives(p: Peer, c: Tcb, s: Segment, from: nat, now: nat, frame: bool)
    requires p.Valid() && IsSlice(p, s) && p.stream == [] && c.localAcknowledgment == p.Limit()
    ensures ReceivedData(c, s, from, now, frame) == c
  {
    SliceNumbers(p, s);
  }

  lemma StuckStep(honest: bool, p: Peer, c: Tcb, e: Event)
    requires p.Valid() && Live(p, c) && FromEnvironment(p, c, e) && AcknowledgesSent(honest, p, c, e)
    requires !Finishable(honest, p, c)
    ensures !Finishable(honest, p, Apply(c, e))
  {
    hide Received, Poll, ClosedBy, Finishable, Acknowledgeable;
    match e
    case Deliver(s, now, frame, closeFrame) =>
      if s.destinationPort == c.localPort {
        StuckPeer(honest, p, c, e);
        StuckReceive(honest, p, c, s, now, frame);
        StuckClose(honest, p, Received(c, s, now, frame), now, closeFrame);
      }
    case Tick(now, frame) => StuckTick(honest, p, c, now, frame);
    case CallClose(now, frame) => StuckClose(honest, p, c, now, frame);
    case _ =>
      StuckIsPastListen(honest, p, c);
  }

  lemma StuckPeer(honest: bool, p: Peer, c: Tcb, e: Event)
    requires Live(p, c) && AcknowledgesSent(honest, p, c, e) && e.Deliver? && e.segment.destinationPort == c.localPort
    requires !Finishable(honest, p, c)
    ensures c.status != Closed && !e.segment.reset && FromRemote(c, e.segment) ==>
              Acknowledgeable(honest, c, e.segment.acknowledgmentNumber)
  {
    hide Acknowledgeable;
  }

  lemma StuckIsPastListen(honest: bool, p: Peer, c: Tcb)
    requires !Finishable(honest, p, c)
    ensures c.status in {Closed, Established, FinSent}
  {
  }

  lemma {:induction false} StuckStays(honest: bool, p: Peer, c: Tcb, events: seq<Event>, all: seq<Event>)
    requires p.Valid() && Opened(p, c) && GoesOn(honest, p, c, events, all)
    requires !Finishable(honest, p, Run(c, events))
    ensures !Finishable(honest, p, Run(c, all))
    decreases |all|
  {
    hide Apply, Live, Opened, FromEnvironment, Finishable, AcknowledgesSent;
    if events != all {
      var n := |all| - 1;
      EnvironmentFront(p, c, all, n);
      assert forall i | 0 <= i < n :: all[..n][..i] == all[..i];
      StuckStays(honest, p, c, events, all[..n]);
      RunsLive(p, c, all[..n]);
      StuckStep(honest, p, Run(c, all[..n]), all[n]);
    }
  }

  ghost predicate Finishes(honest: bool, p: Peer, c: Tcb, events: seq<Event>, all: seq<Event>) {
    GoesOn(honest, p, c, events, all) && Run(c, all).status == Finished
  }

  /** A connection can still finish if and only if it is not Closed and, with a peer that acknowledges only what was
      transmitted: our SYN was acknowledged, or transmitted and so can be; and our FIN was transmitted, or something
      can make the connection send it. */
  lemma {:induction false} CanFinishIff(honest: bool, p: Peer, c: Tcb, events: seq<Event>)
    requires p.Valid() && Opened(p, c) && EnvironmentRun(p, c, events)
    ensures (exists all :: Finishes(honest, p, c, events, all)) <==> Finishable(honest, p, Run(c, events))
  {
    hide Run, EnvironmentRun, Opened, GoesOn;
    if Finishable(honest, p, Run(c, events)) {
      var all := CanFinish(honest, p, c, events, 0);
      assert Finishes(honest, p, c, events, all);
    } else {
      forall all ensures !Finishes(honest, p, c, events, all) {
        if GoesOn(honest, p, c, events, all) {
          StuckStays(honest, p, c, events, all);
        }
      }
    }
  }

  lemma NothingYet(p: Peer, c: Tcb)
    ensures EnvironmentRun(p, c, []) && Run(c, []) == c && Continues(true, p, c, [], [], 0)
  {
  }

  // ---------------------------------------------------------------------------
  // Whether it can still finish in place
  // ---------------------------------------------------------------------------

  predicate Past(c: Tcb) {
    Synchronized(c) || c.status == Closed
  }

  // Once taken, the base stays.
  lemma {:induction false} BaseStays(p: Peer, c: Tcb, events: seq<Event>, all: seq<Event>)
    requires p.Valid() && Opened(p, c) && EnvironmentRun(p, c, all) && events <= all
    requires Synchronized(Run(c, events))
    ensures Past(Run(c, all))
    ensures Synchronized(Run(c, all)) ==> Shift(p, Run(c, all)) == Shift(p, Run(c, events))
    decreases |all|
  {
    hide Apply, DownloadInvariant, Opened, FromEnvironment, Opens;
    if events == all {
    } else {
      var n := |all| - 1;
      EnvironmentFront(p, c, all, n);
      BaseStays(p, c, events, all[..n]);
      RunsKeep(p, c, all[..n]);
      BaseStep(p, Run(c, all[..n]), all[n]);
    }
  }

  ghost predicate FinishesInPlace(honest: bool, p: Peer, c: Tcb, events: seq<Event>, all: seq<Event>) {
    Finishes(honest, p, c, events, all) && HoldsStream(p, Run(c, all).receiveBuffer)
  }

  // It took no base yet, or the start of the stream, or there is nothing to place.
  predicate CanBeInPlace(p: Peer, c: Tcb) {
    p.stream == [] || !Synchronized(c) || Shift(p, c) == 0
  }

  /** A connection that can still finish can do so with the stream in place if and only if it took no base yet, or
      its base is the start of the stream, or the stream is empty. */
  lemma {:induction false} CanFinishInPlaceIff(honest: bool, p: Peer, c: Tcb, events: seq<Event>)
    requires p.Valid() && Opened(p, c) && EnvironmentRun(p, c, events)
    ensures (exists all :: FinishesInPlace(honest, p, c, events, all))
            <==> Finishable(honest, p, Run(c, events)) && CanBeInPlace(p, Run(c, events))
  {
    hide Run, EnvironmentRun, Opened, HoldsStream, HoldsShifted, Finishable;
    var r := Run(c, events);
    if Finishable(honest, p, r) && CanBeInPlace(p, r) {
      var all := CanFinish(honest, p, c, events, 0);
      DownloadComplete(p, c, all);
      assert FinishesInPlace(honest, p, c, events, all);
    } else {
      CanFinishIff(honest, p, c, events);
      forall all ensures !FinishesInPlace(honest, p, c, events, all) {
        if Finishes(honest, p, c, events, all) && Finishable(honest, p, r) {
          BaseStays(p, c, events, all);
          DownloadComplete(p, c, all);
        }
      }
    }
  }
}

/**
 A run for each way a download can end: the ways the stream can come to stand, and two dead ends.
 The peer is honest in all of them.
 */
module TcpDownloadRuns {
  import opened Bytes
  import opened Tcp
  import opened TcpLife
  import opened TcpDownload
  import opened TcpFinish

  // ---------------------------------------------------------------------------
  // One run for each way
  // ---------------------------------------------------------------------------

  // A synchronized connection finishes with the stream at its shift.
  lemma FinishesShifted(p: Peer, c: Tcb, events: seq<Event>) returns (all: seq<Event>)
    requires p.Valid() && Opened(p, c) && Continues(true, p, c, [], events, 0) && Synchronized(Run(c, events))
    requires Finishable(true, p, Run(c, events))
    ensures Continues(true, p, c, [], all, 0) && Run(c, all).status == Finished
    ensures var shift, buffer := Shift(p, Run(c, events)), Run(c, all).receiveBuffer;
            && HoldsDisplaced(p, buffer, -shift)
            && (HoldsStream(p, buffer) <==> p.stream == [] || shift == 0)
  {
    hide Run, EnvironmentRun, Opened, HoldsStream, HoldsShifted, HoldsDisplaced, Finishable;
    all := Finishing(true, p, c, [], events, 0);
    DownloadComplete(p, c, all);
    DisplacedByShift(p, Run(c, all));
  }

  // The handshake's acknowledgment at the start of the stream finishes in place, one further on does not.
  lemma HandshakeFinishes(p: Peer, c: Tcb, ahead: nat) returns (all: seq<Event>)
    requires p.Valid() && Opened(p, c) && Unsynchronized(c) && ahead <= |p.stream|
    ensures Continues(true, p, c, [], all, 0) && Run(c, all).status == Finished
    ensures HoldsStream(p, Run(c, all).receiveBuffer) <==> p.stream == [] || ahead == 0
  {
    NothingYet(p, c);
    hide Run, EnvironmentRun, GoesOn, Opened, HoldsStream, HoldsDisplaced, ReadyToFinish;
    all := HandshakeCompletes(true, p, c, [], [], ahead, 0);
    AcknowledgedIsReady(true, Run(c, all));
    all := FinishesShifted(p, c, all);
  }

  lemma OpenedListening(p: Peer, port: Port)
    ensures Opened(p, Listened(Fresh(port))) && Listened(Fresh(port)).status == Listen
  {
  }

  lemma OpenedConnecting(p: Peer, port: Port)
    ensures var c := Connecting(p, port, 0, true);
            Opened(p, c) && c.status == SynSent && Acknowledgeable(true, c, 1)
  {
    var c := Fresh(port).(remoteAddress := p.address, remotePort := p.port, status := SynSent);
    SynGoesOut(true, c, 0);
    assert Connecting(p, port, 0, true) == Transmit(c, 0, true);
  }

  /** A listening connection can finish either way: the handshake's acknowledgment at the start of a stream puts
      it in place, and one that overtook the first byte misplaces it. */
  lemma {:induction false} ListeningFinishes(p: Peer, port: Port, ahead: nat) returns (events: seq<Event>)
    requires p.Valid() && ahead <= |p.stream|
    ensures var c := Listened(Fresh(port));
            && Continues(true, p, c, [], events, 0) && Run(c, events).status == Finished
            && (HoldsStream(p, Run(c, events).receiveBuffer) <==> p.stream == [] || ahead == 0)
  {
    OpenedListening(p, port);
    hide Listened, Fresh, Opened, HoldsStream, Continues, Run;
    events := HandshakeFinishes(p, Listened(Fresh(port)), ahead);
  }

  /** So can a connection that connected and whose SYN crossed the peer's. */
  lemma {:induction false} CrossingFinishes(p: Peer, port: Port, ahead: nat) returns (events: seq<Event>)
    requires p.Valid() && ahead <= |p.stream|
    ensures var c := Connecting(p, port, 0, true);
            && Continues(true, p, c, [], events, 0) && Run(c, events).status == Finished
            && (HoldsStream(p, Run(c, events).receiveBuffer) <==> p.stream == [] || ahead == 0)
  {
    OpenedConnecting(p, port);
    hide Connecting, Opened, HoldsStream, Continues, Run, Acknowledgeable;
    events := HandshakeFinishes(p, Connecting(p, port, 0, true), ahead);
  }

  lemma AnswerSynchronizes(p: Peer, c: Tcb) returns (events: seq<Event>)
    requires p.Valid() && Opened(p, c) && c.status == SynSent && Acknowledgeable(true, c, 1)
    ensures Continues(true, p, c, [], events, 0) && Synchronized(Run(c, events)) && Shift(p, Run(c, events)) == -1
    ensures Finishable(true, p, Run(c, events))
  {
    NothingYet(p, c);
    RunsLive(p, c, []);
    hide Run, EnvironmentRun, GoesOn, Opened, Live, Apply, FromEnvironment, AcknowledgesSent, Possible, Acknowledgeable;
    AnswerEstablishes(true, p, c, 0);
    var s := Bare(Seen(p, c.localPort), true, false, p.initialSequenceNumber, 1).(acknowledgment := true);
    events := Extend(true, p, c, [], [], Deliver(s, 0, true, true), 0);
  }

  /** An active open that is answered at once finishes with the stream one place too far. */
  lemma {:induction false} ConnectingFinishesDisplaced(p: Peer, port: Port) returns (events: seq<Event>)
    requires p.Valid()
    ensures var c := Connecting(p, port, 0, true);
            && Continues(true, p, c, [], events, 0) && Run(c, events).status == Finished
            && HoldsDisplaced(p, Run(c, events).receiveBuffer, 1)
            && (HoldsStream(p, Run(c, events).receiveBuffer) <==> p.stream == [])
  {
    hide Run, Opened, HoldsStream, HoldsDisplaced, Continues, Connecting, Acknowledgeable, Finishable;
    var c := Connecting(p, port, 0, true);
    OpenedConnecting(p, port);
    events := AnswerSynchronizes(p, c);
    events := FinishesShifted(p, c, events);
  }

  lemma HalfOpens(p: Peer, c: Tcb) returns (events: seq<Event>)
    requires p.Valid() && Opened(p, c) && c.status == Listen
    ensures Continues(true, p, c, [], events, 0) && Live(p, Run(c, events)) && Run(c, events).status == SynReceived
    ensures Run(c, events).remoteInitialSequenceNumber == 0
  {
    NothingYet(p, c);
    RunsLive(p, c, []);
    OpenedUnsynchronized(p, c);
    hide Run, EnvironmentRun, GoesOn, Opened, Apply, FromEnvironment, AcknowledgesSent, Possible, Acknowledgeable, Live;
    SynHalfOpens(true, p, c, 0);
    var e := Deliver(Bare(Seen(p, c.localPort), true, false, p.initialSequenceNumber, 0), 0, true, true);
    events := Extend(true, p, c, [], [], e, 0);
    RunsLive(p, c, events);
  }

  lemma CloseSynchronizes(p: Peer, c: Tcb) returns (events: seq<Event>)
    requires p.Valid() && Opened(p, c) && c.status == Listen
    ensures Continues(true, p, c, [], events, 0) && Synchronized(Run(c, events))
    ensures Shift(p, Run(c, events)) + p.Base() == 0 && Finishable(true, p, Run(c, events))
  {
    hide Run, Opened, Apply, FromEnvironment, AcknowledgesSent, Possible, Live, Finishable, Continues;
    events := HalfOpens(p, c);
    HalfOpenCloses(p, Run(c, events));
    NotADelivery(true, p, Run(c, events), CallClose(0, true));
    events := Extend(true, p, c, [], events, CallClose(0, true), 0);
  }

  lemma HalfOpenCloses(p: Peer, c: Tcb)
    requires p.Valid() && Live(p, c) && c.status == SynReceived
    ensures FromEnvironment(p, c, CallClose(0, true)) && Possible(CallClose(0, true), 0)
    ensures var r := Apply(c, CallClose(0, true));
            && r.status == FinSent && r.remoteInitialSequenceNumber == c.remoteInitialSequenceNumber
            && Finishable(true, p, r)
  {
    hide Outgoing, CoversSent;
  }

  /** A listening connection that its owner closes half open finishes with the stream displaced by all of its
      first number: no segment sets the base. */
  lemma {:induction false} ClosingFinishesDisplaced(p: Peer, port: Port) returns (events: seq<Event>)
    requires p.Valid()
    ensures var c := Listened(Fresh(port));
            && Continues(true, p, c, [], events, 0) && Run(c, events).status == Finished
            && HoldsDisplaced(p, Run(c, events).receiveBuffer, p.Base())
            && (HoldsStream(p, Run(c, events).receiveBuffer) <==> p.stream == [])
  {
    hide Run, Opened, HoldsStream, HoldsDisplaced, Continues, Listened, Fresh, Finishable;
    var c := Listened(Fresh(port));
    OpenedListening(p, port);
    events := CloseSynchronizes(p, c);
    events := FinishesShifted(p, c, events);
  }

  // ---------------------------------------------------------------------------
  // Runs that cannot finish
  // ---------------------------------------------------------------------------

  // Nothing but its SYN was sent.
  predicate OnlySyn(c: Tcb) {
    forall i | 0 <= i < |c.transmitted| :: !c.transmitted[i].finish && c.transmitted[i].sequenceNumber == 0
  }

  lemma OnlySynCovers(c: Tcb)
    requires OnlySyn(c)
    ensures !Acknowledgeable(true, c, 2)
  {
  }

  lemma SynFirst(p: Peer, port: Port, frame: bool)
    requires p.Valid()
    ensures var c := Listened(Fresh(port));
            var e := Deliver(Bare(Seen(p, c.localPort), true, false, p.initialSequenceNumber, 0), 0, frame, frame);
            var r := Apply(c, e);
            && FromEnvironment(p, c, e) && Possible(e, 0) && AcknowledgesSent(true, p, c, e)
            && r.status == SynReceived && r.retryCounter == 0 && r.localPort == c.localPort
            && r.remoteAcknowledgment == 0
            && (if frame then SynSentOnce(r) else r.transmitted == [])
  {
    assert Low32(0) == 0;
    hide Low32;
  }

  predicate SynSentOnce(c: Tcb) {
    |c.transmitted| == 1 && c.transmitted[0].synchronize && !c.transmitted[0].finish
    && c.transmitted[0].sequenceNumber == 0
  }

  lemma SynSentCovers(c: Tcb)
    requires SynSentOnce(c)
    ensures OnlySyn(c) && Acknowledgeable(true, c, 1)
  {
    assert Covers(c.transmitted[0], 1);
  }

  lemma ResendStep(p: Peer, c: Tcb)
    requires Live(p, c) && c.status == SynReceived && c.retryCounter < RETRY_LIMIT && OnlySyn(c)
    requires Acknowledgeable(true, c, 1)
    ensures var e := Tick(c.retryTimer, true);
            var r := Apply(c, e);
            && FromEnvironment(p, c, e) && Possible(e, 0)
            && r.status == SynReceived && r.retryCounter == c.retryCounter + 1 && OnlySyn(r)
            && Acknowledgeable(true, r, 1)
  {
    StaysAcknowledgeable(true, c, Apply(c, Tick(c.retryTimer, true)), 1);
    hide CoversSent;
  }

  lemma {:induction false} Resends(p: Peer, c: Tcb, events: seq<Event>, k: nat) returns (all: seq<Event>)
    requires p.Valid() && Opened(p, c) && Continues(true, p, c, [], events, 0) && k <= RETRY_LIMIT
    requires var r := Run(c, events);
             r.status == SynReceived && r.retryCounter == 0 && OnlySyn(r) && Acknowledgeable(true, r, 1)
    ensures Continues(true, p, c, [], all, 0)
    ensures var r := Run(c, all);
            r.status == SynReceived && r.retryCounter == k && OnlySyn(r) && Acknowledgeable(true, r, 1)
  {
    hide Run, EnvironmentRun, Opened, Live, FromEnvironment, Apply, Acknowledgeable, AcknowledgesSent, Possible, OnlySyn;
    all := events;
    if k > 0 {
      all := Resends(p, c, events, k - 1);
      RunsLive(p, c, all);
      ResendStep(p, Run(c, all));
      NotADelivery(true, p, Run(c, all), Tick(Run(c, all).retryTimer, true));
      all := Extend(true, p, c, [], all, Tick(Run(c, all).retryTimer, true), 0);
    }
  }

  lemma FinishUnanswered(p: Peer, c: Tcb)
    requires p.Valid() && Live(p, c) && c.status == SynReceived && p.stream == []
    requires c.retryCounter == RETRY_LIMIT && OnlySyn(c) && Acknowledgeable(true, c, 1)
    ensures var e := Deliver(Piece(p, c.localPort, 0, 1), 0, false, false);
            var r := Apply(c, e);
            && FromEnvironment(p, c, e) && Possible(e, 0) && AcknowledgesSent(true, p, c, e)
            && r.status == FinSent && !Finishable(true, p, r)
  {
    var e := Deliver(Piece(p, c.localPort, 0, 1), 0, false, false);
    EmptyReceived(p, c, e.segment);
    OnlySynCovers(Apply(c, e));
    hide Received, CoversSent, IsSlice, Piece;
  }

  lemma EmptyReceived(p: Peer, c: Tcb, s: Segment)
    requires p.Valid() && Live(p, c) && c.status == SynReceived && p.stream == []
    requires s == Piece(p, c.localPort, 0, 1)
    ensures var r := Received(c, s, 0, false);
            && r.status == Established && r.remoteFinished && r.localSequenceNumber == 1
            && r.transmitted == c.transmitted && r.retryCounter == c.retryCounter
  {
    hide Outgoing, ParsedOptions, Low32, NextSequenceNumber;
  }

  /** A run of an honest peer that can no longer finish: five resends use up the timer, and the peer's FIN, all there
      is of an empty stream, is answered without a frame to give. */
  lemma {:induction false} UnansweredCannotFinish(p: Peer, port: Port) returns (events: seq<Event>)
    requires p.Valid() && p.stream == []
    ensures var c := Listened(Fresh(port));
            && Continues(true, p, c, [], events, 0) && Run(c, events).status == FinSent
            && forall all :: !Finishes(true, p, c, events, all)
  {
    hide Run, EnvironmentRun, Opened, Live, FromEnvironment, Apply, Acknowledgeable, AcknowledgesSent, Possible, Listened,
         OnlySyn, Finishable;
    var c := Listened(Fresh(port));
    OpenedListening(p, port);
    NothingYet(p, c);
    SynFirst(p, port, true);
    var syn := Bare(Seen(p, c.localPort), true, false, p.initialSequenceNumber, 0);
    events := Extend(true, p, c, [], [], Deliver(syn, 0, true, true), 0);
    SynSentCovers(Run(c, events));
    events := Resends(p, c, events, RETRY_LIMIT);
    RunsLive(p, c, events);
    FinishUnanswered(p, Run(c, events));
    events := Extend(true, p, c, [], events, Deliver(Piece(p, Run(c, events).localPort, 0, 1), 0, false, false), 0);
    CanFinishIff(true, p, c, events);
  }

  lemma UnsentEstablishes(p: Peer, c: Tcb)
    requires p.Valid() && Live(p, c) && c.status == SynReceived && c.transmitted == [] && c.remoteAcknowledgment == 0
    ensures var e := Deliver(Bare(Seen(p, c.localPort), false, false, p.Base(), 0), 0, true, true);
            var r := Apply(c, e);
            && FromEnvironment(p, c, e) && Possible(e, 0) && AcknowledgesSent(true, p, c, e)
            && r.status == Established && !Finishable(true, p, r)
  {
    BareIsSlice(p, c.localPort, 0, 0);
    hide Outgoing, Low32, IsSlice;
  }

  /** Another one, for every stream: our SYN found no frame, and a segment that acknowledged nothing established the
      connection all the same. */
  lemma {:induction false} UnsentCannotFinish(p: Peer, port: Port) returns (events: seq<Event>)
    requires p.Valid()
    ensures var c := Listened(Fresh(port));
            && Continues(true, p, c, [], events, 0) && Run(c, events).status == Established
            && forall all :: !Finishes(true, p, c, events, all)
  {
    hide Run, EnvironmentRun, Opened, Live, FromEnvironment, Apply, Acknowledgeable, AcknowledgesSent, Possible, Listened,
         OnlySyn, Finishable;
    var c := Listened(Fresh(port));
    OpenedListening(p, port);
    NothingYet(p, c);
    SynFirst(p, port, false);
    var syn := Bare(Seen(p, c.localPort), true, false, p.initialSequenceNumber, 0);
    events := Extend(true, p, c, [], [], Deliver(syn, 0, false, false), 0);
    RunsLive(p, c, events);
    UnsentEstablishes(p, Run(c, events));
    var a := Bare(Seen(p, Run(c, events).localPort), false, false, p.Base(), 0);
    events := Extend(true, p, c, [], events, Deliver(a, 0, true, true), 0);
    CanFinishIff(true, p, c, events);
  }
}

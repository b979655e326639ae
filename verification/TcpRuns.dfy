/** What every run of a connection keeps: its phases, its sequence numbers, and its retries. */
module TcpRuns {
  import opened Addresses
  import opened Bytes
  import opened Tcp
  import opened TcpLife

  // ---------------------------------------------------------------------------
  // Phases
  // ---------------------------------------------------------------------------

  // The local sequence number counts our SYN and our FIN as the peer acknowledges them.
  predicate InPhase(c: Tcb) {
    match c.status
    case Closed | Listen => true
    case SynSent | SynReceived => c.localSequenceNumber == 0
    case Established | FinSent => c.localSequenceNumber == 1
    case WaitingForRemoteToFinish | TimedClose | Finished => c.localSequenceNumber == 2
  }

  predicate GoodNumbers(t: Sent) {
    && (t.synchronize ==> t.sequenceNumber == 0 && !t.finish)
    && (t.finish ==> t.sequenceNumber == 1 && t.acknowledgment)
  }

  // The segments from number `from` on carry the numbers of their phases; a FIN is among them
  // only if the remote acknowledgment is positive.
  ghost predicate PhaseInvariant(c: Tcb, from: nat) {
    && InPhase(c)
    && (forall i | from <= i < |c.transmitted| :: GoodNumbers(c.transmitted[i]))
    && (forall i | from <= i < |c.transmitted| && c.transmitted[i].finish :: c.remoteAcknowledgment >= 1)
  }

  // A segment after which the connection is half open.
  predicate HalfOpens(c: Tcb, s: Segment) {
    match c.status
    case Listen => !s.reset && s.synchronize && !s.acknowledgment
    case SynSent => FromRemote(c, s) && !s.reset && s.synchronize && !s.acknowledgment
    case SynReceived => !FromRemote(c, s) || (!s.reset && s.synchronize)
    case _ => false
  }

  // A half-open connection is closed: by its owner, or by the dispatcher because the remote finished already.
  predicate ClosesTooEarly(c: Tcb, e: Event) {
    match e
    case CallClose(_, _) => c.status == SynReceived
    case Deliver(s, _, _, _) => s.destinationPort == c.localPort && c.remoteFinished && HalfOpens(c, s)
    case _ => false
  }

  lemma {:induction false} HalfOpensIff(c: Tcb, s: Segment, now: nat, frame: bool)
    ensures Received(c, s, now, frame).status == SynReceived <==> HalfOpens(c, s)
    ensures HalfOpens(c, s) ==> Received(c, s, now, frame).remoteFinished == c.remoteFinished
  {
    hide ParsedOptions, Outgoing, ReceivedData;
    DataKeepsPeer(Acknowledged(WithHeader(c, s), s, now), s, OptionsOf(c, s).end, now, frame);
  }

  lemma TransmitInPhase(c: Tcb, from: nat, now: nat, frame: bool)
    requires PhaseInvariant(c, from) && c.status != Closed && c.status != Listen
    ensures PhaseInvariant(Transmit(c, now, frame), from)
  {
    assert Low32(0) == 0 && Low32(1) == 1;
    hide Low32;
  }

  lemma SynInPhase(c: Tcb, from: nat, s: Segment, now: nat, frame: bool)
    requires PhaseInvariant(c, from)
    ensures PhaseInvariant(ReceivedSyn(c, s, now, frame), from)
  {
    assert Low32(0) == 0 && Low32(1) == 1;
    hide Low32;
  }

  lemma AcknowledgedInPhase(c: Tcb, from: nat, s: Segment, now: nat)
    requires PhaseInvariant(c, from) && c.status !in {Closed, Listen, SynSent}
    ensures PhaseInvariant(Acknowledged(c, s, now), from)
    ensures Acknowledged(c, s, now).status !in {Closed, Listen, SynSent, SynReceived}
  {
    hide Low32;
  }

  lemma DataInPhase(c: Tcb, from: nat, s: Segment, end: nat, now: nat, frame: bool)
    requires PhaseInvariant(c, from) && c.status !in {Closed, Listen, SynSent, SynReceived}
    ensures PhaseInvariant(ReceivedData(c, s, end, now, frame), from)
  {
    var c1 := if s.finish then FinishAccepted(c, now) else c;
    TransmitInPhase(Stored(c1, s, end), from, now, frame);
    hide Copied, Transmit, NextSequenceNumber;
  }

  lemma ReceivedInPhase(c: Tcb, from: nat, s: Segment, now: nat, frame: bool)
    requires PhaseInvariant(c, from)
    ensures PhaseInvariant(Received(c, s, now, frame), from)
  {
    hide ReceivedSyn, Acknowledged, ReceivedData, ParsedOptions;
    var c1 := WithHeader(c, s);
    SynInPhase(c1, from, s, now, frame);
    if c.status !in {Closed, Listen, SynSent} {
      AcknowledgedInPhase(c1, from, s, now);
      DataInPhase(Acknowledged(c1, s, now), from, s, OptionsOf(c, s).end, now, frame);
    }
  }

  lemma ClosedInPhase(c: Tcb, from: nat, now: nat, frame: bool)
    requires PhaseInvariant(c, from)
    ensures PhaseInvariant(ClosedBy(c, now, frame), from) <==> c.status != SynReceived
  {
  }

  /** One step keeps the phases if and only if it does not close a half-open connection. */
  lemma {:induction false} StepInPhaseIff(c: Tcb, from: nat, e: Event)
    requires PhaseInvariant(c, from)
    ensures PhaseInvariant(Apply(c, e), from) <==> !ClosesTooEarly(c, e)
  {
    hide Received, HalfOpens, Transmit, ClosedBy;
    match e {
      case Deliver(s, now, frame, closeFrame) =>
        HalfOpensIff(c, s, now, frame);
        ReceivedInPhase(c, from, s, now, frame);
        ClosedInPhase(Received(c, s, now, frame), from, now, closeFrame);
      case CallClose(now, frame) =>
        ClosedInPhase(c, from, now, frame);
      case Tick(now, frame) =>
        if c.status != Closed && c.status != Listen {
          TransmitInPhase(c.(retryCounter := (c.retryCounter + 1) % 0x100), from, now, frame);
        }
      case CallConnect(address, port, now, frame) =>
        TransmitInPhase(c.(remoteAddress := address, remotePort := port, localSequenceNumber := 0, status := SynSent),
                        from, now, frame);
      case _ =>
    }
  }

  ghost predicate NeverClosesTooEarly(c: Tcb, events: seq<Event>) {
    forall i | 0 <= i < |events| :: !ClosesTooEarly(Run(c, events[..i]), events[i])
  }

  lemma NeverEarlyFront(c: Tcb, events: seq<Event>, n: nat)
    requires NeverClosesTooEarly(c, events) && n <= |events|
    ensures NeverClosesTooEarly(c, events[..n])
    ensures n < |events| ==> !ClosesTooEarly(Run(c, events[..n]), events[n])
  {
    assert forall i | 0 <= i < n :: events[..n][..i] == events[..i];
  }

  lemma {:induction false} RunsKeepPhase(c: Tcb, from: nat, events: seq<Event>)
    requires PhaseInvariant(c, from) && NeverClosesTooEarly(c, events)
    ensures PhaseInvariant(Run(c, events), from)
  {
    hide PhaseInvariant, Apply;
    if events != [] {
      var n := |events| - 1;
      NeverEarlyFront(c, events, n);
      RunsKeepPhase(c, from, events[..n]);
      StepInPhaseIff(Run(c, events[..n]), from, events[n]);
    }
  }

  /** Over every run that never closes a half-open connection, reopened or not, each SYN carries sequence
      number 0, and each FIN carries 1 and goes out only while the remote acknowledgment is positive. */
  lemma {:induction false} RunsInPhase(port: Port, events: seq<Event>)
    requires NeverClosesTooEarly(Fresh(port), events)
    ensures PhaseInvariant(Run(Fresh(port), events), 0)
  {
    RunsKeepPhase(Fresh(port), 0, events);
  }

  /** The condition is needed: a connection that listens, gets a SYN and is closed sends its FIN as number 0. */
  lemma {:induction false} EarlyCloseSendsZero(port: Port, address: Ipv6Address, remotePort: Port)
    returns (events: seq<Event>)
    ensures !NeverClosesTooEarly(Fresh(port), events)
    ensures var sent := Run(Fresh(port), events).transmitted;
            sent != [] && sent[|sent| - 1].finish && sent[|sent| - 1].sequenceNumber == 0
  {
    var peer := Fresh(port).(remoteAddress := address, remotePort := remotePort);
    var e0, e1, e2 := CallListen(0), Deliver(Bare(peer, true, false, 0, 0), 0, true, true), CallClose(0, true);
    events := [e0, e1, e2];
    RunOfThree(Fresh(port), e0, e1, e2);
    hide Run;
    var c1 := Apply(Fresh(port), e0);
    var c2 := Apply(c1, e1);
    assert Low32(0) == 0;
    assert c2.status == SynReceived && c2.localSequenceNumber == 0 && c2.remoteAcknowledgment == 0;
    assert ClosesTooEarly(Run(Fresh(port), events[..2]), events[2]);
  }

  // ---------------------------------------------------------------------------
  // A FIN follows the acknowledgment of our SYN
  // ---------------------------------------------------------------------------

  predicate ToRemote(c: Tcb, t: Sent) {
    t.destinationAddress == c.remoteAddress && t.destinationPort == c.remotePort
  }

  // From c to r segments were only added; they go to the peer, and a FIN leaves the connection in FinSent.
  ghost predicate Sends(c: Tcb, r: Tcb) {
    && |c.transmitted| <= |r.transmitted| && r.transmitted[..|c.transmitted|] == c.transmitted
    && (forall i | |c.transmitted| <= i < |r.transmitted| ::
          ToRemote(r, r.transmitted[i]) && (r.transmitted[i].finish ==> r.status == FinSent))
    && (c.status == Listen && r.status == Listen ==>
          r.transmitted == c.transmitted && r.remoteAcknowledgment == c.remoteAcknowledgment)
  }

  lemma StepSends(c: Tcb, e: Event)
    requires !Reopens(c, e)
    ensures Sends(c, Apply(c, e))
  {
    hide Received, ClosedBy, Low32;
    match e
    case Deliver(s, now, frame, closeFrame) =>
      ReceivedSends(c, s, now, frame);
      CloseSends(c, Received(c, s, now, frame), now, closeFrame);
    case CallClose(now, frame) =>
      CloseSends(c, c, now, frame);
    case _ =>
  }

  lemma CloseSends(c: Tcb, r: Tcb, now: nat, frame: bool)
    requires Sends(c, r)
    ensures Sends(c, ClosedBy(r, now, frame))
  {
    hide Low32, SynOptions, WindowField;
  }

  lemma ReceivedSends(c: Tcb, s: Segment, now: nat, frame: bool)
    ensures Sends(c, Received(c, s, now, frame))
  {
    hide ParsedOptions, Outgoing, ReceivedSyn, ReceivedData;
    var c1 := WithHeader(c, s);
    SynSends(c1, s, now, frame);
    if c.status != Listen {
      DataSends(Acknowledged(c1, s, now), s, OptionsOf(c, s).end, now, frame);
    }
  }

  lemma SynSends(c: Tcb, s: Segment, now: nat, frame: bool)
    ensures Sends(c, ReceivedSyn(c, s, now, frame))
  {
    hide Low32;
  }

  lemma DataSends(c: Tcb, s: Segment, end: nat, now: nat, frame: bool)
    requires c.status != Listen
    ensures Sends(c, ReceivedData(c, s, end, now, frame))
  {
    hide Low32, Copied, NextSequenceNumber;
  }

  // The event delivers a segment of the peer with a positive acknowledgment number to an open connection.
  predicate Acknowledges(c: Tcb, e: Event) {
    c.status !in {Closed, Listen} && e.Deliver? && FromRemote(c, e.segment) && e.segment.destinationPort == c.localPort
    && e.segment.acknowledgmentNumber >= 1
  }

  lemma RemoteAcknowledgmentStep(c: Tcb, e: Event)
    ensures Apply(c, e).remoteAcknowledgment == c.remoteAcknowledgment
         || (Acknowledges(c, e) && Apply(c, e).remoteAcknowledgment == e.segment.acknowledgmentNumber)
  {
    hide Outgoing, Received;
    if e.Deliver? {
      AcknowledgmentOfReceived(c, e.segment, e.now, e.frame);
    }
  }

  lemma AcknowledgmentOfReceived(c: Tcb, s: Segment, now: nat, frame: bool)
    ensures var n := Received(c, s, now, frame).remoteAcknowledgment;
            (n == c.remoteAcknowledgment
             || (n == s.acknowledgmentNumber > c.remoteAcknowledgment
                 && FromRemote(c, s) && c.status !in {Closed, Listen}))
  {
    hide ParsedOptions, ReceivedData, ReceivedSyn;
    var c1 := WithHeader(c, s);
    AcknowledgmentOfSyn(c1, s, now, frame);
    AcknowledgmentOfData(Acknowledged(c1, s, now), s, OptionsOf(c, s).end, now, frame);
  }

  lemma AcknowledgmentOfSyn(c: Tcb, s: Segment, now: nat, frame: bool)
    ensures ReceivedSyn(c, s, now, frame).remoteAcknowledgment == c.remoteAcknowledgment
  {
  }

  lemma AcknowledgmentOfData(c: Tcb, s: Segment, end: nat, now: nat, frame: bool)
    ensures ReceivedData(c, s, end, now, frame).remoteAcknowledgment == c.remoteAcknowledgment
  {
  }

  predicate Unopened(status: Status) {
    status in {Closed, Listen, SynSent}
  }

  // With a stale FIN accepted, only a SYN that acknowledges ours opens the connection without closing it too early.
  lemma StaleFinishOpens(c: Tcb, e: Event)
    requires c.remoteFinished && Unopened(c.status) && !Reopens(c, e) && !ClosesTooEarly(c, e)
    ensures Apply(c, e).remoteFinished && (Unopened(Apply(c, e).status) || Acknowledges(c, e))
  {
    hide ParsedOptions, Outgoing, Acknowledged, ReceivedData;
  }

  lemma FinishStays(c: Tcb, e: Event)
    requires c.remoteFinished
    ensures Apply(c, e).remoteFinished
  {
    hide Outgoing, Received;
    if e.Deliver? {
      FinishStaysReceived(c, e.segment, e.now, e.frame);
    }
  }

  lemma FinishStaysReceived(c: Tcb, s: Segment, now: nat, frame: bool)
    requires c.remoteFinished
    ensures Received(c, s, now, frame).remoteFinished
  {
    hide ParsedOptions, Outgoing, ReceivedData;
    FinishStaysData(Acknowledged(WithHeader(c, s), s, now), s, OptionsOf(c, s).end, now, frame);
  }

  lemma FinishStaysData(c: Tcb, s: Segment, end: nat, now: nat, frame: bool)
    requires c.remoteFinished
    ensures ReceivedData(c, s, end, now, frame).remoteFinished
  {
    hide Outgoing, Copied, NextSequenceNumber;
  }

  // Event j acknowledges our SYN: it comes from the peer the connection still has after all the events.
  ghost predicate SynAcknowledgedAt(c: Tcb, events: seq<Event>, j: int) {
    && 0 <= j < |events|
    && Acknowledges(Run(c, events[..j]), events[j])
    && FromRemote(Run(c, events), events[j].segment)
  }

  ghost predicate SynAcknowledged(c: Tcb, events: seq<Event>) {
    exists j :: SynAcknowledgedAt(c, events, j)
  }

  ghost predicate NoneAcknowledges(c: Tcb, events: seq<Event>) {
    forall j | 0 <= j < |events| :: !Acknowledges(Run(c, events[..j]), events[j])
  }

  ghost predicate SentFinish(c: Tcb, events: seq<Event>, i: int) {
    var sent := Run(c, events).transmitted;
    |c.transmitted| <= i < |sent| && sent[i].finish
  }

  ghost predicate LifeInvariant(c: Tcb, events: seq<Event>) {
    var r := Run(c, events);
    && |c.transmitted| <= |r.transmitted|
    && (r.status == Listen ==>
          && |r.transmitted| == |c.transmitted|
          && r.remoteAcknowledgment == c.remoteAcknowledgment
          && NoneAcknowledges(c, events))
    && (forall i | |c.transmitted| <= i < |r.transmitted| :: ToRemote(r, r.transmitted[i]))
    && (r.remoteAcknowledgment != c.remoteAcknowledgment ==> SynAcknowledged(c, events))
    && (c.remoteFinished ==>
          && r.remoteFinished
          && (!Unopened(r.status) ==> SynAcknowledged(c, events))
          && (forall i :: SentFinish(c, events, i) ==> SynAcknowledged(c, events)))
  }

  lemma AcknowledgedExtends(c: Tcb, events: seq<Event>, e: Event)
    requires !Reopens(Run(c, events), e) && Run(c, events).status != Listen
    requires SynAcknowledged(c, events)
    ensures SynAcknowledged(c, events + [e])
  {
    hide Apply, Reopens;
    RunExtends(c, events, e);
    StepKeepsPeer(Run(c, events), e);
    var j :| SynAcknowledgedAt(c, events, j);
    assert (events + [e])[..j] == events[..j];
    assert SynAcknowledgedAt(c, events + [e], j);
  }

  lemma AcknowledgedNow(c: Tcb, events: seq<Event>, e: Event)
    requires !Reopens(Run(c, events), e) && Run(c, events).status != Listen
    requires Acknowledges(Run(c, events), e)
    ensures SynAcknowledged(c, events + [e])
  {
    hide Apply, Reopens;
    RunExtends(c, events, e);
    StepKeepsPeer(Run(c, events), e);
    assert (events + [e])[..|events|] == events;
    assert SynAcknowledgedAt(c, events + [e], |events|);
  }

  lemma {:induction false} LifeStep(c: Tcb, events: seq<Event>, e: Event)
    requires LifeInvariant(c, events)
    requires !Reopens(Run(c, events), e) && !ClosesTooEarly(Run(c, events), e)
    ensures LifeInvariant(c, events + [e])
  {
    hide Apply, Reopens, ClosesTooEarly, Acknowledges, NoneAcknowledges, SynAcknowledged;
    var all, before, after := events + [e], Run(c, events), Run(c, events + [e]);
    RunExtends(c, events, e);
    StepSends(before, e);
    StepKeepsPeer(before, e);
    RemoteAcknowledgmentStep(before, e);
    if before.status == Listen {
      ListenAcknowledgesNothing(c, events, e);
    } else {
      if SynAcknowledged(c, events) {
        AcknowledgedExtends(c, events, e);
      }
      if Acknowledges(before, e) {
        AcknowledgedNow(c, events, e);
      }
    }
    if c.remoteFinished {
      StaleStep(c, events, e);
    }
  }

  lemma ListenAcknowledgesNothing(c: Tcb, events: seq<Event>, e: Event)
    requires Run(c, events).status == Listen && NoneAcknowledges(c, events)
    ensures !Acknowledges(Run(c, events), e) && !SynAcknowledged(c, events) && NoneAcknowledges(c, events + [e])
  {
    var all := events + [e];
    assert all[..|events|] == events;
    assert forall j | 0 <= j < |events| :: all[..j] == events[..j];
  }

  lemma StaleStep(c: Tcb, events: seq<Event>, e: Event)
    requires LifeInvariant(c, events) && c.remoteFinished
    requires !Reopens(Run(c, events), e) && !ClosesTooEarly(Run(c, events), e)
    ensures Run(c, events + [e]).remoteFinished
    ensures !Unopened(Run(c, events + [e]).status) ==> SynAcknowledged(c, events + [e])
    ensures forall i :: SentFinish(c, events + [e], i) ==> SynAcknowledged(c, events + [e])
  {
    hide Apply, Reopens, ClosesTooEarly, Acknowledges, NoneAcknowledges, SynAcknowledged;
    var before, after := Run(c, events), Run(c, events + [e]);
    RunExtends(c, events, e);
    StepSends(before, e);
    FinishStays(before, e);
    if Unopened(before.status) {
      StaleFinishOpens(before, e);
    }
    if before.status == Listen {
      ListenAcknowledgesNothing(c, events, e);
    } else {
      if SynAcknowledged(c, events) {
        AcknowledgedExtends(c, events, e);
      }
      if Acknowledges(before, e) {
        AcknowledgedNow(c, events, e);
      }
    }
    forall i | SentFinish(c, events + [e], i) ensures SynAcknowledged(c, events + [e]) {
      if i < |before.transmitted| {
        assert after.transmitted[i] == before.transmitted[i];
        assert SentFinish(c, events, i);
      }
    }
  }

  lemma {:induction false} LifeKeeps(c: Tcb, events: seq<Event>)
    requires JustOpened(c) && OneLife(c, events) && NeverClosesTooEarly(c, events)
    ensures LifeInvariant(c, events)
  {
    hide Apply, LifeInvariant;
    if events == [] {
      LifeStarts(c);
    } else {
      var n := |events| - 1;
      OneLifeFront(c, events, n);
      NeverEarlyFront(c, events, n);
      LifeKeeps(c, events[..n]);
      LifeStep(c, events[..n], events[n]);
      assert events == events[..n] + [events[n]];
    }
  }

  lemma LifeStarts(c: Tcb)
    requires JustOpened(c)
    ensures LifeInvariant(c, [])
  {
  }

  // Event k sends segment i.
  ghost predicate SentAt(c: Tcb, events: seq<Event>, i: int, k: int) {
    0 <= k < |events| && |Run(c, events[..k]).transmitted| <= i < |Run(c, events[..k + 1]).transmitted|
  }

  lemma {:induction false} SentWhen(c: Tcb, events: seq<Event>, i: nat) returns (k: nat)
    requires OneLife(c, events) && |c.transmitted| <= i < |Run(c, events).transmitted|
    ensures SentAt(c, events, i, k)
    ensures Run(c, events[..k + 1]).transmitted[i] == Run(c, events).transmitted[i]
  {
    hide Apply, Reopens;
    var n := |events| - 1;
    var before := Run(c, events[..n]);
    OneLifeFront(c, events, n);
    StepSends(before, events[n]);
    assert events[..n + 1] == events;
    if i < |before.transmitted| {
      k := SentWhen(c, events[..n], i);
      assert events[..n][..k] == events[..k] && events[..n][..k + 1] == events[..k + 1];
      assert Run(c, events).transmitted[i] == before.transmitted[i];
    } else {
      k := n;
    }
  }

  // Event j acknowledges our SYN, no later than event k sends segment i, and it comes from where the segment goes.
  ghost predicate FollowsAcknowledgment(c: Tcb, events: seq<Event>, i: int, j: int, k: int) {
    && SentAt(c, events, i, k) && j <= k
    && SynAcknowledgedAt(c, events[..k + 1], j)
    && 0 <= i < |Run(c, events).transmitted|
    && Run(c, events).transmitted[i].destinationAddress == events[j].segment.sourceAddress
    && Run(c, events).transmitted[i].destinationPort == events[j].segment.sourcePort
  }

  /** In one life of a connection, opened with no acknowledgment left over, a FIN is sent no earlier than
      the peer it goes to acknowledged our SYN. */
  lemma {:induction false} FinishFollowsAcknowledgedSyn(c: Tcb, events: seq<Event>, i: nat) returns (j: nat, k: nat)
    requires JustOpened(c) && (c.remoteAcknowledgment == 0 || c.remoteFinished)
    requires OneLife(c, events) && NeverClosesTooEarly(c, events) && SentFinish(c, events, i)
    ensures FollowsAcknowledgment(c, events, i, j, k)
  {
    hide Apply, Reopens, ClosesTooEarly, Acknowledges, NoneAcknowledges;
    k := SentWhen(c, events, i);
    var front := events[..k + 1];
    OneLifeFront(c, events, k + 1);
    NeverEarlyFront(c, events, k + 1);
    LifeKeeps(c, front);
    RunsKeepPhase(c, |c.transmitted|, front);
    assert SentFinish(c, front, i);
    j :| SynAcknowledgedAt(c, front, j);
    assert ToRemote(Run(c, front), Run(c, front).transmitted[i]);
  }

  ghost predicate FinishesInLife(c: Tcb, events: seq<Event>, i: int) {
    OneLife(c, events) && NeverClosesTooEarly(c, events) && SentFinish(c, events, i)
  }

  // A connection opened with an acknowledgment left over sends a FIN that nobody's acknowledgment preceded.
  lemma StaleAcknowledgmentRun(c: Tcb) returns (events: seq<Event>, i: nat)
    requires JustOpened(c) && c.remoteAcknowledgment >= 1 && !c.remoteFinished
    ensures FinishesInLife(c, events, i) && NoneAcknowledges(c, events)
  {
    hide Received;
    var e0 := Deliver(Bare(c, true, false, 0, 0), 0, false, false);
    var e1 := Deliver(Bare(c, false, false, 0, 0), 0, false, false);
    var e2 := CallClose(0, true);
    events := [e0, e1, e2];
    RunOfThree(c, e0, e1, e2);
    BareSynHalfOpens(c);
    var c1 := Apply(c, e0);
    assert Bare(c1, false, false, 0, 0) == Bare(c, false, false, 0, 0);
    BareEstablishes(c1, 0);
    hide Run;
    var c2 := Apply(c1, e1);
    var c3 := Apply(c2, e2);
    i := |c.transmitted|;
    assert c3.transmitted[i].finish;
  }

  lemma NoneAcknowledgedBefore(c: Tcb, events: seq<Event>, j: int, n: nat)
    requires NoneAcknowledges(c, events) && n <= |events|
    ensures !SynAcknowledgedAt(c, events[..n], j)
  {
    hide Run, Acknowledges;
    if 0 <= j < n {
      assert events[..n][..j] == events[..j];
      assert !Acknowledges(Run(c, events[..j]), events[j]);
    }
  }

  /** Such an opening call happens: a connection established, reset and opened again keeps the acknowledgment. */
  lemma {:induction false} StaleAcknowledgmentReachable(port: Port) returns (events: seq<Event>)
    ensures var r := Run(Fresh(port), events);
            JustOpened(r) && r.remoteAcknowledgment == 1 && !r.remoteFinished
  {
    var c1 := Listened(Fresh(port));
    var e1 := Deliver(Bare(c1, true, false, 0, 0), 0, false, false);
    var e2 := Deliver(Bare(c1, false, false, 0, 1), 0, false, false);
    var e3 := Deliver(Bare(c1, false, false, 0, 0).(reset := true), 0, false, false);
    BareSynHalfOpens(c1);
    var c2 := Apply(c1, e1);
    assert Bare(c2, false, false, 0, 1) == Bare(c1, false, false, 0, 1);
    BareEstablishes(c2, 1);
    var c3 := Apply(c2, e2);
    hide Low32;
    var c4 := Apply(c3, e3);
    hide Run, Received;
    events := [CallListen(0)] + [e1] + [e2] + [e3] + [CallListen(0)];
    RunOfNothing(Fresh(port));
    RunExtends(Fresh(port), [], CallListen(0));
    RunExtends(Fresh(port), [CallListen(0)], e1);
    RunExtends(Fresh(port), [CallListen(0)] + [e1], e2);
    RunExtends(Fresh(port), [CallListen(0)] + [e1] + [e2], e3);
    RunExtends(Fresh(port), [CallListen(0)] + [e1] + [e2] + [e3], CallListen(0));
    assert [] + [CallListen(0)] == [CallListen(0)];
  }

  /** In the lives that never close too early, every FIN follows the acknowledgment of our SYN if and only if
      the opening call found no remote acknowledgment left over, or found the remote finished. */
  lemma {:induction false} AcknowledgedSynIff(c: Tcb)
    requires JustOpened(c)
    ensures (forall events, i: nat | FinishesInLife(c, events, i) ::
               exists j, k :: FollowsAcknowledgment(c, events, i, j, k))
            <==> c.remoteAcknowledgment == 0 || c.remoteFinished
  {
    hide Apply, Acknowledges, OneLife, NeverClosesTooEarly, SentFinish;
    if c.remoteAcknowledgment == 0 || c.remoteFinished {
      forall events, i: nat | FinishesInLife(c, events, i)
        ensures exists j, k :: FollowsAcknowledgment(c, events, i, j, k)
      {
        var j, k := FinishFollowsAcknowledgedSyn(c, events, i);
      }
    } else {
      var events, i := StaleAcknowledgmentRun(c);
      forall j, k ensures !FollowsAcknowledgment(c, events, i, j, k) {
        if 0 <= k < |events| {
          NoneAcknowledgedBefore(c, events, j, k + 1);
        }
      }
    }
  }

  /** So in the life an opening call begins every FIN follows the acknowledgment of our SYN if and only if the
      connection had received no acknowledgment before the call, or had accepted a FIN. */
  lemma {:induction false} ReopeningAcknowledgesIff(c: Tcb, e: Event)
    requires Reopens(c, e)
    ensures (forall events, i: nat | FinishesInLife(Apply(c, e), events, i) ::
               exists j, k :: FollowsAcknowledgment(Apply(c, e), events, i, j, k))
            <==> c.remoteAcknowledgment == 0 || c.remoteFinished
  {
    OpeningCallOpens(c, e);
    AcknowledgedSynIff(Apply(c, e));
    hide Apply, FinishesInLife, FollowsAcknowledgment;
  }

  // ---------------------------------------------------------------------------
  // Retransmission
  // ---------------------------------------------------------------------------

  // How many ticks of the run sent a segment.
  function Resends(c: Tcb, events: seq<Event>): nat {
    if events == [] then 0
    else
      var n := |events| - 1;
      var before := Run(c, events[..n]);
      Resends(c, events[..n])
      + if events[n].Tick? && Apply(before, events[n]).transmitted != before.transmitted then 1 else 0
  }

  lemma StepCountsRetries(c: Tcb, e: Event)
    requires !Reopens(c, e) && (c.retryCounter <= RETRY_LIMIT || c.status == Closed)
    ensures var r := Apply(c, e);
            && (r.retryCounter <= RETRY_LIMIT || r.status == Closed)
            && (c.status == Closed ==> r == c)
            && r.retryCounter >= c.retryCounter
            && (e.Tick? && r.transmitted != c.transmitted ==>
                  r.status != Closed && r.retryCounter == c.retryCounter + 1)
  {
    hide Received, Outgoing;
    if e.Deliver? {
      ReceivedKeepsCounter(c, e.segment, e.now, e.frame);
    }
  }

  lemma ReceivedKeepsCounter(c: Tcb, s: Segment, now: nat, frame: bool)
    ensures Received(c, s, now, frame).retryCounter == c.retryCounter
    ensures c.status == Closed ==> Received(c, s, now, frame) == c
  {
    hide Outgoing, ParsedOptions, Acknowledged, ReceivedSyn, ReceivedData;
    var c1 := WithHeader(c, s);
    OpeningKeepsCounter(c1, s, now, frame);
    DataKeepsCounter(Acknowledged(c1, s, now), s, OptionsOf(c, s).end, now, frame);
  }

  lemma OpeningKeepsCounter(c: Tcb, s: Segment, now: nat, frame: bool)
    ensures Acknowledged(c, s, now).retryCounter == c.retryCounter
    ensures ReceivedSyn(c, s, now, frame).retryCounter == c.retryCounter
  {
    hide Outgoing;
  }

  lemma DataKeepsCounter(c: Tcb, s: Segment, from: nat, now: nat, frame: bool)
    ensures ReceivedData(c, s, from, now, frame).retryCounter == c.retryCounter
  {
    hide Outgoing, Copied, NextSequenceNumber;
  }

  /** The retry counter is never reset: whatever arrives, the timer resends at most five times in the life of a
      connection, less what earlier lives used up. */
  lemma {:induction false} AtMostFiveResends(c: Tcb, events: seq<Event>)
    requires c.retryCounter <= RETRY_LIMIT && OneLife(c, events)
    ensures var r := Run(c, events);
            && c.retryCounter + Resends(c, events) <= RETRY_LIMIT
            && c.retryCounter + Resends(c, events) <= r.retryCounter
            && (r.retryCounter <= RETRY_LIMIT || r.status == Closed)
  {
    hide Apply, Reopens;
    if events != [] {
      var n := |events| - 1;
      OneLifeFront(c, events, n);
      AtMostFiveResends(c, events[..n]);
      StepCountsRetries(Run(c, events[..n]), events[n]);
    }
  }
}

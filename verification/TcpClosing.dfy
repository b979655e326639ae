/** How a connection closes: from both sides, in one life, and only after it waited. */
module TcpClosing {
  import opened Bytes
  import opened Tcp
  import opened TcpLife

  predicate Closing(status: Status) {
    status == WaitingForRemoteToFinish || status == TimedClose || status == Finished
  }

  // ---------------------------------------------------------------------------
  // One step
  // ---------------------------------------------------------------------------

  predicate FromPeer(c: Tcb, e: Event) {
    e.Deliver? && FromRemote(c, e.segment) && e.segment.destinationPort == c.localPort
    && c.status !in {Closed, Listen}
  }

  // The event brings the peer's FIN at exactly the next number expected.
  predicate BringsFinish(c: Tcb, e: Event) {
    FromPeer(c, e) && e.segment.finish && e.segment.sequenceNumber == c.localAcknowledgment
  }

  // The event acknowledges our FIN.
  predicate AcknowledgesFinish(c: Tcb, e: Event) {
    FromPeer(c, e) && c.status == FinSent && e.segment.acknowledgmentNumber == c.localSequenceNumber + 1
  }

  // What one step can do to the closing of a connection.
  ghost predicate ClosingStep(c: Tcb, e: Event, c': Tcb) {
    && (c.remoteFinished ==> c'.remoteFinished)
    && (c'.remoteFinished && !c.remoteFinished ==> BringsFinish(c, e))
    && (Closing(c'.status) && !Closing(c.status) ==> AcknowledgesFinish(c, e))
    && (c'.status == TimedClose && c.status != TimedClose ==>
          && c'.remoteFinished && c'.retryTimer == e.now + TIMER_PRECISION_SCALE
          && (AcknowledgesFinish(c, e) || BringsFinish(c, e)))
    && (c'.status == TimedClose && c.status == TimedClose ==>
          c'.retryTimer in {c.retryTimer, e.now + TIMER_PRECISION_SCALE})
    && (c'.status == Finished && c.status != Finished ==>
          c.status == TimedClose && e.Tick? && e.now >= c.retryTimer)
  }

  lemma StepCloses(c: Tcb, e: Event)
    ensures ClosingStep(c, e, Apply(c, e))
  {
    hide Received, Outgoing;
    if e.Deliver? && e.segment.destinationPort == c.localPort {
      ReceiveCloses(c, e.segment, e.now, e.frame, e.closeFrame);
    }
  }

  lemma ReceiveCloses(c: Tcb, s: Segment, now: nat, frame: bool, closeFrame: bool)
    requires s.destinationPort == c.localPort
    ensures ClosingStep(c, Deliver(s, now, frame, closeFrame), Received(c, s, now, frame))
  {
    hide ParsedOptions, ReceivedSyn, Acknowledged, ReceivedData;
    var c1 := WithHeader(c, s);
    SynCloses(c1, s, now, frame);
    AcknowledgeCloses(c1, s, now);
    DataCloses(Acknowledged(c1, s, now), s, OptionsOf(c, s).end, now, frame);
  }

  lemma SynCloses(c: Tcb, s: Segment, now: nat, frame: bool)
    ensures var r := ReceivedSyn(c, s, now, frame);
            && r.remoteFinished == c.remoteFinished
            && (r.status == c.status || r.status in {SynReceived, Established})
            && (Closing(c.status) ==> r == c)
  {
    hide Outgoing;
  }

  lemma AcknowledgeCloses(c: Tcb, s: Segment, now: nat)
    ensures var r := Acknowledged(c, s, now);
            && r.remoteFinished == c.remoteFinished && r.localAcknowledgment == c.localAcknowledgment
            && (Closing(c.status) ==> r.status == c.status && r.retryTimer == c.retryTimer)
            && (Closing(r.status) && !Closing(c.status) ==>
                  c.status == FinSent && s.acknowledgmentNumber == c.localSequenceNumber + 1 && r.status != Finished
                  && (r.status == TimedClose ==> c.remoteFinished && r.retryTimer == now + TIMER_PRECISION_SCALE))
  {
  }

  lemma DataCloses(c: Tcb, s: Segment, from: nat, now: nat, frame: bool)
    ensures var r := ReceivedData(c, s, from, now, frame);
            && (c.remoteFinished ==> r.remoteFinished)
            && (r.remoteFinished && !c.remoteFinished ==> s.finish && s.sequenceNumber == c.localAcknowledgment)
            && (r.status == c.status || (c.status == WaitingForRemoteToFinish && r.status == TimedClose
                                         && s.finish && s.sequenceNumber == c.localAcknowledgment
                                         && r.remoteFinished && r.retryTimer == now + TIMER_PRECISION_SCALE))
            && r.retryTimer in {c.retryTimer, now + TIMER_PRECISION_SCALE}
  {
    hide Outgoing, Copied;
  }

  // ---------------------------------------------------------------------------
  // One life
  // ---------------------------------------------------------------------------

  // Event f brings the FIN of the peer the connection still has after all the events, and it is accepted.
  ghost predicate AcceptsFinishAt(c: Tcb, events: seq<Event>, f: int) {
    && 0 <= f < |events| && BringsFinish(Run(c, events[..f]), events[f])
    && Run(c, events[..f + 1]).remoteFinished
    && FromRemote(Run(c, events), events[f].segment)
  }

  // Event a brings that peer's acknowledgment of our FIN.
  ghost predicate FinishAcknowledgedAt(c: Tcb, events: seq<Event>, a: int) {
    && 0 <= a < |events| && AcknowledgesFinish(Run(c, events[..a]), events[a])
    && FromRemote(Run(c, events), events[a].segment)
  }

  // Event i, which completes the exchange of FINs f and a, takes the connection into TimedClose.
  ghost predicate BothClosedAt(c: Tcb, events: seq<Event>, f: int, a: int, i: int) {
    && AcceptsFinishAt(c, events, f) && FinishAcknowledgedAt(c, events, a)
    && i == (if f < a then a else f)
    && Run(c, events[..i]).status != TimedClose
  }

  // From event i to the state before event j the connection is in TimedClose.
  ghost predicate StaysTimed(c: Tcb, events: seq<Event>, i: int, j: int) {
    0 <= i < j <= |events| && forall k | i < k <= j :: Run(c, events[..k]).status == TimedClose
  }

  ghost predicate TimeAdvances(events: seq<Event>) {
    forall i, j | 0 <= i <= j < |events| :: events[i].now <= events[j].now
  }

  // The timed close was entered at event i and lasts until the timer at least.
  ghost predicate TimerRuns(c: Tcb, events: seq<Event>, f: int, a: int, i: int, timer: nat) {
    && BothClosedAt(c, events, f, a, i) && StaysTimed(c, events, i, |events|)
    && timer >= events[i].now + TIMER_PRECISION_SCALE
  }

  // Both FINs, the wait of a second at least, and the timer event j that ends it.
  ghost predicate ClosedInOrder(c: Tcb, events: seq<Event>, f: int, a: int, i: int, j: int) {
    && BothClosedAt(c, events, f, a, i) && StaysTimed(c, events, i, j)
    && j < |events| && events[j].Tick? && Run(c, events[..j + 1]).status == Finished
    && events[j].now >= events[i].now + TIMER_PRECISION_SCALE
  }

  ghost predicate CloseInvariant(c: Tcb, events: seq<Event>) {
    var r := Run(c, events);
    && (r.status == Listen ==> !r.remoteFinished)
    && (r.remoteFinished ==> exists f :: AcceptsFinishAt(c, events, f))
    && (Closing(r.status) ==> exists a :: FinishAcknowledgedAt(c, events, a))
    && (r.status in {TimedClose, Finished} ==> r.remoteFinished)
    && (r.status == TimedClose ==> exists f, a, i :: TimerRuns(c, events, f, a, i, r.retryTimer))
    && (r.status == Finished ==> exists f, a, i, j :: ClosedInOrder(c, events, f, a, i, j))
  }

  // Events after Listen do not change what is known of the earlier ones.
  lemma HistoryExtends(c: Tcb, events: seq<Event>, e: Event)
    requires Run(c, events).status != Listen && !Reopens(Run(c, events), e)
    ensures forall f {:trigger AcceptsFinishAt(c, events, f)} ::
              AcceptsFinishAt(c, events, f) ==> AcceptsFinishAt(c, events + [e], f)
    ensures forall a {:trigger FinishAcknowledgedAt(c, events, a)} ::
              FinishAcknowledgedAt(c, events, a) ==> FinishAcknowledgedAt(c, events + [e], a)
    ensures forall f, a, i {:trigger BothClosedAt(c, events, f, a, i)} ::
              BothClosedAt(c, events, f, a, i) ==> BothClosedAt(c, events + [e], f, a, i)
  {
    hide Apply, Reopens;
    RunExtends(c, events, e);
    StepKeepsPeer(Run(c, events), e);
    var all := events + [e];
    assert forall i {:trigger events[i]} | 0 <= i < |events| ::
             all[..i] == events[..i] && all[..i + 1] == events[..i + 1];
  }

  lemma TimedExtends(c: Tcb, events: seq<Event>, e: Event, i: int, j: int)
    requires StaysTimed(c, events, i, j)
    ensures StaysTimed(c, events + [e], i, j)
    ensures j == |events| && Run(c, events + [e]).status == TimedClose ==> StaysTimed(c, events + [e], i, j + 1)
  {
    hide Run;
    var all := events + [e];
    forall k | i < k <= j ensures Run(c, all[..k]).status == TimedClose {
      assert all[..k] == events[..k];
    }
    assert all[..|all|] == all;
  }

  // What the step adds: the FIN accepted, or our FIN acknowledged.
  lemma StepAdds(c: Tcb, events: seq<Event>, e: Event)
    requires Run(c, events).status != Listen && !Reopens(Run(c, events), e)
    ensures BringsFinish(Run(c, events), e) && Run(c, events + [e]).remoteFinished ==>
              AcceptsFinishAt(c, events + [e], |events|)
    ensures AcknowledgesFinish(Run(c, events), e) ==> FinishAcknowledgedAt(c, events + [e], |events|)
  {
    hide Apply, Reopens;
    RunExtends(c, events, e);
    StepKeepsPeer(Run(c, events), e);
    var all := events + [e];
    assert all[..|events|] == events && all[..|all|] == all;
  }

  lemma {:induction false} CloseInvariantStep(c: Tcb, events: seq<Event>, e: Event)
    requires CloseInvariant(c, events) && TimeAdvances(events + [e]) && !Reopens(Run(c, events), e)
    ensures CloseInvariant(c, events + [e])
  {
    hide Apply, Reopens, BringsFinish, AcknowledgesFinish;
    var before, after := Run(c, events), Run(c, events + [e]);
    RunExtends(c, events, e);
    StepCloses(before, e);
    StepKeepsPeer(before, e);
    if before.status == Listen {
      ListenOnly(before, e);
    } else {
      HistoryExtends(c, events, e);
      StepAdds(c, events, e);
      if after.status == TimedClose {
        TimerStep(c, events, e);
      } else if after.status == Finished {
        WaitStep(c, events, e);
      }
    }
  }

  lemma ListenOnly(c: Tcb, e: Event)
    requires c.status == Listen
    ensures !BringsFinish(c, e) && !AcknowledgesFinish(c, e)
  {
  }

  lemma TimerStep(c: Tcb, events: seq<Event>, e: Event)
    requires CloseInvariant(c, events) && TimeAdvances(events + [e])
    requires Run(c, events).status != Listen && !Reopens(Run(c, events), e)
    requires Run(c, events + [e]).status == TimedClose
    ensures exists f, a, i :: TimerRuns(c, events + [e], f, a, i, Run(c, events + [e]).retryTimer)
  {
    hide Apply, Reopens, BringsFinish, AcknowledgesFinish, AcceptsFinishAt, FinishAcknowledgedAt;
    var all, n := events + [e], |events|;
    var before, after := Run(c, events), Run(c, all);
    assert all[..n] == events && all[..n + 1] == all;
    RunExtends(c, events, e);
    StepCloses(before, e);
    HistoryExtends(c, events, e);
    if before.status == TimedClose {
      var f, a, i :| TimerRuns(c, events, f, a, i, before.retryTimer);
      TimedExtends(c, events, e, i, n);
      assert all[i].now <= all[n].now;
      assert TimerRuns(c, all, f, a, i, after.retryTimer);
    } else {
      var f, a := Completes(c, events, e);
      assert TimerRuns(c, all, f, a, n, after.retryTimer);
    }
  }

  // The event that enters TimedClose brings the later of the two.
  lemma Completes(c: Tcb, events: seq<Event>, e: Event) returns (f: nat, a: nat)
    requires CloseInvariant(c, events)
    requires Run(c, events).status !in {Listen, TimedClose} && !Reopens(Run(c, events), e)
    requires Run(c, events + [e]).status == TimedClose
    ensures BothClosedAt(c, events + [e], f, a, |events|)
  {
    hide Apply, Reopens, BringsFinish, AcknowledgesFinish;
    var n, before := |events|, Run(c, events);
    assert (events + [e])[..n] == events;
    RunExtends(c, events, e);
    StepCloses(before, e);
    HistoryExtends(c, events, e);
    StepAdds(c, events, e);
    if AcknowledgesFinish(before, e) {
      a := n;
      f :| 0 <= f <= n && AcceptsFinishAt(c, events + [e], f);
    } else {
      f := n;
      ClosingAlready(before, e);
      a :| 0 <= a < n && FinishAcknowledgedAt(c, events, a);
    }
  }

  lemma ClosingAlready(c: Tcb, e: Event)
    requires Closing(Apply(c, e).status) && !AcknowledgesFinish(c, e)
    ensures Closing(c.status)
  {
    StepCloses(c, e);
    hide Apply;
  }

  lemma WaitStep(c: Tcb, events: seq<Event>, e: Event)
    requires CloseInvariant(c, events)
    requires Run(c, events).status != Listen && !Reopens(Run(c, events), e)
    requires Run(c, events + [e]).status == Finished
    ensures exists f, a, i, j :: ClosedInOrder(c, events + [e], f, a, i, j)
  {
    hide Apply, Reopens, BringsFinish, AcknowledgesFinish, AcceptsFinishAt, FinishAcknowledgedAt;
    var all, n := events + [e], |events|;
    var before := Run(c, events);
    assert all[..n] == events && all[..n + 1] == all;
    RunExtends(c, events, e);
    StepCloses(before, e);
    HistoryExtends(c, events, e);
    if before.status == Finished {
      var f, a, i, j :| ClosedInOrder(c, events, f, a, i, j);
      TimedExtends(c, events, e, i, j);
      assert all[..j + 1] == events[..j + 1];
      assert ClosedInOrder(c, all, f, a, i, j);
    } else {
      var f, a, i :| TimerRuns(c, events, f, a, i, before.retryTimer);
      TimedExtends(c, events, e, i, n);
      assert ClosedInOrder(c, all, f, a, i, n);
    }
  }

  lemma {:induction false} LifeKeepsClosing(c: Tcb, events: seq<Event>)
    requires !c.remoteFinished && !Closing(c.status) && OneLife(c, events) && TimeAdvances(events)
    ensures CloseInvariant(c, events)
  {
    hide Apply, Reopens, CloseInvariant;
    if events == [] {
      ClosingStarts(c);
    } else {
      var n := |events| - 1;
      OneLifeFront(c, events, n);
      LifeKeepsClosing(c, events[..n]);
      assert events == events[..n] + [events[n]];
      CloseInvariantStep(c, events[..n], events[n]);
    }
  }

  lemma ClosingStarts(c: Tcb)
    requires !c.remoteFinished && !Closing(c.status)
    ensures CloseInvariant(c, [])
  {
  }

  /** Two-sided close with a minimum wait: a life that starts with no FIN accepted and reaches Finished
      accepted the FIN of its peer exactly where it was expected and had its own FIN acknowledged by it; the
      later of the two began the timed close, which lasted a second at least, until the timer ended it. */
  lemma {:induction false} FinishedMeansBothClosed(c: Tcb, events: seq<Event>) returns (f: nat, a: nat, i: nat, j: nat)
    requires !c.remoteFinished && !Closing(c.status) && OneLife(c, events) && TimeAdvances(events)
    requires Run(c, events).status == Finished
    ensures ClosedInOrder(c, events, f, a, i, j)
  {
    LifeKeepsClosing(c, events);
    hide Run;
    f, a, i, j :| ClosedInOrder(c, events, f, a, i, j);
  }

  // ---------------------------------------------------------------------------
  // A connection opened again
  // ---------------------------------------------------------------------------

  ghost predicate FinishesLife(c: Tcb, events: seq<Event>) {
    OneLife(c, events) && TimeAdvances(events) && Run(c, events).status == Finished
  }

  // Opened with a FIN left over from an earlier life, a connection finishes although no FIN is delivered.
  lemma StaleFinishRun(c: Tcb) returns (events: seq<Event>)
    requires JustOpened(c) && c.remoteFinished
    ensures FinishesLife(c, events) && forall e | e in events :: e.Deliver? ==> !e.segment.finish
  {
    hide Received, Outgoing;
    var e0 := Deliver(Bare(c, true, false, 0, 0), 0, false, false);
    var e1 := Deliver(Bare(c, false, false, 0, 1), 0, false, false);
    var e2 := Tick(TIMER_PRECISION_SCALE, false);
    events := [e0, e1, e2];
    RunOfThree(c, e0, e1, e2);
    BareSynHalfOpens(c);
    var c1 := Apply(c, e0);
    assert Bare(c1, false, false, 0, 1) == Bare(c, false, false, 0, 1);
    BareAcknowledgesFinish(c1, 0);
    hide Run;
    var c2 := Apply(c1, e1);
    assert c2.status == TimedClose;
  }

  lemma NoFinishAccepted(c: Tcb, events: seq<Event>, f: int)
    requires forall e | e in events :: e.Deliver? ==> !e.segment.finish
    ensures !AcceptsFinishAt(c, events, f)
  {
    hide Run;
    if 0 <= f < |events| {
      assert events[f] in events;
    }
  }

  lemma BareAcknowledgesFinish(c: Tcb, sequenceNumber: Natural32)
    requires c.status == FinSent && c.localSequenceNumber < LIMIT_32 - 1 && c.remoteFinished
    ensures var r := Received(c, Bare(c, false, false, sequenceNumber, c.localSequenceNumber + 1), 0, false);
            && SamePeer(c, r)
            && r.status == TimedClose && r.retryTimer == TIMER_PRECISION_SCALE
            && r.remoteInitialSequenceNumber == c.remoteInitialSequenceNumber
  {
    hide Low32;
  }

  /** Every life that finishes closes from both sides if and only if its opening call found no FIN accepted. */
  lemma {:induction false} StaleFinishIff(c: Tcb)
    requires JustOpened(c)
    ensures (forall events | FinishesLife(c, events) :: exists f, a, i, j :: ClosedInOrder(c, events, f, a, i, j))
            <==> !c.remoteFinished
  {
    hide Apply, OneLife, TimeAdvances, Run;
    if !c.remoteFinished {
      forall events | FinishesLife(c, events)
        ensures exists f, a, i, j :: ClosedInOrder(c, events, f, a, i, j)
      {
        var f, a, i, j := FinishedMeansBothClosed(c, events);
      }
    } else {
      var events := StaleFinishRun(c);
      forall f, a, i, j ensures !ClosedInOrder(c, events, f, a, i, j) {
        NoFinishAccepted(c, events, f);
      }
    }
  }

  /** So the life an opening call begins closes from both sides, whenever it finishes, if and only if the
      connection had accepted no FIN before the call. */
  lemma {:induction false} ReopeningClosesIff(c: Tcb, e: Event)
    requires Reopens(c, e)
    ensures (forall events | FinishesLife(Apply(c, e), events) ::
               exists f, a, i, j :: ClosedInOrder(Apply(c, e), events, f, a, i, j))
            <==> !c.remoteFinished
  {
    OpeningCallOpens(c, e);
    StaleFinishIff(Apply(c, e));
    hide Apply, FinishesLife, ClosedInOrder;
  }

  /** Such an opening call happens: a connection that finished, was closed and listens again still counts
      the first peer as finished. */
  lemma {:induction false} StaleFinishReachable(port: Port) returns (events: seq<Event>)
    ensures JustOpened(Run(Fresh(port), events)) && Run(Fresh(port), events).remoteFinished
  {
    var c1 := Listened(Fresh(port));
    var e1 := Deliver(Bare(c1, true, false, 0, 0), 0, false, false);
    var e2 := Deliver(Bare(c1, false, true, 1, 1), 0, false, false);
    var e3, e4, e5 := Deliver(Bare(c1, false, false, 0, 2), 0, false, false), Tick(1000, false), CallClose(1000, false);
    BareSynHalfOpens(c1);
    var c2 := Apply(c1, e1);
    assert Bare(c2, false, true, 1, 1) == Bare(c1, false, true, 1, 1);
    BareFinish(c2);
    var c3 := Apply(c2, e2);
    assert Bare(c3, false, false, 0, 2) == Bare(c1, false, false, 0, 2);
    BareAcknowledgesFinish(c3, 0);
    hide Run, Received;
    var c4 := Apply(c3, e3);
    var c6 := Apply(Apply(c4, e4), e5);
    assert c6.status == Closed && c6.remoteFinished;
    assert Apply(Fresh(port), CallListen(0)) == c1;
    assert JustOpened(Apply(c6, CallListen(1000))) && Apply(c6, CallListen(1000)).remoteFinished;
    hide Apply, JustOpened;
    events := [CallListen(0)] + [e1] + [e2] + [e3] + [e4] + [e5] + [CallListen(1000)];
    RunOfNothing(Fresh(port));
    RunExtends(Fresh(port), [], CallListen(0));
    RunExtends(Fresh(port), [CallListen(0)], e1);
    RunExtends(Fresh(port), [CallListen(0)] + [e1], e2);
    RunExtends(Fresh(port), [CallListen(0)] + [e1] + [e2], e3);
    RunExtends(Fresh(port), [CallListen(0)] + [e1] + [e2] + [e3], e4);
    RunExtends(Fresh(port), [CallListen(0)] + [e1] + [e2] + [e3] + [e4], e5);
    RunExtends(Fresh(port), [CallListen(0)] + [e1] + [e2] + [e3] + [e4] + [e5], CallListen(1000));
    assert [] + [CallListen(0)] == [CallListen(0)];
  }

  lemma BareFinish(c: Tcb)
    requires c.status == SynReceived && c.localAcknowledgment == 1 && c.localSequenceNumber == 0
    ensures var r := Received(c, Bare(c, false, true, 1, 1), 0, false);
            && r.remoteAddress == c.remoteAddress && r.remotePort == c.remotePort && r.localPort == c.localPort
            && r.status == Established && r.localSequenceNumber == 1 && r.remoteFinished
  {
    hide Low32;
  }
}

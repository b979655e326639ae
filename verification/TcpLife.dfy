/**
 The life of a connection: the events from one opening call to the next.

 The connection object is opened again and again, and an opening call resets little of it; so what holds of
 one life is stated from the state its opening call left.
 */
module TcpLife {
  import opened Bytes
  import opened Tcp

  // A call of listen or connect that takes effect.
  predicate Reopens(c: Tcb, e: Event) {
    match e
    case CallListen(_) => c.status == Closed
    case CallConnect(_, _, _, _) => c.status == Closed || c.status == Listen
    case _ => false
  }

  // No event opens the connection again.
  ghost predicate OneLife(c: Tcb, events: seq<Event>) {
    forall i | 0 <= i < |events| :: !Reopens(Run(c, events[..i]), events[i])
  }

  // The states an opening call leaves.
  predicate JustOpened(c: Tcb) {
    c.status == Listen || (c.status == SynSent && c.localSequenceNumber == 0)
  }

  // An opening call resets neither what was accepted nor what was acknowledged, nor the retries.
  lemma {:induction false} OpeningCallOpens(c: Tcb, e: Event)
    requires Reopens(c, e)
    ensures var r := Apply(c, e);
            && JustOpened(r)
            && r.remoteFinished == c.remoteFinished && r.remoteAcknowledgment == c.remoteAcknowledgment
            && r.retryCounter == c.retryCounter
  {
    hide Outgoing;
  }

  lemma RunExtends(c: Tcb, events: seq<Event>, e: Event)
    ensures Run(c, events + [e]) == Apply(Run(c, events), e)
  {
    assert (events + [e])[..|events|] == events;
  }

  lemma OneLifeFront(c: Tcb, events: seq<Event>, n: nat)
    requires OneLife(c, events) && n <= |events|
    ensures OneLife(c, events[..n])
    ensures n < |events| ==> !Reopens(Run(c, events[..n]), events[n])
  {
    assert forall i | 0 <= i < n :: events[..n][..i] == events[..i];
  }

  // Past Listen, a life keeps its peer and never listens again.
  lemma StepKeepsPeer(c: Tcb, e: Event)
    requires !Reopens(c, e)
    ensures var r := Apply(c, e);
            && r.localPort == c.localPort
            && (c.status != Listen ==>
                  r.status != Listen && r.remoteAddress == c.remoteAddress && r.remotePort == c.remotePort)
  {
    hide Received, Outgoing;
    if e.Deliver? {
      ReceivedKeepsPeer(c, e.segment, e.now, e.frame);
    }
  }

  lemma ReceivedKeepsPeer(c: Tcb, s: Segment, now: nat, frame: bool)
    ensures var r := Received(c, s, now, frame);
            && r.localPort == c.localPort
            && (c.status != Listen ==>
                  r.status != Listen && r.remoteAddress == c.remoteAddress && r.remotePort == c.remotePort)
  {
    hide ParsedOptions, Outgoing, ReceivedSyn, ReceivedData;
    SynKeepsPeer(WithHeader(c, s), s, now, frame);
    DataKeepsPeer(Acknowledged(WithHeader(c, s), s, now), s, OptionsOf(c, s).end, now, frame);
  }

  lemma SynKeepsPeer(c: Tcb, s: Segment, now: nat, frame: bool)
    ensures var r := ReceivedSyn(c, s, now, frame);
            && r.localPort == c.localPort
            && (c.status != Listen ==>
                  r.status != Listen && r.remoteAddress == c.remoteAddress && r.remotePort == c.remotePort)
  {
    hide Outgoing;
  }

  lemma DataKeepsPeer(c: Tcb, s: Segment, from: nat, now: nat, frame: bool)
    ensures var r := ReceivedData(c, s, from, now, frame);
            && r.localPort == c.localPort && r.remoteAddress == c.remoteAddress && r.remotePort == c.remotePort
            && r.status in {c.status, TimedClose}
  {
    hide Outgoing, Copied, NextSequenceNumber;
  }

  // ---------------------------------------------------------------------------
  // Concrete runs
  // ---------------------------------------------------------------------------

  // A segment of the connection's peer without options or payload: a SYN, or an acknowledgment, perhaps with a FIN.
  function Bare(c: Tcb, synchronize: bool, finish: bool, sequenceNumber: Natural32, acknowledgmentNumber: Natural32):
    (s: Segment)
    ensures s.HeaderEnd() == HEADER_LENGTH && s.PayloadLength() == 0
  {
    Segment(c.remoteAddress, 0, c.remotePort, c.localPort, sequenceNumber, acknowledgmentNumber,
            finish, synchronize, false, !synchronize, 5, 20, _ => 0)
  }

  // What a step that sends nothing and acknowledges nothing leaves alone.
  predicate SamePeer(c: Tcb, r: Tcb) {
    && r.remoteAddress == c.remoteAddress && r.remotePort == c.remotePort && r.localPort == c.localPort
    && r.remoteFinished == c.remoteFinished && r.transmitted == c.transmitted
  }

  lemma BareSynHalfOpens(c: Tcb)
    requires JustOpened(c)
    ensures var r := Received(c, Bare(c, true, false, 0, 0), 0, false);
            && SamePeer(c, r)
            && r.status == SynReceived && r.localSequenceNumber == 0 && r.localAcknowledgment == 1
            && r.remoteAcknowledgment == c.remoteAcknowledgment
  {
    hide Low32;
  }

  lemma BareEstablishes(c: Tcb, acknowledgmentNumber: Natural32)
    requires c.status == SynReceived
    ensures var r := Received(c, Bare(c, false, false, 0, acknowledgmentNumber), 0, false);
            && SamePeer(c, r)
            && r.status == Established && r.localSequenceNumber == c.localSequenceNumber + 1
            && r.remoteAcknowledgment ==
               if acknowledgmentNumber > c.remoteAcknowledgment then acknowledgmentNumber else c.remoteAcknowledgment
  {
    hide Low32;
  }

  lemma RunOfNothing(c: Tcb)
    ensures Run(c, []) == c
  {
  }

  lemma RunOfTwo(c: Tcb, a: Event, b: Event)
    ensures [a, b][..0] == [] && [a, b][..1] == [a]
    ensures Run(c, []) == c && Run(c, [a]) == Apply(c, a) && Run(c, [a, b]) == Apply(Apply(c, a), b)
  {
    hide Apply;
    assert [a][..0] == [];
    assert Run(c, [a]) == Apply(Run(c, []), a);
    assert [a, b][..1] == [a];
  }

  lemma RunOfThree(c: Tcb, x: Event, y: Event, z: Event)
    ensures [x, y, z][..0] == [] && [x, y, z][..1] == [x] && [x, y, z][..2] == [x, y]
    ensures Run(c, []) == c && Run(c, [x]) == Apply(c, x) && Run(c, [x, y]) == Apply(Apply(c, x), y)
    ensures Run(c, [x, y, z]) == Apply(Run(c, [x, y]), z)
  {
    hide Apply;
    RunOfTwo(c, x, y);
    assert [x, y, z][..2] == [x, y];
  }
}

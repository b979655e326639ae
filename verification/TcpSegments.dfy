/**
 The segments a download sends, over runs: all from the address the peer's segments go to, and each acknowledging
 exactly what was stored when it was sent.
 */
module TcpSegments {
  import opened Addresses
  import opened Bytes
  import opened Tcp
  import opened TcpLife
  import opened TcpLaws
  import opened TcpDownload
  import TcpRuns

  // The peer sends to this address, with headers that fit their length field.
  ghost predicate PeerSendsTo(p: Peer, events: seq<Event>, address: Ipv6Address) {
    forall i | 0 <= i < |events| :: EventSentTo(p, events[i], address)
  }

  predicate EventSentTo(p: Peer, e: Event, address: Ipv6Address) {
    e.Deliver? ==>
      && e.segment.dataOffset <= 15
      && (e.segment.sourceAddress == p.address && e.segment.sourcePort == p.port ==>
            e.segment.destinationAddress == address)
  }

  // From the address, or, before anything was accepted, from none.
  predicate FromAddress(t: Sent, address: Ipv6Address) {
    t.sourceAddress == address || (t.sourceAddress == 0 && !t.acknowledgment)
  }

  ghost predicate AddressInvariant(p: Peer, c: Tcb, address: Ipv6Address) {
    && (c.status == SynSent ==> c.localAddress in {0, address})
    && (c.status !in {Closed, Listen, SynSent} ==> c.localAddress == address)
    && forall i | 0 <= i < |c.transmitted| :: FromAddress(c.transmitted[i], address)
  }

  // The connection is the peer's once it is past Listen.
  lemma PeerOnly(p: Peer, c: Tcb)
    requires DownloadInvariant(p, c)
    ensures c.status !in {Closed, Listen} ==> c.remoteAddress == p.address && c.remotePort == p.port
    ensures c.status == Listen ==> !c.remoteFinished
  {
  }

  // While it listens, what is not the peer's SYN leads nowhere.
  lemma ListenStays(c: Tcb, s: Segment, now: nat, frame: bool, closeFrame: bool)
    requires c.status == Listen && !c.remoteFinished && (s.destinationPort == c.localPort ==> !Answered(c, s))
    ensures var r := Apply(c, Deliver(s, now, frame, closeFrame));
            r.status == Listen && r.transmitted == c.transmitted
  {
    hide ParsedOptions, Outgoing;
  }

  lemma AddressStep(p: Peer, c: Tcb, e: Event, address: Ipv6Address)
    requires p.Valid() && DownloadInvariant(p, c) && FromEnvironment(p, c, e) && EventSentTo(p, e, address)
    requires AddressInvariant(p, c, address)
    ensures AddressInvariant(p, Apply(c, e), address)
  {
    PeerOnly(p, c);
    EventSends(c, e);
    LocalAddressIsDestination(c, e);
    StatusStep(c, e);
    hide Apply, DownloadInvariant, IsSlice;
    var r := Apply(c, e);
    if e.Deliver? && c.status == Listen && !Answered(c, e.segment) {
      ListenStays(c, e.segment, e.now, e.frame, e.closeFrame);
    }
    forall i | 0 <= i < |r.transmitted| ensures FromAddress(r.transmitted[i], address) {
      if i < |c.transmitted| {
        assert r.transmitted[i] == c.transmitted[i];
      } else {
        assert Describes(r.transmitted[i], r);
      }
    }
  }

  // No event but an opening call leads to Listen or SynSent, and only a segment accepted past them.
  lemma StatusStep(c: Tcb, e: Event)
    requires !Reopens(c, e)
    ensures var r := Apply(c, e);
            && (r.status == SynSent ==> c.status == SynSent)
            && (r.status == Listen ==> c.status == Listen)
            && (c.status in {Closed, Listen, SynSent} && r.status !in {Closed, Listen, SynSent} ==>
                  e.Deliver? && Accepts(c, e.segment))
  {
    hide Received, Outgoing;
    StepKeepsPeer(c, e);
    if e.Deliver? {
      ReceivedFrom(c, e.segment, e.now, e.frame);
    }
  }

  lemma ReceivedFrom(c: Tcb, s: Segment, now: nat, frame: bool)
    ensures var r := Received(c, s, now, frame);
            && (r.status == SynSent ==> c.status == SynSent)
            && (s.destinationPort == c.localPort && !Accepts(c, s) ==> r == c)
            && (c.status == Closed ==> r == c)
  {
    hide ParsedOptions, Outgoing, ReceivedData;
    DataKeepsPeer(Acknowledged(WithHeader(c, s), s, now), s, OptionsOf(c, s).end, now, frame);
  }

  /** If all of the peer's segments go to one address, every segment sent comes from it, but for a SYN of our own
      that goes out before anything was accepted: that one has no source address. */
  lemma {:induction false} SegmentsComeFrom(p: Peer, c: Tcb, events: seq<Event>, address: Ipv6Address)
    requires p.Valid() && Opened(p, c) && EnvironmentRun(p, c, events) && PeerSendsTo(p, events, address)
    ensures AddressInvariant(p, Run(c, events), address)
  {
    hide Apply, DownloadInvariant, FromEnvironment, AddressInvariant, EventSentTo, Opened;
    if events == [] {
      OpenedHasNone(p, c, address);
    } else {
      var n := |events| - 1;
      EnvironmentFront(p, c, events, n);
      SegmentsComeFrom(p, c, events[..n], address);
      RunsKeep(p, c, events[..n]);
      AddressStep(p, Run(c, events[..n]), events[n], address);
    }
  }

  lemma OpenedHasNone(p: Peer, c: Tcb, address: Ipv6Address)
    requires Opened(p, c)
    ensures AddressInvariant(p, c, address)
  {
  }

  /** A connection opened towards the peer sends its SYN from no address, whatever address it has. */
  lemma {:induction false} FirstSynHasNoSource(p: Peer, port: Port, now: nat)
    ensures var sent := Apply(Fresh(port), CallConnect(p.address, p.port, now, true)).transmitted;
            |sent| == 1 && sent[0].sourceAddress == 0 && sent[0].synchronize && !sent[0].acknowledgment
  {
    EventSends(Fresh(port), CallConnect(p.address, p.port, now, true));
  }

  // ---------------------------------------------------------------------------
  // Acknowledgments
  // ---------------------------------------------------------------------------

  /** A segment that acknowledges was sent by an event after which the acknowledgment is exactly its number; in a
      synchronized state every byte of the stream below it is stored then. */
  lemma {:induction false} AcknowledgesExactly(p: Peer, c: Tcb, events: seq<Event>, i: nat) returns (k: nat)
    requires p.Valid() && Opened(p, c) && EnvironmentRun(p, c, events)
    requires forall j | 0 <= j < |events| :: events[j].Deliver? ==> events[j].segment.dataOffset <= 15
    requires |c.transmitted| <= i < |Run(c, events).transmitted| && Run(c, events).transmitted[i].acknowledgment
    ensures TcpRuns.SentAt(c, events, i, k)
    ensures var number, r := Run(c, events).transmitted[i].acknowledgmentNumber, Run(c, events[..k + 1]);
            && number == r.localAcknowledgment % LIMIT_32
            && (Synchronized(r) ==> number == r.localAcknowledgment && StoredBelow(p, r, number))
  {
    hide Apply, DownloadInvariant, FromEnvironment, Opened;
    NeverOpensAgain(p, c, events);
    k := TcpRuns.SentWhen(c, events, i);
    assert events[..k + 1] == events[..k] + [events[k]];
    RunExtends(c, events[..k], events[k]);
    EventSends(Run(c, events[..k]), events[k]);
    var r := Run(c, events[..k + 1]);
    assert Describes(r.transmitted[i], r);
    EnvironmentFront(p, c, events, k + 1);
    if Synchronized(r) {
      RunsKeep(p, c, events[..k + 1]);
      AcknowledgmentFits(p, r);
    }
  }

  lemma AcknowledgmentFits(p: Peer, c: Tcb)
    requires p.Valid() && DownloadInvariant(p, c) && Synchronized(c)
    ensures c.localAcknowledgment < LIMIT_32 && StoredBelow(p, c, c.localAcknowledgment)
  {
  }

  lemma NeverOpensAgain(p: Peer, c: Tcb, events: seq<Event>)
    requires EnvironmentRun(p, c, events)
    ensures OneLife(c, events)
  {
    hide Run, IsSlice;
  }

  /** What the peer sends of its stream is answered at once: with a frame to give, a segment of its peer that carries
      payload, or its FIN where it is expected, adds one that acknowledges exactly what is stored after it. */
  lemma {:induction false} DataIsAcknowledged(c: Tcb, s: Segment, now: nat, closeFrame: bool)
    requires Accepts(c, s) && c.status !in {Listen, SynSent} && !s.reset && !s.synchronize && s.dataOffset <= 15
    requires if s.finish then s.sequenceNumber == c.localAcknowledgment else s.ipPayloadLength > 4 * s.dataOffset
    ensures var r := Apply(c, Deliver(s, now, true, closeFrame));
            var n := |c.transmitted|;
            && |r.transmitted| > n && r.transmitted[n].sourceAddress == s.destinationAddress
            && r.transmitted[n].acknowledgment
            && r.transmitted[n].acknowledgmentNumber == r.localAcknowledgment % LIMIT_32
  {
    var e := Deliver(s, now, true, closeFrame);
    EventSends(c, e);
    LocalAddressIsDestination(c, e);
    StatusStep(c, e);
    hide Apply;
    assert Describes(Apply(c, e).transmitted[|c.transmitted|], Apply(c, e));
  }
}

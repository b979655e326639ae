/**
 The boot loader from end to end: a kernel image made by the build tool, sent by a peer as one TCP
 stream, downloaded to memory and checked.
 */
module Boot {
  import opened Wrappers
  import opened Bytes
  import BootImage
  import BuildTool
  import opened Tcp
  import opened TcpDownload
  import opened TcpFinish
  import TcpConnection
  import opened TcpLife

  // ---------------------------------------------------------------------------
  // The download loop
  // ---------------------------------------------------------------------------

  datatype Delivered = Delivered(segment: Segment, frame: bool, closeFrame: bool)

  // One turn of the loop: the segments the driver's poll delivers, then the connection's own poll.
  datatype Round = Round(segments: seq<Delivered>, now: nat, frame: bool)

  function DeliveriesOf(segments: seq<Delivered>, now: nat): (events: seq<Event>)
    ensures |events| == |segments|
  {
    seq(|segments|, i requires 0 <= i < |segments| =>
      Deliver(segments[i].segment, now, segments[i].frame, segments[i].closeFrame))
  }

  function EventsOf(rounds: seq<Round>): seq<Event> {
    if rounds == [] then []
    else
      var r := rounds[|rounds| - 1];
      EventsOf(rounds[..|rounds| - 1]) + DeliveriesOf(r.segments, r.now) + [Tick(r.now, r.frame)]
  }

  method DeliverAll(connection: TcpConnection.Connection, segments: seq<Delivered>, now: nat, ghost c: Tcb,
                    ghost events: seq<Event>)
    requires connection.State() == Run(c, events)
    modifies connection
    ensures connection.State() == Run(c, events + DeliveriesOf(segments, now))
  {
    hide Dispatched;
    ghost var all := DeliveriesOf(segments, now);
    assert events + all[..0] == events;
    for i := 0 to |segments|
      invariant connection.State() == Run(c, events + all[..i])
    {
      connection.Dispatch(segments[i].segment, now, segments[i].frame, segments[i].closeFrame);
      RunExtends(c, events + all[..i], all[i]);
      assert events + all[..i] + [all[i]] == events + all[..i + 1];
    }
    assert all[..|segments|] == all;
  }

  method OneRound(connection: TcpConnection.Connection, r: Round, ghost c: Tcb, ghost rounds: seq<Round>)
    returns (finished: bool)
    requires connection.State() == Run(c, EventsOf(rounds))
    modifies connection
    ensures connection.State() == Run(c, EventsOf(rounds + [r]))
    ensures finished == (Run(c, EventsOf(rounds + [r])).status == Finished)
  {
    hide Run, Poll;
    DeliverAll(connection, r.segments, r.now, c, EventsOf(rounds));
    RunExtends(c, EventsOf(rounds) + DeliveriesOf(r.segments, r.now), Tick(r.now, r.frame));
    assert (rounds + [r])[..|rounds|] == rounds;
    var _ := connection.Poll(r.now, r.frame);
    finished := connection.status == Finished;
  }

  method IsFinished(connection: TcpConnection.Connection) returns (finished: bool)
    ensures finished == (connection.State().status == Finished)
  {
    finished := connection.status == Finished;
  }

  lemma NoRounds(c: Tcb, rounds: seq<Round>)
    ensures Run(c, EventsOf(rounds[..0])) == c
  {
  }

  ghost predicate StillRunning(c: Tcb, rounds: seq<Round>, k: int) {
    0 <= k <= |rounds| && Run(c, EventsOf(rounds[..k])).status != Finished
  }

  lemma NotYetFinished(c: Tcb, rounds: seq<Round>, k: nat)
    requires k <= |rounds| && Run(c, EventsOf(rounds[..k])).status != Finished
    ensures StillRunning(c, rounds, k)
  {
  }

  /** The loop runs until the connection finished, and leaves it as the events so far do. */
  method DownloadLoop(connection: TcpConnection.Connection, rounds: seq<Round>) returns (n: nat)
    modifies connection
    ensures n <= |rounds| && connection.State() == Run(old(connection.State()), EventsOf(rounds[..n]))
    ensures connection.State().status == Finished || n == |rounds|
    ensures forall k | 0 <= k < n :: StillRunning(old(connection.State()), rounds, k)
  {
    hide Run, EventsOf, StillRunning;
    ghost var c := connection.State();
    n := 0;
    var finished := IsFinished(connection);
    NoRounds(c, rounds);
    while n < |rounds| && !finished
      invariant n <= |rounds| && connection.State() == Run(c, EventsOf(rounds[..n]))
      invariant finished == (Run(c, EventsOf(rounds[..n])).status == Finished)
      invariant forall k | 0 <= k < n :: StillRunning(c, rounds, k)
    {
      NotYetFinished(c, rounds, n);
      finished := OneRound(connection, rounds[n], c, rounds[..n]);
      assert rounds[..n] + [rounds[n]] == rounds[..n + 1];
      n := n + 1;
    }
  }

  /** The loader's download: a fresh connection listens and is driven until it finished.  When it leaves the loop
      finished, its buffer starts with the peer's stream if and only if the segment that completed the handshake
      carried the next number expected, or the stream is empty. */
  method Download(port: Port, rounds: seq<Round>, ghost p: Peer)
    returns (connection: TcpConnection.Connection, n: nat, ghost j: int)
    ensures fresh(connection) && n <= |rounds|
    ensures connection.State() == Run(Listened(Fresh(port)), EventsOf(rounds[..n]))
    ensures connection.status == Finished || n == |rounds|
    ensures p.Valid() && EnvironmentRun(p, Listened(Fresh(port)), EventsOf(rounds[..n]))
            && connection.status == Finished ==>
              var c, events := Listened(Fresh(port)), EventsOf(rounds[..n]);
              && SynchronizesAt(c, events, j) && Run(c, events[..j]).status == SynReceived
              && (HoldsStream(p, connection.receiveBuffer) <==>
                  p.stream == [] || BeginsInPlace(Run(c, events[..j]), events[j]))
  {
    hide Run, EventsOf, EnvironmentRun, HoldsStream, SynchronizesAt, BeginsInPlace, StillRunning;
    connection := new TcpConnection.Connection(port);
    var _ := connection.StartListening();
    n := DownloadLoop(connection, rounds);
    j := 0;
    if p.Valid() && EnvironmentRun(p, Listened(Fresh(port)), EventsOf(rounds[..n])) && connection.status == Finished {
      j := ListeningDownloadIff(p, port, EventsOf(rounds[..n]));
    }
  }

  // ---------------------------------------------------------------------------
  // Whether the loop can still end
  // ---------------------------------------------------------------------------

  // These rounds are a continuation in this environment, with this kind of peer, and the last one ends the loop.
  ghost predicate EndsLoop(honest: bool, p: Peer, c: Tcb, rounds: seq<Round>, more: seq<Round>) {
    Finishes(honest, p, c, EventsOf(rounds), EventsOf(rounds + more))
  }

  lemma RoundAppends(rounds: seq<Round>, r: Round)
    ensures EventsOf(rounds + [r]) == EventsOf(rounds) + DeliveriesOf(r.segments, r.now) + [Tick(r.now, r.frame)]
  {
    assert (rounds + [r])[..|rounds|] == rounds;
  }

  // Segments that arrive at one time are what one round delivers.
  lemma DeliveredInRound(events: seq<Event>, all: seq<Event>, now: nat) returns (segments: seq<Delivered>)
    requires OnlyDelivers(events, all, now)
    ensures all == events + DeliveriesOf(segments, now)
  {
    segments := seq(|all| - |events|, i requires 0 <= i < |all| - |events| =>
      Delivered(all[|events| + i].segment, all[|events| + i].frame, all[|events| + i].closeFrame));
  }

  // The rounds so far, continued by those up to `all`.
  ghost predicate Loops(honest: bool, p: Peer, c: Tcb, rounds: seq<Round>, all: seq<Round>, now: nat) {
    rounds <= all && Continues(honest, p, c, EventsOf(rounds), EventsOf(all), now)
  }

  lemma TimerRound(honest: bool, p: Peer, c: Tcb, rounds: seq<Round>, now: nat) returns (all: seq<Round>, time: nat)
    requires p.Valid() && Opened(p, c) && Loops(honest, p, c, rounds, rounds, now)
    requires var r := Run(c, EventsOf(rounds)); NeedsTimer(honest, p, r) && Finishable(honest, p, r)
    ensures Loops(honest, p, c, rounds, all, now) && time >= now
    ensures StaysAnswered(honest, Run(c, EventsOf(rounds)), Run(c, EventsOf(all)))
  {
    hide Run, EnvironmentRun, GoesOn, Opened, EventsOf, Possible;
    var events, s, t := Nudged(honest, p, c, EventsOf(rounds), EventsOf(rounds), now);
    var r := Round([Delivered(s, true, true)], t, true);
    all, time := rounds + [r], t;
    RoundAppends(rounds, r);
    assert DeliveriesOf(r.segments, t) == [Deliver(s, t, true, true)];
  }

  // One round delivers all that is missing; its timer comes too early to matter.
  lemma DeliveringRound(honest: bool, p: Peer, c: Tcb, rounds: seq<Round>, before: seq<Round>, events: seq<Event>,
                        now: nat, time: nat) returns (all: seq<Round>)
    requires p.Valid() && Loops(honest, p, c, rounds, before, now) && now <= time
    requires Continues(honest, p, c, EventsOf(rounds), events, now) && OnlyDelivers(EventsOf(before), events, time)
    requires Run(c, events).status == TimedClose && Run(c, events).retryTimer > time
    ensures Loops(honest, p, c, rounds, all, now) && Run(c, EventsOf(all)) == Run(c, events)
  {
    hide Run, EnvironmentRun, GoesOn, EventsOf, AcknowledgesSent;
    var segments := DeliveredInRound(EventsOf(before), events, time);
    var r := Round(segments, time, true);
    all := before + [r];
    RoundAppends(before, r);
    NotADelivery(honest, p, Run(c, events), Tick(time, true));
    var _ := Extend(honest, p, c, EventsOf(rounds), events, Tick(time, true), now);
  }

  // An empty round in which the last timer runs out.
  lemma LastRound(honest: bool, p: Peer, c: Tcb, rounds: seq<Round>, before: seq<Round>, now: nat)
    returns (all: seq<Round>)
    requires p.Valid() && Opened(p, c) && Loops(honest, p, c, rounds, before, now)
    requires Run(c, EventsOf(before)).status == TimedClose
    ensures Loops(honest, p, c, rounds, all, now) && Run(c, EventsOf(all)).status == Finished
  {
    hide Run, EnvironmentRun, GoesOn, Opened, EventsOf;
    var events, time := TimerFinishes(honest, p, c, EventsOf(rounds), EventsOf(before), now);
    var r := Round([], time, true);
    all := before + [r];
    RoundAppends(before, r);
    assert EventsOf(before) + DeliveriesOf([], time) == EventsOf(before);
  }

  lemma OpenLoopEnds(honest: bool, p: Peer, c: Tcb, rounds: seq<Round>, now: nat) returns (all: seq<Round>)
    requires p.Valid() && Opened(p, c) && EnvironmentRun(p, c, EventsOf(rounds))
    requires Finishable(honest, p, Run(c, EventsOf(rounds)))
    ensures Loops(honest, p, c, rounds, all, now) && Run(c, EventsOf(all)).status == Finished
  {
    hide Run, EnvironmentRun, Opened, EventsOf, Acknowledgeable, OnlyDelivers;
    all := rounds;
    var time := now;
    if NeedsTimer(honest, p, Run(c, EventsOf(rounds))) {
      var nudged, t := TimerRound(honest, p, c, rounds, now);
      all, time := nudged, t;
    }
    var before := all;
    var events := AllArrives(honest, p, c, EventsOf(rounds), EventsOf(before), now, time);
    if events != EventsOf(before) {
      all := DeliveringRound(honest, p, c, rounds, before, events, now, time);
    }
    if Run(c, EventsOf(all)).status != Finished {
      all := LastRound(honest, p, c, rounds, all, now);
    }
  }

  lemma AllArrives(honest: bool, p: Peer, c: Tcb, start: seq<Event>, events: seq<Event>, now: nat, time: nat)
    returns (all: seq<Event>)
    requires p.Valid() && Opened(p, c) && Continues(honest, p, c, start, events, now) && now <= time
    requires Finishable(honest, p, Run(c, events)) && !NeedsTimer(honest, p, Run(c, events))
    ensures Continues(honest, p, c, start, all, now) && OnlyDelivers(events, all, time)
    ensures Run(c, all).status in {TimedClose, Finished}
    ensures all != events ==> Run(c, all).status == TimedClose && Run(c, all).retryTimer > time
  {
    hide Run, EnvironmentRun, Opened, ReadyToFinish, Acknowledgeable, AcknowledgesSent, Possible;
    all := events;
    if Unsynchronized(Run(c, events)) {
      all := HandshakeCompletes(honest, p, c, events, events, 0, time);
      AcknowledgedIsReady(honest, Run(c, all));
    }
    all := Closes(honest, p, c, events, all, time);
    Joined(honest, p, c, start, events, all, now, time);
  }

  lemma Joined(honest: bool, p: Peer, c: Tcb, start: seq<Event>, events: seq<Event>, all: seq<Event>, now: nat,
               time: nat)
    requires Continues(honest, p, c, start, events, now) && Continues(honest, p, c, events, all, time) && now <= time
    ensures Continues(honest, p, c, start, all, now)
  {
    hide Run, EnvironmentRun, AcknowledgesSent, FitsPacket;
    forall i | |start| <= i < |all|
      ensures AcknowledgesSent(honest, p, Run(c, all[..i]), all[i]) && Possible(all[i], now)
    {
      if i < |events| {
        assert all[..i] == events[..i] && all[i] == events[i];
      }
    }
  }

  /** The loader's loop can still end if and only if its connection can still finish; so, of a peer that need not be
      honest, if and only if the connection is not Closed. */
  lemma {:induction false} LoopCanEndIff(honest: bool, p: Peer, c: Tcb, rounds: seq<Round>)
    requires p.Valid() && Opened(p, c) && EnvironmentRun(p, c, EventsOf(rounds))
    ensures (exists more :: EndsLoop(honest, p, c, rounds, more))
            <==> Finishable(honest, p, Run(c, EventsOf(rounds)))
    ensures Finishable(false, p, Run(c, EventsOf(rounds))) <==> Run(c, EventsOf(rounds)).status != Closed
  {
    hide Run, EnvironmentRun, Opened, EventsOf, GoesOn;
    FinishableUnlessClosed(p, Run(c, EventsOf(rounds)));
    hide Finishable;
    CanFinishIff(honest, p, c, EventsOf(rounds));
    if Finishable(honest, p, Run(c, EventsOf(rounds))) {
      var all := OpenLoopEnds(honest, p, c, rounds, 0);
      assert rounds + all[|rounds|..] == all;
      assert EndsLoop(honest, p, c, rounds, all[|rounds|..]);
    }
  }

  lemma ClosedStays(c: Tcb, e: Event)
    requires c.status == Closed && (e.Deliver? || e.Tick?)
    ensures Apply(c, e).status == Closed
  {
  }

  lemma {:induction false} DeliveriesStayClosed(c: Tcb, events: seq<Event>, segments: seq<Delivered>, now: nat)
    requires Run(c, events).status == Closed
    ensures Run(c, events + DeliveriesOf(segments, now)).status == Closed
  {
    hide Apply;
    var all := events + DeliveriesOf(segments, now);
    if segments == [] {
      assert all == events;
    } else {
      var n := |segments| - 1;
      DeliveriesStayClosed(c, events, segments[..n], now);
      assert all[..|all| - 1] == events + DeliveriesOf(segments[..n], now);
      ClosedStays(Run(c, all[..|all| - 1]), all[|all| - 1]);
    }
  }

  /** Once the connection is Closed no round opens it again, whatever arrives: the loop runs for ever. */
  lemma {:induction false} ClosedLoopsForever(c: Tcb, rounds: seq<Round>, more: seq<Round>)
    requires Run(c, EventsOf(rounds)).status == Closed
    ensures Run(c, EventsOf(rounds + more)).status == Closed
  {
    hide Run, Apply;
    if more == [] {
      assert rounds + more == rounds;
    } else {
      var n := |more| - 1;
      var before, r := rounds + more[..n], more[n];
      ClosedLoopsForever(c, rounds, more[..n]);
      assert before + [r] == rounds + more;
      RoundAppends(before, r);
      DeliveriesStayClosed(c, EventsOf(before), r.segments, r.now);
      hide EventsOf;
      ClosedStays(Run(c, EventsOf(before) + DeliveriesOf(r.segments, r.now)), Tick(r.now, r.frame));
      RunExtends(c, EventsOf(before) + DeliveriesOf(r.segments, r.now), Tick(r.now, r.frame));
    }
  }

  // ---------------------------------------------------------------------------
  // From the tool to the loader
  // ---------------------------------------------------------------------------

  // The first n bytes of the receive buffer.
  function Loaded(buffer: map<int, Byte>, n: nat): (memory: seq<Byte>)
    requires forall i | 0 <= i < n :: i in buffer
    ensures |memory| == n && forall i | 0 <= i < n :: memory[i] == buffer[i]
  {
    seq(n, i requires 0 <= i < n => buffer[i])
  }

  lemma LoadedIsStream(p: Peer, buffer: map<int, Byte>)
    requires HoldsStream(p, buffer)
    ensures forall i | 0 <= i < |p.stream| :: i in buffer
    ensures Loaded(buffer, |p.stream|) == p.stream
  {
    forall i | 0 <= i < |p.stream| ensures i in buffer && buffer[i] == p.stream[i] {
      assert i in buffer;
    }
    assert Loaded(buffer, |p.stream|) == p.stream;
  }

  /** What the tool built is what boots: when the peer's stream is an image built for the start of the
      file, and the connection finished, and the segment that established it carried the next number
      expected, then the receive buffer starts with that image and the loader accepts it. */
  lemma {:induction false} BuiltImageBoots(sections: seq<BuildTool.Section>, virtualOffset: nat, entryPoint: nat,
                                           a32: bool, p: Peer, port: Port, events: seq<Event>) returns (j: int)
    requires BuildTool.BuiltFile(sections, virtualOffset, 0, entryPoint, a32) == Some(p.stream)
    requires p.Valid()
    requires EnvironmentRun(p, Listened(Fresh(port)), events)
    requires Run(Listened(Fresh(port)), events).status == Finished
    ensures SynchronizesAt(Listened(Fresh(port)), events, j)
    ensures BeginsInPlace(Run(Listened(Fresh(port)), events[..j]), events[j]) ==>
              var buffer := Run(Listened(Fresh(port)), events).receiveBuffer;
              && HoldsStream(p, buffer)
              && (forall i | 0 <= i < |p.stream| :: i in buffer)
              && Loaded(buffer, |p.stream|) == p.stream
              && |p.stream| >= BootImage.HEADER_LENGTH
              && |p.stream| >= BootImage.PayloadLength(p.stream)
              && BootImage.Validates(Loaded(buffer, |p.stream|))
  {
    j := ListeningDownloadIff(p, port, events);
    BuiltStreamValidates(sections, virtualOffset, entryPoint, a32, p.stream);
    hide Run, BootImage.Validates, BuildTool.BuiltFile, SynchronizesAt, HoldsStream;
    var buffer := Run(Listened(Fresh(port)), events).receiveBuffer;
    if HoldsStream(p, buffer) {
      LoadedIsStream(p, buffer);
    }
  }

  lemma BuiltStreamValidates(sections: seq<BuildTool.Section>, virtualOffset: nat, entryPoint: nat, a32: bool,
                             stream: seq<Byte>)
    requires BuildTool.BuiltFile(sections, virtualOffset, 0, entryPoint, a32) == Some(stream)
    requires |stream| < LIMIT_32
    ensures |stream| >= BootImage.HEADER_LENGTH && |stream| >= BootImage.PayloadLength(stream)
    ensures BootImage.Validates(stream)
  {
    BuildTool.SentImageFits(sections, virtualOffset, entryPoint, a32, stream);
    BuildTool.BuiltFitsValidates(sections, virtualOffset, 0, entryPoint, a32, stream);
    assert BuildTool.Image(stream, 0) == stream;
  }
}

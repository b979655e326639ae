/**
 The timer over runs: every wait is a second at least, and giving up takes five retries, of which those that
 found a frame were waited for.
 */
module TcpTimer {
  import opened Bytes
  import opened Tcp
  import opened TcpLife
  import opened TcpClosing
  import opened TcpLaws
  import TcpRuns

  // Header lengths are 4-bit fields.
  predicate HeadersFit(events: seq<Event>) {
    forall i | 0 <= i < |events| :: HeaderFits(events[i])
  }

  predicate HeaderFits(e: Event) {
    e.Deliver? ==> e.segment.dataOffset <= 15
  }

  // ---------------------------------------------------------------------------
  // Waiting
  // ---------------------------------------------------------------------------

  lemma StepTimer(c: Tcb, e: Event)
    ensures var r := Apply(c, e);
            && |r.transmitted| >= |c.transmitted|
            && r.retryTimer in {c.retryTimer, e.now + 1000}
            && (|r.transmitted| > |c.transmitted| ==> r.retryTimer == e.now + 1000)
  {
    hide Outgoing, Received;
    if e.Deliver? {
      ReceivedTimer(c, e.segment, e.now, e.frame);
    }
  }

  lemma ReceivedTimer(c: Tcb, s: Segment, now: nat, frame: bool)
    ensures var r := Received(c, s, now, frame);
            && |r.transmitted| >= |c.transmitted|
            && r.retryTimer in {c.retryTimer, now + 1000}
            && (|r.transmitted| > |c.transmitted| ==> r.retryTimer == now + 1000)
  {
    hide ParsedOptions, Outgoing, ReceivedSyn, Acknowledged, ReceivedData;
    var c1 := WithHeader(c, s);
    SynTimer(c1, s, now, frame);
    AcknowledgedTimer(c1, s, now);
    DataTimer(Acknowledged(c1, s, now), s, OptionsOf(c, s).end, now, frame);
  }

  lemma SynTimer(c: Tcb, s: Segment, now: nat, frame: bool)
    ensures var r := ReceivedSyn(c, s, now, frame);
            && |r.transmitted| >= |c.transmitted|
            && r.retryTimer in {c.retryTimer, now + 1000}
            && (|r.transmitted| > |c.transmitted| ==> r.retryTimer == now + 1000)
  {
    hide Outgoing;
  }

  lemma AcknowledgedTimer(c: Tcb, s: Segment, now: nat)
    ensures var r := Acknowledged(c, s, now);
            r.transmitted == c.transmitted && r.retryTimer in {c.retryTimer, now + 1000}
  {
  }

  lemma DataTimer(c: Tcb, s: Segment, from: nat, now: nat, frame: bool)
    ensures var r := ReceivedData(c, s, from, now, frame);
            && |r.transmitted| >= |c.transmitted|
            && r.retryTimer in {c.retryTimer, now + 1000}
            && (|r.transmitted| > |c.transmitted| ==> r.retryTimer == now + 1000)
  {
    hide Outgoing, Copied, NextSequenceNumber;
  }

  // Event i sends something.
  ghost predicate SendsAt(c: Tcb, events: seq<Event>, i: int) {
    0 <= i < |events| && |Run(c, events[..i + 1]).transmitted| > |Run(c, events[..i]).transmitted|
  }

  lemma {:induction false} TimerStaysAhead(c: Tcb, events: seq<Event>, i: nat)
    requires TimeAdvances(events) && SendsAt(c, events, i)
    ensures Run(c, events).retryTimer >= events[i].now + 1000
  {
    hide Apply;
    var n := |events| - 1;
    var front := events[..n];
    assert events[..n + 1] == events;
    StepTimer(Run(c, front), events[n]);
    if i < n {
      assert front[..i] == events[..i] && front[..i + 1] == events[..i + 1];
      TimerStaysAhead(c, front, i);
      assert events[i].now <= events[n].now;
    }
  }

  /** Over every run, opened again or not, a tick sends nothing within a second of anything sent before it. */
  lemma {:induction false} TimerSendsApart(c: Tcb, events: seq<Event>, i: nat, j: nat)
    requires TimeAdvances(events) && i < j && SendsAt(c, events, i) && SendsAt(c, events, j) && events[j].Tick?
    ensures events[j].now >= events[i].now + 1000
  {
    hide Apply;
    var front := events[..j];
    assert front[..i] == events[..i] && front[..i + 1] == events[..i + 1];
    assert events[..j + 1] == front + [events[j]];
    TimerStaysAhead(c, front, i);
    RunExtends(c, front, events[j]);
    TickWaitsForTimer(Run(c, front), events[j].now, events[j].frame);
  }

  // ---------------------------------------------------------------------------
  // Giving up
  // ---------------------------------------------------------------------------

  // The tick counts a retry.
  predicate CountsRetry(c: Tcb, e: Event) {
    e.Tick? && Apply(c, e).retryCounter != c.retryCounter
  }

  // How many ticks counted a retry; how many of them found a frame; when the first one came.
  function RetryCount(c: Tcb, events: seq<Event>): nat {
    if events == [] then 0
    else
      var n := |events| - 1;
      RetryCount(c, events[..n]) + if CountsRetry(Run(c, events[..n]), events[n]) then 1 else 0
  }

  function FramedRetries(c: Tcb, events: seq<Event>): nat {
    if events == [] then 0
    else
      var n := |events| - 1;
      FramedRetries(c, events[..n]) + if CountsRetry(Run(c, events[..n]), events[n]) && events[n].frame then 1 else 0
  }

  function FirstRetry(c: Tcb, events: seq<Event>): nat {
    if events == [] then 0
    else
      var n := |events| - 1;
      if RetryCount(c, events[..n]) == 0 then events[n].now else FirstRetry(c, events[..n])
  }

  lemma StepRetries(c: Tcb, e: Event)
    requires !Reopens(c, e) && (c.retryCounter <= 5 || c.status == Closed)
    ensures var r := Apply(c, e);
            && (r.retryCounter <= 5 || r.status == Closed)
            && r.retryCounter == c.retryCounter + (if CountsRetry(c, e) then 1 else 0)
            && (CountsRetry(c, e) ==> e.now >= c.retryTimer && c.status != Closed)
            && (CountsRetry(c, e) && r.status != Closed ==>
                  r.retryTimer == if e.frame then e.now + 1000 else c.retryTimer)
            && (c.status == Closed ==> r == c)
            && (e.Tick? && c.status != Closed && r.status == Closed ==> CountsRetry(c, e) && c.retryCounter == 5)
  {
    hide Received, Outgoing;
    match e
    case Tick(now, frame) => TickWaitsForTimer(c, now, frame);
    case Deliver(s, now, frame, closeFrame) => CounterStays(c, s, now, frame, closeFrame);
    case _ =>
  }

  lemma CounterStays(c: Tcb, s: Segment, now: nat, frame: bool, closeFrame: bool)
    ensures var r := Apply(c, Deliver(s, now, frame, closeFrame));
            r.retryCounter == c.retryCounter && (c.status == Closed ==> r == c)
  {
    hide Received, Outgoing;
    TcpRuns.ReceivedKeepsCounter(c, s, now, frame);
  }

  // After its first retry the timer is never more than a second ahead, and as many seconds behind the first retry
  // as retries found a frame.
  lemma {:induction false} RetriesAreWaitedFor(c: Tcb, events: seq<Event>)
    requires c.retryCounter <= 5 && OneLife(c, events) && TimeAdvances(events)
    ensures var r := Run(c, events);
            && (r.retryCounter <= 5 || r.status == Closed)
            && r.retryCounter == c.retryCounter + RetryCount(c, events)
            && (r.status != Closed && FramedRetries(c, events) > 0 ==>
                  FirstRetry(c, events) + 1000 * FramedRetries(c, events) <= r.retryTimer)
            && (r.status != Closed && RetryCount(c, events) > 0 ==> r.retryTimer <= events[|events| - 1].now + 1000)
            && (RetryCount(c, events) > 0 ==> FirstRetry(c, events) <= events[|events| - 1].now)
            && FramedRetries(c, events) <= RetryCount(c, events)
  {
    hide Apply, Reopens, CountsRetry;
    if events != [] {
      var n := |events| - 1;
      OneLifeFront(c, events, n);
      RetriesAreWaitedFor(c, events[..n]);
      StepRetries(Run(c, events[..n]), events[n]);
      StepTimer(Run(c, events[..n]), events[n]);
      assert n > 0 ==> events[n - 1].now <= events[n].now;
    }
  }

  /** A life that starts with no retry counted is given up by the timer only when it counted five, and no earlier than
      a second for each of them that found a frame after the first. */
  lemma {:induction false} GivesUpAfterFiveRetries(c: Tcb, events: seq<Event>, e: Event)
    requires c.retryCounter == 0 && OneLife(c, events) && TimeAdvances(events + [e])
    requires e.Tick? && Run(c, events).status != Closed && Apply(Run(c, events), e).status == Closed
    ensures RetryCount(c, events) == 5
    ensures e.now >= FirstRetry(c, events) + 1000 * FramedRetries(c, events)
  {
    assert TimeAdvances(events) by {
      assert forall i | 0 <= i < |events| :: (events + [e])[i] == events[i];
    }
    RetriesAreWaitedFor(c, events);
    assert |events| > 0 ==> (events + [e])[|events| - 1].now <= (events + [e])[|events|].now;
    NotReopened(e, Run(c, events));
    StepRetries(Run(c, events), e);
    hide Run, Apply, CountsRetry;
  }

  lemma NotReopened(e: Event, c: Tcb)
    requires e.Tick?
    ensures !Reopens(c, e)
  {
  }

  function FramesIn(frames: seq<bool>): nat {
    if frames == [] then 0 else (if frames[0] then 1 else 0) + FramesIn(frames[1..])
  }

  // Ticks that come as soon as they count.
  function EagerTicks(timer: nat, frames: seq<bool>): seq<Event>
    decreases |frames|
  {
    if frames == [] then [Tick(timer, false)]
    else [Tick(timer, frames[0])] + EagerTicks(if frames[0] then timer + 1000 else timer, frames[1..])
  }

  lemma {:induction false} RunFromFirst(c: Tcb, e: Event, events: seq<Event>)
    ensures Run(c, [e] + events) == Run(Apply(c, e), events)
  {
    hide Apply;
    var all := [e] + events;
    if events == [] {
      assert all[..0] == [];
      assert all == [e];
    } else {
      var n := |events| - 1;
      RunFromFirst(c, e, events[..n]);
      assert all[..|all| - 1] == [e] + events[..n];
    }
  }

  /** It can be given up as soon as that: a second after the other for retries that find a frame, and at once for
      those that do not, so that without any frame five retries take no time at all. */
  lemma {:induction false} GivesUpAsSoon(c: Tcb, frames: seq<bool>)
    requires Retries(c) && c.status != Finished && c.retryCounter + |frames| == 5
    ensures var ticks := EagerTicks(c.retryTimer, frames);
            && Run(c, ticks).status == Closed && |ticks| == |frames| + 1
            && ticks[|frames|].now == c.retryTimer + 1000 * FramesIn(frames)
    decreases |frames|
  {
    hide Apply, Run;
    var frame := frames != [] && frames[0];
    var e := Tick(c.retryTimer, frame);
    var r := Apply(c, e);
    TickWaitsForTimer(c, c.retryTimer, frame);
    if frames == [] {
      RunFromFirst(c, e, []);
      RunOfNothing(r);
      assert [e] + [] == [e];
    } else {
      GivesUpAsSoon(r, frames[1..]);
      RunFromFirst(c, e, EagerTicks(r.retryTimer, frames[1..]));
    }
  }

  lemma {:induction false} FramesInAll(frames: seq<bool>)
    ensures FramesIn(frames) <= |frames|
    ensures FramesIn(frames) == |frames| <==> forall i | 0 <= i < |frames| :: frames[i]
  {
    if frames != [] {
      FramesInAll(frames[1..]);
      assert forall i | 0 < i < |frames| :: frames[i] == frames[1..][i - 1];
    }
  }

  /** So the five retries of a life are five seconds of waiting, however eager the ticks, if and only if each of them
      finds a frame. */
  lemma {:induction false} FiveWaitsIff(c: Tcb, frames: seq<bool>)
    requires Retries(c) && c.status != Finished && c.retryCounter == 0 && |frames| == 5
    ensures var ticks := EagerTicks(c.retryTimer, frames);
            && |ticks| == 6 && Run(c, ticks).status == Closed
            && (ticks[5].now >= c.retryTimer + 5000 <==> forall i | 0 <= i < 5 :: frames[i])
  {
    GivesUpAsSoon(c, frames);
    FramesInAll(frames);
    hide Run, EagerTicks, FramesIn;
  }
}

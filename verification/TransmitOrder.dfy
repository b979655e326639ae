/**
 Whether frames still go out in the order of their submission after one was given up: exactly when the one
 given up had several fragments, and then because nothing goes out at all.
 */
module TransmitOrder {
  import opened DescriptorRing
  import opened TransmitRing
  import opened TransmitFifo
  import opened TransmitHoles
  import opened Wrappers

  // The wire carries the beginning of what was submitted.
  ghost predicate InOrder(s: State) {
    s.wire <= Flatten(s.submitted)
  }

  // The run is continued, and from there on every frame created is published before the next one and the next poll.
  ghost predicate GoesOn(start: seq<Step>, all: seq<Step>) {
    start <= all && Run(all).Some? && DisciplinedFrom(all, |start|)
  }

  ghost predicate DisciplinedFrom(steps: seq<Step>, k: nat) {
    forall i | k <= i < |steps| && Run(steps[..i]).Some? :: Disciplined(Run(steps[..i]).value, steps[i])
  }

  lemma GoFurther(start: seq<Step>, steps: seq<Step>, step: Step) returns (all: seq<Step>)
    requires GoesOn(start, steps)
    requires Enabled(Run(steps).value, step) && Disciplined(Run(steps).value, step)
    ensures all == steps + [step] && GoesOn(start, all) && Run(all) == Some(Apply(Run(steps).value, step))
  {
    hide Enabled, Disciplined, Apply;
    all := steps + [step];
    RunExtends(steps, step);
    hide Run;
    forall i | |start| <= i < |all| && Run(all[..i]).Some? ensures Disciplined(Run(all[..i]).value, all[i]) {
      assert all[..i] == steps[..i];
      assert steps[..|steps|] == steps;
    }
  }

  // ---------------------------------------------------------------------------
  // Up to the hole
  // ---------------------------------------------------------------------------

  // Something was submitted behind the hole exactly if the window goes on behind it.
  ghost predicate Submits(s: State, runs: seq<seq<Fragment>>) {
    if s.tail == |Flatten(runs)| + 1 then s.submitted == runs
    else runs <= s.submitted && |s.submitted| > |runs| && s.submitted[|runs|] != []
  }

  // A hole of one fragment stands in the queue, and no frame is being written.
  ghost predicate AtHole(s: State, runs: seq<seq<Fragment>>) {
    Hole(s, runs, |Flatten(runs)| + 1) && s.pending.None? && Submits(s, runs)
  }

  lemma SameSubmits(s: State, r: State, runs: seq<seq<Fragment>>)
    requires Submits(s, runs) && r.submitted == s.submitted && r.tail == s.tail
    ensures Submits(r, runs)
  {
  }

  // The engine sends all that stands in front of the hole.
  lemma {:induction false} EngineReachesHole(start: seq<Step>, steps: seq<Step>, runs: seq<seq<Fragment>>)
    returns (all: seq<Step>)
    requires GoesOn(start, steps) && AtHole(Run(steps).value, runs)
    ensures GoesOn(start, all) && AtHole(Run(all).value, runs) && Run(all).value.dma == |Flatten(runs)|
    decreases |Flatten(runs)| - Run(steps).value.dma
  {
    hide Run, Hole, Flatten, DisciplinedFrom, Submits;
    var s := Run(steps).value;
    HoleRing(s, runs, |Flatten(runs)| + 1);
    HoleAhead(s, runs);
    all := steps;
    if s.dma < |Flatten(runs)| {
      all := GoFurther(start, steps, Engine(0));
      HoleEngine(s, 0, runs, |Flatten(runs)| + 1);
      SameSubmits(s, Run(all).value, runs);
      all := EngineReachesHole(start, all, runs);
    }
  }

  lemma HoleAhead(s: State, runs: seq<seq<Fragment>>)
    requires Hole(s, runs, |Flatten(runs)| + 1)
    ensures |s.ring| == RING_SIZE && s.head <= s.dma <= |Flatten(runs)| < s.tail <= s.head + RING_SIZE
    ensures s.dma < |Flatten(runs)| ==> s.ring[Slot(s.dma)].owned
    ensures s.walk.Some? ==>
              s.walk.value.left > 0 && s.head <= s.walk.value.peek <= |Flatten(runs)|
    ensures s.walk.Some? && s.dma == |Flatten(runs)| && s.walk.value.peek < |Flatten(runs)| ==>
              var d := s.ring[Slot(s.walk.value.peek)]; !d.owned && d.size > 0
  {
    hide Flatten, SumSizes;
    if s.walk.Some? {
      ShortWalk(s, runs);
    }
  }

  // How far the walk is from the hole.
  ghost function Unwalked(s: State, runs: seq<seq<Fragment>>): int {
    if s.walk.Some? then |Flatten(runs)| - s.walk.value.peek else 0
  }

  // Polls report what stands in front of the hole and reach it.
  lemma {:induction false} WalkReachesHole(start: seq<Step>, steps: seq<Step>, runs: seq<seq<Fragment>>)
    returns (all: seq<Step>)
    requires GoesOn(start, steps) && AtHole(Run(steps).value, runs) && Run(steps).value.dma == |Flatten(runs)|
    ensures GoesOn(start, all) && AtHole(Run(all).value, runs)
    ensures Run(all).value.walk.Some? && Run(all).value.walk.value.peek == |Flatten(runs)|
    decreases |Flatten(runs)| - Run(steps).value.head, Run(steps).value.walk.None?, Unwalked(Run(steps).value, runs)
  {
    hide Run, Hole, Flatten, DisciplinedFrom, Submits, Reclaimed;
    var s, n := Run(steps).value, |Flatten(runs)|;
    HoleAhead(s, runs);
    all := steps;
    if s.walk.None? {
      all := GoFurther(start, steps, BeginPoll);
      HoleBegin(s, runs, n + 1);
      SameSubmits(s, Run(all).value, runs);
      all := WalkReachesHole(start, all, runs);
    } else if s.walk.value.peek < n {
      all := GoFurther(start, steps, Visit);
      HoleVisitFront(s, runs, n + 1);
      SameSubmits(s, Run(all).value, runs);
      HoleAhead(Run(all).value, runs);
      all := WalkReachesHole(start, all, runs);
    }
  }

  // ---------------------------------------------------------------------------
  // Past the hole
  // ---------------------------------------------------------------------------

  // The hole was reported, and the engine waits at it.
  ghost predicate Waits(s: State, runs: seq<seq<Fragment>>) {
    && Passed(s, |Flatten(runs)|) && s.wire == Flatten(runs) && s.pending.None?
    && Submits(s, runs) && s.tail <= |Flatten(runs)| + RING_SIZE
  }

  lemma WalkPassesHole(start: seq<Step>, steps: seq<Step>, runs: seq<seq<Fragment>>) returns (all: seq<Step>)
    requires GoesOn(start, steps) && AtHole(Run(steps).value, runs)
    requires Run(steps).value.walk.Some? && Run(steps).value.walk.value.peek == |Flatten(runs)|
    ensures GoesOn(start, all) && Waits(Run(all).value, runs)
  {
    hide Run, Hole, Flatten, DisciplinedFrom, Submits, Reclaimed, Passed;
    var s, n := Run(steps).value, |Flatten(runs)|;
    HoleAhead(s, runs);
    all := GoFurther(start, steps, Visit);
    AbandonedFrameReportedIff(s, runs, n + 1);
    WalkMeetsHole(s, runs, n + 1);
    SameSubmits(s, Run(all).value, runs);
  }

  lemma PassedWalk(s: State, n: nat)
    requires Passed(s, n)
    ensures |s.ring| == RING_SIZE && RingInvariant(s) && s.dma == n && n + 1 <= s.head <= s.tail
    ensures s.walk.Some? ==> s.head <= s.walk.value.peek <= s.tail && s.walk.value.left > 0
  {
  }

  lemma {:induction false} WalkEnds(start: seq<Step>, steps: seq<Step>, runs: seq<seq<Fragment>>)
    returns (all: seq<Step>)
    requires GoesOn(start, steps) && Waits(Run(steps).value, runs)
    ensures GoesOn(start, all) && Waits(Run(all).value, runs) && Run(all).value.walk.None?
    decreases var s := Run(steps).value; if s.walk.Some? then 1 + s.tail - s.walk.value.peek else 0
  {
    hide Run, Flatten, DisciplinedFrom, Submits, Reclaimed, Passed, RingInvariant;
    var s, n := Run(steps).value, |Flatten(runs)|;
    all := steps;
    PassedWalk(s, n);
    if s.walk.Some? {
      all := GoFurther(start, steps, Visit);
      PassedStep(s, Visit, n);
      VisitsTerminate(s);
      SameSubmits(s, Run(all).value, runs);
      all := WalkEnds(start, all, runs);
    }
  }

  // ---------------------------------------------------------------------------
  // Around the ring
  // ---------------------------------------------------------------------------

  lemma PublishOne(start: seq<Step>, steps: seq<Step>, payloadLength: nat) returns (all: seq<Step>)
    requires GoesOn(start, steps) && payloadLength <= 2
    requires var s := Run(steps).value;
             RingInvariant(s) && s.tail < s.head + RING_SIZE && s.walk.None? && s.pending.None?
    ensures GoesOn(start, all)
    ensures SinglePublished(Run(steps).value, Run(all).value, 14 + payloadLength)
  {
    hide Run, DisciplinedFrom;
    var s := Run(steps).value;
    RingLength(s);
    CreatedSingle(s, payloadLength);
    var create := Create(true, payloadLength);
    NormalNotEmpty(s, create);
    CreatedKeeps(s, true, payloadLength);
    hide Created, RingInvariant, Slot, Contents, CreatesEmpty;
    all := GoFurther(start, steps, create);
    PublishedSingle(Run(all).value);
    PublishedKeeps(Run(all).value);
    all := GoFurther(start, all, Publish);
  }

  lemma OnePublished(s: State, r: State, size: nat, runs: seq<seq<Fragment>>)
    requires Waits(s, runs) && s.walk.None? && SinglePublished(s, r, size)
    ensures Passed(r, |Flatten(runs)|) && r.wire == Flatten(runs) && Submits(r, runs)
    ensures r.pending.None? && r.walk.None?
  {
    PassedWalk(s, |Flatten(runs)|);
    hide Flatten, RingInvariant, Slot;
    assert runs <= r.submitted;
    if |s.submitted| == |runs| {
      assert r.submitted[|runs|] == [Carried(r.ring[Slot(s.tail)])];
    }
  }

  lemma {:induction false} LapFills(start: seq<Step>, steps: seq<Step>, runs: seq<seq<Fragment>>)
    returns (all: seq<Step>)
    requires GoesOn(start, steps) && Waits(Run(steps).value, runs) && Run(steps).value.walk.None?
    ensures GoesOn(start, all) && Waits(Run(all).value, runs) && Run(all).value.walk.None?
    ensures Run(all).value.tail == |Flatten(runs)| + RING_SIZE
    decreases |Flatten(runs)| + RING_SIZE - Run(steps).value.tail
  {
    hide Run, Flatten, DisciplinedFrom, Submits, Passed, RingInvariant;
    var s, n := Run(steps).value, |Flatten(runs)|;
    all := steps;
    if s.tail < n + RING_SIZE {
      PassedWalk(s, n);
      all := PublishOne(start, steps, 1);
      OnePublished(s, Run(all).value, 15, runs);
      all := LapFills(start, all, runs);
    }
  }

  lemma FirstBehind(runs: seq<seq<Fragment>>, submitted: seq<seq<Fragment>>)
    requires runs <= submitted && |submitted| > |runs| && submitted[|runs|] != []
    ensures |Flatten(submitted)| > |Flatten(runs)|
    ensures Flatten(submitted)[|Flatten(runs)|] == submitted[|runs|][0]
  {
    var r := |runs|;
    assert submitted[..r] == runs;
    RunInFlatten(submitted, r);
    assert Start(submitted, r) == |Flatten(runs)|;
    hide Flatten, Start;
    assert Flatten(submitted)[Start(submitted, r)..Start(submitted, r) + |submitted[r]|][0] == submitted[r][0];
  }

  // One more frame takes the engine's descriptor, and the engine sends it first.
  lemma LastGoesFirst(start: seq<Step>, steps: seq<Step>, runs: seq<seq<Fragment>>) returns (all: seq<Step>)
    requires GoesOn(start, steps) && Waits(Run(steps).value, runs) && Run(steps).value.walk.None?
    requires Run(steps).value.tail == |Flatten(runs)| + RING_SIZE
    ensures GoesOn(start, all) && !InOrder(Run(all).value)
    ensures var r := Run(all).value; r.submitted != [] && r.wire == Flatten(runs) + r.submitted[|r.submitted| - 1]
  {
    hide Run, Flatten, DisciplinedFrom, Passed, RingInvariant;
    var s, n := Run(steps).value, |Flatten(runs)|;
    PassedWalk(s, n);
    var first := s.submitted[|runs|][0];
    var length := if first.size == 15 then 2 else 1;
    all := PublishOne(start, steps, length);
    var t := Run(all).value;
    OnePublished(s, t, 14 + length, runs);
    PassedWalk(t, n);
    SlotWraps(n);
    all := GoFurther(start, all, Engine(0));
    var r := Run(all).value;
    assert t.submitted[|runs|] == s.submitted[|runs|];
    FirstBehind(runs, t.submitted);
    assert r.wire[n].size == 14 + length;
  }

  // ---------------------------------------------------------------------------
  // The order after a frame was given up
  // ---------------------------------------------------------------------------

  // The frame given up has one fragment.
  lemma ShortGivenUp(steps: seq<Step>, step: Step) returns (all: seq<Step>, runs: seq<seq<Fragment>>)
    requires Run(steps).Some? && DisciplinedRun(steps)
    requires var s := Run(steps).value;
             Enabled(s, step) && Abandons(s, step) && !CreatesEmpty(s, step) && s.tail == s.pending.value + 1
    ensures GoesOn(steps + [step], all) && runs == Run(steps).value.submitted && AtHole(Run(all).value, runs)
  {
    hide Run, Flatten, Hole, CreatesEmpty, Created, Creates;
    var s := Run(steps).value;
    runs := s.submitted;
    RunsKeepFifo(steps);
    AbandoningLeavesHole(s, step);
    RunExtends(steps, step);
    hide FifoInvariant;
    all := steps + [step];
    var r := Run(all).value;
    if step.Create? {
      PublishGivesUp(s, step.linkStatus, step.payloadLength);
      all := GoFurther(steps + [step], all, Publish);
    }
  }

  // Giving up by creating another frame: that one is published next.
  lemma PublishGivesUp(s: State, linkStatus: bool, payloadLength: nat)
    requires FifoInvariant(s) && Enabled(s, Create(linkStatus, payloadLength))
    requires Creates(s, linkStatus, payloadLength) && !CreatesEmpty(s, Create(linkStatus, payloadLength))
    requires s.pending.Some? && s.tail == s.pending.value + 1
    requires Hole(Created(s, linkStatus, payloadLength), s.submitted, s.tail)
    ensures var r := Created(s, linkStatus, payloadLength);
            Enabled(r, Publish) && AtHole(Published(r), s.submitted)
  {
    CreateIsExact(s, linkStatus, payloadLength);
    var r := Created(s, linkStatus, payloadLength);
    hide Flatten, Hole, FragmentCount, Reserved, TotalLength, Creates, CreatesEmpty;
    HoleStep(r, Publish, s.submitted, s.tail);
  }

  /** Giving up a frame of one fragment breaks the order, however careful the driver is from then on: some
      continuation sends the frame submitted last before the first one behind the hole. */
  lemma {:induction false} OrderBreaksAfter(steps: seq<Step>, step: Step) returns (all: seq<Step>)
    requires Run(steps).Some? && DisciplinedRun(steps)
    requires var s := Run(steps).value;
             Enabled(s, step) && Abandons(s, step) && !CreatesEmpty(s, step) && s.tail == s.pending.value + 1
    ensures GoesOn(steps + [step], all) && !InOrder(Run(all).value)
    ensures var s, r := Run(steps).value, Run(all).value;
            r.submitted != [] && r.wire == Flatten(s.submitted) + r.submitted[|r.submitted| - 1]
  {
    hide Run, DisciplinedFrom, AtHole, Waits, InOrder, Flatten, Enabled, Abandons, CreatesEmpty;
    var start := steps + [step];
    var runs;
    all, runs := ShortGivenUp(steps, step);
    all := EngineReachesHole(start, all, runs);
    all := WalkReachesHole(start, all, runs);
    all := WalkPassesHole(start, all, runs);
    all := WalkEnds(start, all, runs);
    all := LapFills(start, all, runs);
    all := LastGoesFirst(start, all, runs);
  }

  lemma SubmittedGrows(s: State, step: Step)
    requires Enabled(s, step)
    ensures s.submitted <= Apply(s, step).submitted
  {
    hide Reserved, HasRoom, Reclaimed;
  }

  lemma {:induction false} SubmittedStays(steps: seq<Step>, all: seq<Step>)
    requires steps <= all && Run(all).Some?
    ensures Run(steps).Some? && Run(steps).value.submitted <= Run(all).value.submitted
    decreases |all|
  {
    hide Enabled, Apply;
    if steps != all {
      var n := |all| - 1;
      SubmittedStays(steps, all[..n]);
      SubmittedGrows(Run(all[..n]).value, all[n]);
    }
  }

  lemma {:induction false} FlattenGrows(runs: seq<seq<Fragment>>, more: seq<seq<Fragment>>)
    requires runs <= more
    ensures Flatten(runs) <= Flatten(more)
    decreases |more|
  {
    if runs != more {
      FlattenGrows(runs, more[..|more| - 1]);
    }
  }

  // Careful driving creates no empty frame.
  lemma CarefulNeverEmpty(steps: seq<Step>, step: Step, all: seq<Step>)
    requires Run(steps).Some? && DisciplinedRun(steps) && GoesOn(steps + [step], all)
    requires |Run(steps).value.ring| == RING_SIZE && !CreatesEmpty(Run(steps).value, step)
    ensures NeverCreatesEmpty(all)
  {
    hide Run, CreatesEmpty;
    forall i | 0 <= i < |all| && Run(all[..i]).Some? && |Run(all[..i]).value.ring| == RING_SIZE
      ensures !CreatesEmpty(Run(all[..i]).value, all[i])
    {
      if i < |steps| {
        assert all[..i] == steps[..i] && all[i] == steps[i];
        NormalNotEmpty(Run(all[..i]).value, all[i]);
      } else if i == |steps| {
        assert all[..i] == steps && all[i] == step;
      } else {
        NormalNotEmpty(Run(all[..i]).value, all[i]);
      }
    }
  }

  /** After one frame was given up by an otherwise careful driver, what goes out stays in the order of submission
      over every careful continuation if and only if that frame had several fragments. */
  lemma {:induction false} OrderKeptIff(steps: seq<Step>, step: Step)
    requires Run(steps).Some? && DisciplinedRun(steps)
    requires var s := Run(steps).value; Enabled(s, step) && Abandons(s, step) && !CreatesEmpty(s, step)
    ensures (forall all | GoesOn(steps + [step], all) :: InOrder(Run(all).value))
            <==> Run(steps).value.tail > Run(steps).value.pending.value + 1
  {
    hide Run, DisciplinedFrom, Flatten, CreatesEmpty, Creates;
    var s := Run(steps).value;
    RunsKeepFifo(steps);
    PendingHasFragments(s);
    if s.tail > s.pending.value + 1 {
      forall all | GoesOn(steps + [step], all) ensures InOrder(Run(all).value) {
        CarefulNeverEmpty(steps, step, all);
        var more := all[|steps| + 1..];
        assert all == steps + [step] + more;
        LongHoleBlocks(steps, step, more);
        assert steps <= all;
        SubmittedStays(steps, all);
        FlattenGrows(s.submitted, Run(all).value.submitted);
        PrefixOfPrefix(Run(all).value.wire, Flatten(s.submitted), Flatten(Run(all).value.submitted));
      }
    } else {
      var all := OrderBreaksAfter(steps, step);
    }
  }

  lemma PendingHasFragments(s: State)
    requires FifoInvariant(s) && s.pending.Some?
    ensures s.tail >= s.pending.value + 1 && |s.ring| == RING_SIZE
  {
  }

  lemma PrefixOfPrefix(a: seq<Fragment>, b: seq<Fragment>, c: seq<Fragment>)
    requires |a| <= |b| && a == b[..|a|] && b <= c
    ensures a <= c
  {
  }
}

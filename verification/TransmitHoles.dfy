/**
 Frames that are created and never published, which the source lists as open: holes in the transmit queue.

 In front of a hole everything goes out as without it.  Nothing behind a hole of several fragments is ever
 sent or reported; a hole of one fragment is reported although it was not sent, and after that the engine
 waits at a descriptor the driver has left.
 */
module TransmitHoles {
  import opened DescriptorRing
  import opened TransmitRing
  import opened TransmitFifo
  import opened Wrappers

  // The frames `runs` were submitted in front of the hole, which reaches to position `end`; nobody publishes it.
  ghost predicate Hole(s: State, runs: seq<seq<Fragment>>, end: nat) {
    var n := |Flatten(runs)|;
    && RingInvariant(s) && QueueOf(s, runs)
    && n < end <= s.tail && FreshFrame(s.ring, n, end)
    && (s.pending.Some? ==> s.pending.value >= end)
    && (WalkCounts(s, runs) || (s.head == n && s.walk.Some? && s.walk.value.peek == n + 1))
  }

  // The step gives up the frame created last.
  predicate Abandons(s: State, step: Step)
    requires |s.ring| == RING_SIZE
  {
    s.pending.Some? && (step.BeginPoll? || (step.Create? && Creates(s, step.linkStatus, step.payloadLength)))
  }

  // The ring is the same from head to the end of the hole.
  ghost predicate SameFront(s: State, r: State, end: nat)
    requires |s.ring| == |r.ring| == RING_SIZE
  {
    forall p {:trigger Slot(p)} | s.head <= p < end :: r.ring[Slot(p)] == s.ring[Slot(p)]
  }

  lemma FrontKeepsHole(s: State, r: State, runs: seq<seq<Fragment>>, end: nat)
    requires RingInvariant(s) && QueueOf(s, runs) && |Flatten(runs)| < end <= s.tail
    requires FreshFrame(s.ring, |Flatten(runs)|, end)
    requires RingInvariant(r) && SameFront(s, r, end) && end <= r.tail
    requires r.head == s.head && r.dma == s.dma && r.wire == s.wire && r.statuses == s.statuses
    requires r.reports == s.reports
    ensures QueueOf(r, runs) && FreshFrame(r.ring, |Flatten(runs)|, end)
  {
    hide Flatten, Slot;
    SameQueue(s, r, runs);
  }

  lemma BegunCounts(s: State, runs: seq<seq<Fragment>>)
    requires |s.ring| == RING_SIZE && QueueOf(s, runs)
    ensures WalkCounts(PollBegun(s), runs)
  {
    hide Matches, SumSizes, Flatten;
    assert Flatten(runs)[s.head..s.head] == [];
    NoSizes();
  }

  /** Giving up a frame leaves a hole behind the frames submitted. */
  lemma {:induction false} AbandoningLeavesHole(s: State, step: Step)
    requires FifoInvariant(s) && Enabled(s, step) && Abandons(s, step) && !CreatesEmpty(s, step)
    ensures Hole(Apply(s, step), s.submitted, s.tail)
  {
    StepKeepsIff(s, step);
    if step.Create? {
      CreatedFront(s, step.linkStatus, step.payloadLength);
    } else {
      BegunCounts(s, s.submitted);
    }
    hide RingInvariant, QueueOf, Created, Flatten, SumSizes, FreshFrame, CreatesEmpty, Slot;
    FrontKeepsHole(s, Apply(s, step), s.submitted, s.tail);
  }

  // What a frame created changes lies behind the tail.
  lemma CreatedFront(s: State, linkStatus: bool, payloadLength: nat)
    requires RingInvariant(s) && Enabled(s, Create(linkStatus, payloadLength))
    requires !CreatesEmpty(s, Create(linkStatus, payloadLength))
    ensures var r := Created(s, linkStatus, payloadLength);
            && |r.ring| == RING_SIZE && SameFront(s, r, s.tail) && r.tail >= s.tail
            && r == s.(ring := r.ring, tail := r.tail, pending := r.pending)
            && r.pending in {s.pending, Some(s.tail)}
  {
    CreateIsExact(s, linkStatus, payloadLength);
    hide Creates, Contents, FreshFrame, SumSizes, TotalLength, FragmentCount, Slot;
  }

  // ---------------------------------------------------------------------------
  // What every step keeps of a hole
  // ---------------------------------------------------------------------------

  lemma HoleCreate(s: State, linkStatus: bool, payloadLength: nat, runs: seq<seq<Fragment>>, end: nat)
    requires Hole(s, runs, end)
    requires Enabled(s, Create(linkStatus, payloadLength)) && !CreatesEmpty(s, Create(linkStatus, payloadLength))
    ensures Hole(Created(s, linkStatus, payloadLength), runs, end)
  {
    CreatedFront(s, linkStatus, payloadLength);
    CreatedKeeps(s, linkStatus, payloadLength);
    hide RingInvariant, QueueOf, Created, Flatten, SumSizes, FreshFrame, CreatesEmpty, Slot;
    FrontKeepsHole(s, Created(s, linkStatus, payloadLength), runs, end);
  }

  // A descriptor behind the hole is written or published.
  lemma HoleUpdate(s: State, r: State, p: nat, d: Descriptor, runs: seq<seq<Fragment>>, end: nat)
    requires Hole(s, runs, end) && end <= p < s.tail && s.walk.None?
    requires d.size == s.ring[Slot(p)].size && d.first == s.ring[Slot(p)].first && d.last == s.ring[Slot(p)].last
    requires r == s.(ring := s.ring[Slot(p) := d], pending := r.pending, submitted := r.submitted)
    requires r.pending.None? || r.pending == s.pending
    requires RingInvariant(r)
    ensures Hole(r, runs, end)
  {
    UpdateKeepsWindow(s.ring, s.head, s.tail, p, d);
    hide RingInvariant, Flatten, SumSizes, FreshFrame, Slot, WellFormedRun, ReportsRun;
    FrontKeepsHole(s, r, runs, end);
  }

  lemma HoleEngine(s: State, errors: nat, runs: seq<seq<Fragment>>, end: nat)
    requires Hole(s, runs, end)
    ensures Hole(EngineStepped(s, errors), runs, end)
    ensures s.dma == |Flatten(runs)| ==> EngineStepped(s, errors) == s
  {
    hide Flatten, SumSizes, Start, ReportsRun, WellFormedRun;
    var n := |Flatten(runs)|;
    if s.dma < n {
      assert s.ring[Slot(s.dma)].owned;
      EngineKeeps(s, errors);
      EngineQueue(s, runs, errors);
      var d := s.ring[Slot(s.dma)].(owned := false, errors := errors);
      UpdateKeepsWindow(s.ring, s.head, s.tail, s.dma, d);
      hide RingInvariant, QueueOf, Slot;
      var r := EngineStepped(s, errors);
      forall p | n <= p < end ensures r.ring[Slot(p)] == s.ring[Slot(p)] {
        assert s.dma != p;
      }
    }
  }

  lemma {:induction false} FrontEndsLast(runs: seq<seq<Fragment>>)
    requires Flatten(runs) != [] && forall run | run in runs :: WellFormedRun(run)
    ensures Flatten(runs)[|Flatten(runs)| - 1].last
  {
    var run := runs[|runs| - 1];
    assert WellFormedRun(run);
    assert Flatten(runs)[|Flatten(runs)| - 1] == run[|run| - 1];
  }

  lemma LastBeforeHole(s: State, runs: seq<seq<Fragment>>)
    requires |s.ring| == RING_SIZE && QueueOf(s, runs)
    ensures s.head < |Flatten(runs)| ==> s.ring[Slot(|Flatten(runs)| - 1)].last
  {
    var n := |Flatten(runs)|;
    if s.head < n {
      FrontEndsLast(runs);
      hide Flatten;
      assert Carried(s.ring[Slot(n - 1)]) == Flatten(runs)[n - 1];
    }
  }

  // A walk that reaches the hole reported everything in front of it, and all of that was sent.
  lemma WalkMeetsHole(s: State, runs: seq<seq<Fragment>>, end: nat)
    requires Hole(s, runs, end) && s.walk.Some? && s.walk.value.peek == |Flatten(runs)|
    ensures s.head == s.dma == |Flatten(runs)| && s.wire == Flatten(runs) && |s.reports| == |runs|
    ensures s.walk.value.length == 0
  {
    var n := |Flatten(runs)|;
    LastBeforeHole(s, runs);
    assert Flatten(runs)[n..n] == [];
    hide Flatten, Slot, Window;
    NoSizes();
    if |s.reports| < |runs| {
      StartSteps(runs, |s.reports|);
      assert WellFormedRun(runs[|s.reports|]);
      StartWithin(runs, |s.reports| + 1);
    }
  }

  // A visit in front of the hole.
  lemma HoleVisitFront(s: State, runs: seq<seq<Fragment>>, end: nat)
    requires Hole(s, runs, end) && Enabled(s, Visit) && s.walk.value.peek < |Flatten(runs)|
    ensures Hole(Visited(s), runs, end)
  {
    hide Flatten, SumSizes, Start, ReportsRun, WellFormedRun, Reclaimed;
    VisitedKeeps(s);
    var peek, n := s.walk.value.peek, |Flatten(runs)|;
    assert s.ring[Slot(peek)].owned <==> peek >= s.dma;
    VisitQueue(s, runs);
    var d := s.ring[Slot(peek)];
    if !d.owned && d.size > 0 && d.last {
      ReclaimKeepsWindow(s.ring, s.head, s.tail, peek);
    }
    hide RingInvariant, QueueOf, WalkCounts, Slot;
    assert forall p {:trigger Slot(p)} | n <= p < end :: Visited(s).ring[Slot(p)] == s.ring[Slot(p)];
  }

  // A visit at a hole of several fragments, or right behind its first one, leads no further.
  lemma HoleVisitAt(s: State, runs: seq<seq<Fragment>>, end: nat)
    requires Hole(s, runs, end) && Enabled(s, Visit) && s.walk.value.peek >= |Flatten(runs)|
    requires end > |Flatten(runs)| + 1
    ensures Hole(Visited(s), runs, end)
    ensures Visited(s) == s.(walk := Visited(s).walk)
  {
    hide Flatten, SumSizes, Start, ReportsRun, WellFormedRun, Reclaimed, Matches;
    VisitedKeeps(s);
    var n := |Flatten(runs)|;
    assert s.ring[Slot(n)].size > 0;
    assert s.ring[Slot(n + 1)].owned;
    if s.walk.value.peek == n {
      WalkMeetsHole(s, runs, end);
      hide RingInvariant;
      assert Visited(s) == s.(walk := Visited(s).walk);
    }
  }

  lemma HoleBegin(s: State, runs: seq<seq<Fragment>>, end: nat)
    requires Hole(s, runs, end) && Enabled(s, BeginPoll)
    ensures Hole(PollBegun(s), runs, end)
  {
    PollBegunKeeps(s);
    BegunCounts(s, runs);
    hide RingInvariant, Flatten, FreshFrame;
  }

  // Any step but a visit.
  lemma HoleStep(s: State, step: Step, runs: seq<seq<Fragment>>, end: nat)
    requires Hole(s, runs, end) && Enabled(s, step) && !CreatesEmpty(s, step) && !step.Visit?
    ensures Hole(Apply(s, step), runs, end)
  {
    hide Created, EngineStepped, PollBegun, CreatesEmpty, Flatten, QueueOf, WalkCounts, FreshFrame, Window, Contents;
    StepKeepsIff(s, step);
    match step
    case Create(linkStatus, payloadLength) => HoleCreate(s, linkStatus, payloadLength, runs, end);
    case Write(j, data) =>
      var p := s.pending.value + j;
      HoleUpdate(s, Written(s, j, data), p, s.ring[Slot(p)].(data := data), runs, end);
    case Publish =>
      var p := s.pending.value;
      HoleUpdate(s, Published(s), p, s.ring[Slot(p)].(owned := true), runs, end);
    case Engine(errors) => HoleEngine(s, errors, runs, end);
    case BeginPoll => HoleBegin(s, runs, end);
  }

  // ---------------------------------------------------------------------------
  // A hole of several fragments
  // ---------------------------------------------------------------------------

  lemma LongHoleStep(s: State, step: Step, runs: seq<seq<Fragment>>, end: nat)
    requires Hole(s, runs, end) && end > |Flatten(runs)| + 1
    requires Enabled(s, step) && !CreatesEmpty(s, step)
    ensures Hole(Apply(s, step), runs, end)
  {
    hide Hole, CreatesEmpty, Flatten, Visited;
    if !step.Visit? {
      HoleStep(s, step, runs, end);
    } else if s.walk.value.peek < |Flatten(runs)| {
      HoleVisitFront(s, runs, end);
    } else {
      HoleVisitAt(s, runs, end);
    }
  }

  lemma {:induction false} LongHoleForever(steps: seq<Step>, more: seq<Step>, runs: seq<seq<Fragment>>, end: nat)
    requires Run(steps).Some? && Hole(Run(steps).value, runs, end) && end > |Flatten(runs)| + 1
    requires Run(steps + more).Some? && NeverCreatesEmpty(steps + more)
    ensures Hole(Run(steps + more).value, runs, end)
  {
    hide Hole, Enabled, Apply, CreatesEmpty, Flatten;
    var all := steps + more;
    if more == [] {
      assert all == steps;
    } else {
      var n := |more| - 1;
      assert all[..|all| - 1] == steps + more[..n];
      NeverEmptyFront(all, |all| - 1);
      LongHoleForever(steps, more[..n], runs, end);
      HoleRing(Run(steps + more[..n]).value, runs, end);
      LongHoleStep(Run(steps + more[..n]).value, more[n], runs, end);
    }
  }

  lemma HoleRing(s: State, runs: seq<seq<Fragment>>, end: nat)
    requires Hole(s, runs, end)
    ensures |s.ring| == RING_SIZE
  {
  }

  // Exactly the frames in front of the hole go out and are reported, in order.
  ghost predicate OnlyFront(s: State, runs: seq<seq<Fragment>>) {
    && |s.wire| <= |Flatten(runs)| && s.wire == Flatten(runs)[..|s.wire|]
    && |s.reports| <= |runs| && |s.statuses| == |s.wire|
    && forall i | 0 <= i < |s.reports| :: ReportsRun(s.reports[i], runs, s.statuses, i)
  }

  /** A frame of several fragments that is given up blocks the ring for good: whatever is created, published and
      polled after it, the engine sends and the polls report only what was submitted before it. */
  lemma {:induction false} LongHoleBlocks(steps: seq<Step>, step: Step, more: seq<Step>)
    requires Run(steps).Some? && DisciplinedRun(steps)
    requires var s := Run(steps).value; Enabled(s, step) && Abandons(s, step) && s.tail > s.pending.value + 1
    requires Run(steps + [step] + more).Some? && NeverCreatesEmpty(steps + [step] + more)
    ensures OnlyFront(Run(steps + [step] + more).value, Run(steps).value.submitted)
  {
    var s, all := Run(steps).value, steps + [step] + more;
    RunsKeepFifo(steps);
    hide Run, Hole, CreatesEmpty, Abandons, Flatten, FreshFrame, QueueOf, RingInvariant, WalkCounts;
    NeverEmptyFront(all, |steps|);
    assert all[..|steps|] == steps && all[|steps|] == step;
    AbandoningLeavesHole(s, step);
    RunExtends(steps, step);
    LongHoleForever(steps + [step], more, s.submitted, s.tail);
    HoleSendsFront(Run(all).value, s.submitted, s.tail);
  }

  lemma HoleSendsFront(s: State, runs: seq<seq<Fragment>>, end: nat)
    requires Hole(s, runs, end)
    ensures OnlyFront(s, runs)
  {
    hide Flatten, Matches, FreshFrame, RingInvariant, ReportsRun;
  }

  // ---------------------------------------------------------------------------
  // A hole of one fragment
  // ---------------------------------------------------------------------------

  // The driver left the descriptor the engine waits at.
  ghost predicate Passed(s: State, n: nat) {
    RingInvariant(s) && s.dma == n < s.head
  }

  /** A poll that reaches a hole has reported every frame in front of it, all of them sent.  It reports the hole
      as well, although the engine never sent it, if and only if the hole is one fragment. */
  lemma {:induction false} AbandonedFrameReportedIff(s: State, runs: seq<seq<Fragment>>, end: nat)
    requires Hole(s, runs, end) && Enabled(s, Visit) && s.walk.value.peek == |Flatten(runs)|
    ensures var n, r := |Flatten(runs)|, Visited(s);
            && s.wire == r.wire == Flatten(runs) && |s.reports| == |runs|
            && (r.reports != s.reports <==> end == n + 1)
            && (end == n + 1 ==>
                  && r.reports == s.reports + [Report(s.ring[Slot(n)].errors, s.ring[Slot(n)].size, Slot(n))]
                  && Passed(r, n))
            && (end > n + 1 ==> Hole(r, runs, end))
  {
    var n := |Flatten(runs)|;
    WalkMeetsHole(s, runs, end);
    VisitedKeeps(s);
    assert s.ring[Slot(n)].size > 0;
    if end > n + 1 {
      HoleVisitAt(s, runs, end);
    }
    hide Flatten, Reclaimed, SumSizes, Start, Matches, RingInvariant;
  }

  // Before and after it is reported: nothing behind the hole was sent.
  ghost predicate ShortHole(s: State, runs: seq<seq<Fragment>>) {
    var n := |Flatten(runs)|;
    Hole(s, runs, n + 1) || (Passed(s, n) && s.wire == Flatten(runs))
  }

  // Until a hole of one fragment is reported, every step keeps it.
  lemma {:induction false} ShortHoleStep(s: State, step: Step, runs: seq<seq<Fragment>>)
    requires Hole(s, runs, |Flatten(runs)| + 1) && Enabled(s, step) && !CreatesEmpty(s, step)
    ensures ShortHole(Apply(s, step), runs)
  {
    hide CreatesEmpty, Flatten, Visited, Hole, Passed;
    var n := |Flatten(runs)|;
    if !step.Visit? {
      HoleStep(s, step, runs, n + 1);
    } else if s.walk.value.peek < n {
      HoleVisitFront(s, runs, n + 1);
    } else {
      ShortWalk(s, runs);
      AbandonedFrameReportedIff(s, runs, n + 1);
    }
  }

  lemma HoleWire(s: State, runs: seq<seq<Fragment>>, end: nat)
    requires Hole(s, runs, end)
    ensures s.wire <= Flatten(runs)
  {
    hide Flatten, Matches, FreshFrame, RingInvariant;
  }

  lemma ShortWalk(s: State, runs: seq<seq<Fragment>>)
    requires Hole(s, runs, |Flatten(runs)| + 1) && s.walk.Some?
    ensures s.walk.value.peek <= |Flatten(runs)|
  {
    hide Flatten, Matches, SumSizes;
    assert s.ring[Slot(|Flatten(runs)|)].last;
  }

  // Once the hole is passed, the engine waits until the window comes around to its descriptor.
  lemma PassedStep(s: State, step: Step, n: nat)
    requires Passed(s, n) && s.tail <= n + RING_SIZE && Enabled(s, step) && !CreatesEmpty(s, step)
    ensures Passed(Apply(s, step), n) && Apply(s, step).wire == s.wire && Apply(s, step).tail >= s.tail
  {
    StepKeepsIff(s, step);
    SlotWraps(n);
    assert !s.ring[Slot(n + RING_SIZE)].owned;
    hide Slot, RingInvariant, CreatesEmpty, Reclaimed, Contents, Reserved, HasRoom;
  }

  lemma ShortStep(s: State, step: Step, runs: seq<seq<Fragment>>)
    requires ShortHole(s, runs) && s.tail <= |Flatten(runs)| + RING_SIZE && Enabled(s, step) && !CreatesEmpty(s, step)
    ensures ShortHole(Apply(s, step), runs)
  {
    hide CreatesEmpty, Flatten, Hole, Passed, Apply;
    if Hole(s, runs, |Flatten(runs)| + 1) {
      ShortHoleStep(s, step, runs);
    } else {
      PassedStep(s, step, |Flatten(runs)|);
    }
  }

  lemma {:induction false} ShortHoleWhile(steps: seq<Step>, more: seq<Step>, runs: seq<seq<Fragment>>)
    requires Run(steps).Some? && ShortHole(Run(steps).value, runs)
    requires Run(steps + more).Some? && NeverCreatesEmpty(steps + more)
    requires Run(steps + more).value.tail <= |Flatten(runs)| + RING_SIZE
    ensures ShortHole(Run(steps + more).value, runs)
  {
    hide ShortHole, Enabled, Apply, CreatesEmpty, Flatten;
    var all := steps + more;
    if more == [] {
      assert all == steps;
    } else {
      var k := |more| - 1;
      var before := steps + more[..k];
      assert all[..|all| - 1] == before;
      NeverEmptyFront(all, |all| - 1);
      TailGrows(Run(before).value, more[k]);
      ShortHoleWhile(steps, more[..k], runs);
      ShortRing(Run(before).value, runs);
      ShortStep(Run(before).value, more[k], runs);
    }
  }

  /** A frame of one fragment that is given up stops the engine: until a later frame takes its descriptor one lap
      on, only what was submitted before it is sent. */
  lemma {:induction false} ShortHoleWaits(steps: seq<Step>, step: Step, more: seq<Step>)
    requires Run(steps).Some? && DisciplinedRun(steps)
    requires var s := Run(steps).value; Enabled(s, step) && Abandons(s, step) && s.tail == s.pending.value + 1
    requires Run(steps + [step] + more).Some? && NeverCreatesEmpty(steps + [step] + more)
    requires Run(steps + [step] + more).value.tail <= Run(steps).value.pending.value + RING_SIZE
    ensures Run(steps + [step] + more).value.wire <= Flatten(Run(steps).value.submitted)
  {
    var s, all := Run(steps).value, steps + [step] + more;
    RunsKeepFifo(steps);
    hide Run, Hole, CreatesEmpty, Abandons, Flatten, FreshFrame, QueueOf, RingInvariant, WalkCounts;
    NeverEmptyFront(all, |steps|);
    assert all[..|steps|] == steps && all[|steps|] == step;
    AbandoningLeavesHole(s, step);
    RunExtends(steps, step);
    ShortHoleWhile(steps + [step], more, s.submitted);
    if Hole(Run(all).value, s.submitted, s.tail) {
      HoleWire(Run(all).value, s.submitted, s.tail);
    }
  }

  lemma ShortRing(s: State, runs: seq<seq<Fragment>>)
    requires ShortHole(s, runs)
    ensures |s.ring| == RING_SIZE
  {
  }

  lemma TailGrows(s: State, step: Step)
    requires Enabled(s, step)
    ensures Apply(s, step).tail >= s.tail
  {
    hide Reclaimed, Reserved, Contents, HasRoom;
  }

  // ---------------------------------------------------------------------------
  // A run that breaks the order
  // ---------------------------------------------------------------------------

  // No length wraps.
  ghost predicate NormalLengths(steps: seq<Step>) {
    forall step | step in steps && step.Create? :: step.payloadLength <= 65521
  }

  // The first frame was given up and reported, and k frames of one fragment were published behind it.
  ghost predicate Behind(s: State, k: nat) {
    && RingInvariant(s) && s.head == 1 && s.tail == 1 + k && s.dma == 0 && s.wire == []
    && s.walk.None? && s.pending.None?
    && |s.submitted| == k && |s.reports| == 1
    && forall i | 0 <= i < k :: |s.submitted[i]| == 1 && s.submitted[i][0].size == 15
  }

  lemma TakeStep(steps: seq<Step>, step: Step)
    requires Run(steps).Some? && RingInvariant(Run(steps).value) && Enabled(Run(steps).value, step)
    requires step.Create? ==> step.payloadLength <= 65521
    requires NormalLengths(steps)
    ensures Run(steps + [step]) == Some(Apply(Run(steps).value, step))
    ensures RingInvariant(Run(steps + [step]).value) && NormalLengths(steps + [step])
  {
    hide Run, Apply, RingInvariant, Enabled;
    RingLength(Run(steps).value);
    NormalNotEmpty(Run(steps).value, step);
    RunExtends(steps, step);
    StepKeepsIff(Run(steps).value, step);
  }

  lemma NormalNotEmpty(s: State, step: Step)
    requires |s.ring| == RING_SIZE && (step.Create? ==> step.payloadLength <= 65521)
    ensures !CreatesEmpty(s, step)
  {
    hide Creates;
  }

  lemma SingleFragment(payloadLength: nat)
    requires payloadLength <= 2
    ensures TotalLength(payloadLength) == 14 + payloadLength && FragmentCount(TotalLength(payloadLength)) == 1
    ensures FragmentSize(TotalLength(payloadLength), 0) == 14 + payloadLength
  {
  }

  lemma CreatedSingle(s: State, payloadLength: nat)
    requires RingInvariant(s) && s.tail < s.head + RING_SIZE && payloadLength <= 2
    ensures var r := Created(s, true, payloadLength);
            && r == s.(ring := r.ring, tail := s.tail + 1, pending := Some(s.tail))
            && |r.ring| == RING_SIZE && r.ring[Slot(s.tail)].size == 14 + payloadLength
  {
    SingleFragment(payloadLength);
    assert s.ring[Slot(s.tail)].size == 0;
    var total := TotalLength(payloadLength);
    ReservedAt(s.ring, s.tail, total, 1);
    hide TotalLength, FragmentCount, FragmentSize, Slot, Reserved;
    assert Created(s, true, payloadLength).ring == Reserved(s.ring, s.tail, total, 1);
  }

  // From s to r one frame of one fragment was published.
  ghost predicate SinglePublished(s: State, r: State, size: nat) {
    && RingInvariant(r) && r.tail == s.tail + 1 && r.walk.None? && r.pending.None?
    && r.head == s.head && r.dma == s.dma && r.wire == s.wire && r.reports == s.reports
    && |r.ring| == RING_SIZE && r.ring[Slot(s.tail)].owned && r.ring[Slot(s.tail)].size == size
    && r.submitted == s.submitted + [[Carried(r.ring[Slot(s.tail)])]]
  }

  lemma PublishedSingle(s: State)
    requires |s.ring| == RING_SIZE && s.pending.Some? && s.tail == s.pending.value + 1
    ensures var r := Published(s);
            && |r.ring| == RING_SIZE && r.ring[Slot(s.pending.value)].owned
            && r.ring[Slot(s.pending.value)].size == s.ring[Slot(s.pending.value)].size
            && r.submitted == s.submitted + [[Carried(r.ring[Slot(s.pending.value)])]]
  {
    var p := s.pending.value;
    assert Contents(s.ring, p, p + 1, Carried) == [Carried(s.ring[Slot(p)])];
  }

  lemma PublishSingle(steps: seq<Step>, payloadLength: nat) returns (all: seq<Step>)
    requires Run(steps).Some? && NormalLengths(steps) && payloadLength <= 2
    requires var s := Run(steps).value;
             RingInvariant(s) && s.tail < s.head + RING_SIZE && s.walk.None? && s.pending.None?
    ensures Run(all).Some? && NormalLengths(all)
    ensures SinglePublished(Run(steps).value, Run(all).value, 14 + payloadLength)
  {
    hide Run, NormalLengths;
    CreatedSingle(Run(steps).value, payloadLength);
    RingLength(Run(steps).value);
    hide Created, Slot, RingInvariant, Contents;
    TakeStep(steps, Create(true, payloadLength));
    all := steps + [Create(true, payloadLength)];
    PublishedSingle(Run(all).value);
    TakeStep(all, Publish);
    all := all + [Publish];
  }

  lemma BehindGrows(s: State, r: State, k: nat)
    requires Behind(s, k) && SinglePublished(s, r, 15)
    ensures Behind(r, k + 1)
  {
    hide RingInvariant, Slot;
  }

  lemma BehindHasRoom(s: State, k: nat)
    requires Behind(s, k) && k < RING_SIZE
    ensures RingInvariant(s) && s.tail < s.head + RING_SIZE && s.walk.None? && s.pending.None?
  {
  }

  lemma {:induction false} FillBehind(k: nat) returns (steps: seq<Step>)
    requires k < RING_SIZE
    ensures Run(steps).Some? && NormalLengths(steps) && Behind(Run(steps).value, k)
  {
    hide Behind, SinglePublished, Run, NormalLengths;
    if k == 0 {
      steps := GiveUpFirst();
    } else {
      var before := FillBehind(k - 1);
      BehindHasRoom(Run(before).value, k - 1);
      steps := PublishSingle(before, 1);
      BehindGrows(Run(before).value, Run(steps).value, k - 1);
    }
  }

  lemma CreateFirst()
    ensures Run([Create(true, 1)]) == Some(Created(Initial(), true, 1)) && NormalLengths([Create(true, 1)])
    ensures var s := Created(Initial(), true, 1);
            && RingInvariant(s) && |s.ring| == RING_SIZE
            && s.head == 0 && s.tail == 1 && s.dma == 0 && s.walk.None? && s.submitted == [] && s.reports == []
            && s.wire == [] && s.pending == Some(0)
            && s.ring[Slot(0)].last && !s.ring[Slot(0)].owned && s.ring[Slot(0)].size == 15
  {
    InitialInvariant();
    CreatedSingle(Initial(), 1);
    assert Run([]) == Some(Initial());
    TakeStep([], Create(true, 1));
    assert [] + [Create(true, 1)] == [Create(true, 1)];
    hide Run, Created, CreatesEmpty;
  }

  lemma GiveUpFirst() returns (steps: seq<Step>)
    ensures Run(steps).Some? && NormalLengths(steps) && Behind(Run(steps).value, 0)
  {
    CreateFirst();
    steps := [Create(true, 1)];
    hide Run, Created, NormalLengths, Window, Reclaimed;
    TakeStep(steps, BeginPoll);
    steps := steps + [BeginPoll];
    TakeStep(steps, Visit);
    steps := steps + [Visit];
    VacantAtTail(Run(steps).value);
    TakeStep(steps, Visit);
    steps := steps + [Visit];
  }

  lemma VacantAtTail(s: State)
    requires RingInvariant(s) && s.tail == s.head
    ensures |s.ring| == RING_SIZE && s.ring[Slot(s.tail)].size == 0
  {
  }

  /** Giving up one frame can break the order on the wire: with a lap of frames published behind it, the engine
      sends the last of them first. */
  lemma {:induction false} OrderBreaks() returns (steps: seq<Step>)
    ensures Run(steps).Some? && NormalLengths(steps)
    ensures var s := Run(steps).value;
            && |s.submitted| == RING_SIZE && s.wire == s.submitted[RING_SIZE - 1]
            && s.wire != [] && Flatten(s.submitted) != [] && s.wire[0] != Flatten(s.submitted)[0]
  {
    hide RingInvariant, Run, NormalLengths;
    var before := FillBehind(RING_SIZE - 1);
    BehindHasRoom(Run(before).value, RING_SIZE - 1);
    steps := PublishSingle(before, 2);
    var s := Run(steps).value;
    SlotWraps(0);
    TakeStep(steps, Engine(0));
    steps := steps + [Engine(0)];
    assert s.submitted[0] == Run(before).value.submitted[0];
    FirstOfFlatten(s.submitted);
  }

  lemma {:induction false} FirstOfFlatten(runs: seq<seq<Fragment>>)
    requires runs != [] && runs[0] != []
    ensures Flatten(runs) != [] && Flatten(runs)[0] == runs[0][0]
  {
    if |runs| > 1 {
      FirstOfFlatten(runs[..|runs| - 1]);
    }
  }
}

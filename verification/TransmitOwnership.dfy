/**
 Who changes a descriptor the engine owns: in every run, only a call that creates a frame over it, and that takes
 an empty frame created before.
 */
module TransmitOwnership {
  import opened DescriptorRing
  import opened TransmitRing
  import opened TransmitFifo
  import opened TransmitHoles
  import opened TransmitOrder
  import opened Wrappers

  // ---------------------------------------------------------------------------
  // In every run
  // ---------------------------------------------------------------------------

  // The step creates a frame that takes descriptor i.
  predicate Takes(s: State, step: Step, i: nat)
    requires |s.ring| == RING_SIZE
  {
    step.Create? && Creates(s, step.linkStatus, step.payloadLength)
    && exists p :: s.tail <= p < s.tail + FragmentCount(TotalLength(step.payloadLength)) && Slot(p) == i
  }

  // A walk gives back what it saw returned, and nothing is written or published meanwhile.
  ghost predicate WalkSawReturned(s: State) {
    WalkInvariant(s)
    && (s.walk.Some? ==> s.pending.None? && AllReturned(s.ring, s.head, s.walk.value.peek))
  }

  ghost predicate AllReturned(ring: seq<Descriptor>, head: nat, peek: nat)
    requires |ring| == RING_SIZE
  {
    forall p {:trigger Slot(p)} | head <= p < peek :: !ring[Slot(p)].owned
  }

  lemma StepSawReturned(s: State, step: Step)
    requires WalkSawReturned(s) && Enabled(s, step)
    ensures WalkSawReturned(Apply(s, step))
  {
    StepWalks(s, step);
    hide WalkInvariant, Reclaimed, Reserved, Contents, Slot, HasRoom;
  }

  lemma {:induction false} RunsSawReturned(steps: seq<Step>)
    requires Run(steps).Some?
    ensures WalkSawReturned(Run(steps).value)
  {
    hide WalkSawReturned, Enabled, Apply;
    if steps == [] {
      InitialSawReturned();
    } else {
      RunsSawReturned(steps[..|steps| - 1]);
      StepSawReturned(Run(steps[..|steps| - 1]).value, steps[|steps| - 1]);
    }
  }

  lemma InitialSawReturned()
    ensures WalkSawReturned(Initial())
  {
    InitialWalks();
  }

  /** In every run, empty frames included, a driver call changes a descriptor the engine owns if and only if it
      creates a frame over it; short of that only the processor's writes change the buffer behind one. */
  lemma {:induction false} OwnedTakenIff(steps: seq<Step>, step: Step, i: nat)
    requires Run(steps).Some?
    requires var s := Run(steps).value;
             Enabled(s, step) && !step.Engine? && i < RING_SIZE && s.ring[i].owned
    ensures var s := Run(steps).value;
            |Apply(s, step).ring| == RING_SIZE && (Apply(s, step).ring[i] == Kept(s, step, i) <==> !Takes(s, step, i))
  {
    var s := Run(steps).value;
    RunsSawReturned(steps);
    hide Run;
    hide Created, Visited, Contents, Slot, Creates;
    match step
    case Create(linkStatus, payloadLength) => CreateTakes(s, linkStatus, payloadLength, i);
    case Visit => VisitLeaves(s, i);
    case _ =>
      hide WalkSawReturned;
  }

  lemma CreateTakes(s: State, linkStatus: bool, payloadLength: nat, i: nat)
    requires Enabled(s, Create(linkStatus, payloadLength)) && i < RING_SIZE && s.ring[i].owned
    ensures |Created(s, linkStatus, payloadLength).ring| == RING_SIZE
    ensures Created(s, linkStatus, payloadLength).ring[i] == s.ring[i]
            <==> !Takes(s, Create(linkStatus, payloadLength), i)
  {
    if Creates(s, linkStatus, payloadLength) {
      var total := TotalLength(payloadLength);
      ReservedAt(s.ring, s.tail, total, FragmentCount(total));
      var p := PositionOf(s.tail, i);
      OnlyPosition(s.tail, p);
      hide Reserved, Slot, TotalLength, FragmentCount;
      assert Creates(s, linkStatus, payloadLength);
      if p < s.tail + FragmentCount(total) {
        assert s.ring[Slot(p)].size == 0;
        assert p > s.tail ==> total > 0 by { OneFragmentOfNothing(); }
      }
    }
  }

  lemma OneFragmentOfNothing()
    ensures FragmentCount(0) == 1
  {
  }

  lemma OnlyPosition(low: nat, p: nat)
    requires low <= p < low + RING_SIZE
    ensures forall q {:trigger Slot(q)} | low <= q < low + RING_SIZE && Slot(q) == Slot(p) :: q == p
  {
    forall q | low <= q < low + RING_SIZE && q != p ensures Slot(q) != Slot(p) {
      if q < p { SlotsDiffer(q, p); } else { SlotsDiffer(p, q); }
    }
  }

  lemma VisitLeaves(s: State, i: nat)
    requires WalkSawReturned(s) && Enabled(s, Visit) && i < RING_SIZE && s.ring[i].owned
    ensures |Visited(s).ring| == RING_SIZE && Visited(s).ring[i] == s.ring[i]
  {
    WalkWithinLap(s);
    var peek := s.walk.value.peek;
    var n := peek + 1 - s.head;
    ReclaimedAt(s.ring, s.head, n);
    var p := PositionOf(s.head, i);
    hide Reclaimed, Slot, WalkInvariant;
  }

  // ---------------------------------------------------------------------------
  // Over all continuations
  // ---------------------------------------------------------------------------

  // The step is not a driver call that changes an owned descriptor, the processor's writes aside.
  ghost predicate LeavesOwned(s: State, step: Step) {
    Enabled(s, step) && !step.Engine? ==>
      && |Apply(s, step).ring| == RING_SIZE
      && forall i | 0 <= i < RING_SIZE && s.ring[i].owned :: Apply(s, step).ring[i] == Kept(s, step, i)
  }

  ghost predicate SafeRun(steps: seq<Step>) {
    forall k | 0 <= k < |steps| && Run(steps[..k]).Some? :: LeavesOwned(Run(steps[..k]).value, steps[k])
  }

  /** Every run that creates no empty frame is safe, holes or not. */
  lemma {:induction false} RunsWithoutEmptyAreSafe(steps: seq<Step>)
    requires Run(steps).Some? && NeverCreatesEmpty(steps)
    ensures SafeRun(steps)
  {
    hide Run, RingInvariant, Apply;
    forall k | 0 <= k < |steps| && Run(steps[..k]).Some? ensures LeavesOwned(Run(steps[..k]).value, steps[k]) {
      NeverEmptyFront(steps, k);
      RunsKeepInvariant(steps[..k]);
      InvariantLeavesOwned(Run(steps[..k]).value, steps[k]);
    }
  }

  lemma InvariantLeavesOwned(s: State, step: Step)
    requires RingInvariant(s)
    ensures LeavesOwned(s, step)
  {
    if Enabled(s, step) && !step.Engine? {
      RingLength(s);
      ApplyLength(s, step);
      hide Apply, RingInvariant;
      forall i | 0 <= i < RING_SIZE && s.ring[i].owned ensures Apply(s, step).ring[i] == Kept(s, step, i) {
        DriverLeavesOwnedAlone(s, step, i);
      }
    }
  }

  lemma ApplyLength(s: State, step: Step)
    requires Enabled(s, step)
    ensures |Apply(s, step).ring| == RING_SIZE
  {
    hide Reserved, Reclaimed, Contents, HasRoom;
  }

  // The driver publishes every frame it creates.
  predicate Publishes(s: State, step: Step) {
    step.Create? || step.BeginPoll? ==> s.pending.None?
  }

  /** As long as every frame is published, what the engine owns is safe over all continuations if and only if the
      next step creates no empty frame. */
  lemma {:induction false} OwnershipSafeIff(steps: seq<Step>, step: Step)
    requires Run(steps).Some? && DisciplinedRun(steps)
    requires Enabled(Run(steps).value, step) && Publishes(Run(steps).value, step)
    ensures (forall all | GoesOn(steps + [step], all) :: SafeRun(all)) <==> !CreatesEmpty(Run(steps).value, step)
  {
    hide Run, DisciplinedFrom, CreatesEmpty, SafeRun;
    if CreatesEmpty(Run(steps).value, step) {
      var all := EmptyFrameIsTakenOver(steps, step);
    } else {
      forall all | GoesOn(steps + [step], all) ensures SafeRun(all) {
        CarefulNeverEmpty(steps, step, all);
        RunsWithoutEmptyAreSafe(all);
      }
    }
  }

  // ---------------------------------------------------------------------------
  // After an empty frame
  // ---------------------------------------------------------------------------

  // The state r is t with an empty frame at n, the end of its window.
  ghost predicate Shadows(r: State, t: State, n: nat) {
    && FifoInvariant(t) && t.pending.None? && t.tail == n < t.head + RING_SIZE
    && |t.ring| == |r.ring| == RING_SIZE && r.ring[Slot(n)].size == 0
    && r == t.(ring := t.ring[Slot(n) := r.ring[Slot(n)]], tail := n + 1, pending := r.pending,
               submitted := r.submitted)
  }

  lemma EmptyShadows(s: State, step: Step)
    requires FifoInvariant(s) && Enabled(s, step) && Publishes(s, step) && CreatesEmpty(s, step)
    ensures var r := Apply(s, step);
            && Shadows(r, s, s.tail) && !r.ring[Slot(s.tail)].owned && r.pending == Some(s.tail) && r.walk.None?
  {
    RoomIsFree(s.ring, s.head, s.tail, 1);
    hide QueueOf, WalkCounts, Flatten, Slot, Window;
    assert Reserved(s.ring, s.tail, 0, 1) == s.ring[Slot(s.tail) := ReservedDescriptor(s.ring[Slot(s.tail)], 0, 0)]
    by {
      assert Reserved(s.ring, s.tail, 0, 0) == s.ring;
    }
  }

  lemma ShadowAt(r: State, t: State, n: nat)
    requires Shadows(r, t, n)
    ensures t.head <= t.dma <= n == |Flatten(t.submitted)|
    ensures forall p {:trigger Slot(p)} | t.head <= p < n :: r.ring[Slot(p)] == t.ring[Slot(p)] && Slot(p) != Slot(n)
    ensures forall p {:trigger Slot(p)} | t.head <= p < n ::
              t.ring[Slot(p)].size > 0 && (t.ring[Slot(p)].owned <==> p >= t.dma)
    ensures t.ring[Slot(n)].size == 0
    ensures t.walk.Some? ==> t.walk.value.left > 0 && t.head <= t.walk.value.peek <= n
    ensures t.walk.Some? && t.walk.value.peek == n ==> t.head == n
  {
    hide Flatten, SumSizes, ReportsRun;
    forall p | t.head <= p < n ensures Slot(p) != Slot(n) {
      SlotsDiffer(p, n);
    }
    hide Slot;
  }

  lemma ShadowEngine(r: State, t: State, n: nat)
    requires Shadows(r, t, n) && t.dma < n
    ensures var r', t' := EngineStepped(r, 0), EngineStepped(t, 0);
            && Shadows(r', t', n) && t'.dma == t.dma + 1 && r'.ring[Slot(n)] == r.ring[Slot(n)]
            && r'.pending == r.pending && r'.walk == r.walk
  {
    ShadowAt(r, t, n);
    EngineFifo(t, 0);
    hide FifoInvariant, Slot;
    var i, j := Slot(t.dma), Slot(n);
    assert r.ring[i] == t.ring[i] && i != j;
  }

  lemma ShadowPublish(r: State, t: State, n: nat)
    requires Shadows(r, t, n) && r.pending == Some(n)
    ensures var r' := Published(r);
            Shadows(r', t, n) && r'.ring[Slot(n)].owned && r'.pending.None? && r'.walk == r.walk
  {
    hide FifoInvariant, Slot, Contents;
  }

  lemma ShadowBegin(r: State, t: State, n: nat)
    requires Shadows(r, t, n) && t.walk.None? && r.pending.None?
    ensures var r', t' := PollBegun(r), PollBegun(t);
            Shadows(r', t', n) && r'.ring == r.ring && r'.pending.None? && t'.walk.Some?
  {
    BeginFifo(t);
    hide FifoInvariant, Slot;
  }

  lemma {:induction false} ReclaimedElsewhere(ring: seq<Descriptor>, head: nat, k: nat, n: nat, d: Descriptor)
    requires |ring| == RING_SIZE && head + k <= n < head + RING_SIZE
    ensures Reclaimed(ring[Slot(n) := d], head, k) == Reclaimed(ring, head, k)[Slot(n) := d]
  {
    if k > 0 {
      ReclaimedElsewhere(ring, head, k - 1, n, d);
      SlotsDiffer(head + k - 1, n);
      hide Slot;
    }
  }

  lemma ShadowVisitEnabled(r: State, t: State, n: nat)
    requires Shadows(r, t, n) && t.walk.Some?
    ensures Enabled(r, Visit) && Enabled(t, Visit)
  {
    ShadowAt(r, t, n);
    hide FifoInvariant, Slot;
  }

  // At the empty frame both walks end.
  lemma ShadowVisitEnd(r: State, t: State, n: nat)
    requires Shadows(r, t, n) && t.walk.Some? && t.walk.value.peek == n && r.pending.None?
    requires Enabled(r, Visit) && Enabled(t, Visit)
    ensures Shadows(Visited(r), Visited(t), n)
    ensures t.head == n && Visited(t) == t.(walk := None) && Visited(r) == r.(walk := None)
  {
    ShadowAt(r, t, n);
    VisitFifo(t);
    hide FifoInvariant, Slot, Reclaimed;
  }

  // In front of it both do the same.
  lemma VisitedAlike(r: State, t: State, n: nat, x: Descriptor)
    requires |t.ring| == RING_SIZE && Enabled(t, Visit) && t.walk.value.peek < n < t.head + RING_SIZE
    requires r == t.(ring := t.ring[Slot(n) := x], tail := r.tail, pending := r.pending, submitted := r.submitted)
    ensures var r', t' := Visited(r), Visited(t);
            && |t'.ring| == RING_SIZE
            && r' == t'.(ring := t'.ring[Slot(n) := x], tail := r.tail, pending := r.pending, submitted := r.submitted)
  {
    var peek := t.walk.value.peek;
    SlotsDiffer(peek, n);
    ReclaimedElsewhere(t.ring, t.head, peek + 1 - t.head, n, x);
    hide Slot, Reclaimed;
    assert r.ring[Slot(peek)] == t.ring[Slot(peek)];
  }

  lemma ShadowVisitFront(r: State, t: State, n: nat)
    requires Shadows(r, t, n) && t.walk.Some? && t.walk.value.peek < n && t.dma == n && r.pending.None?
    requires Enabled(r, Visit) && Enabled(t, Visit)
    ensures var r', t' := Visited(r), Visited(t);
            && Shadows(r', t', n) && r'.ring[Slot(n)] == r.ring[Slot(n)] && r'.pending.None? && t'.dma == n
            && (t'.head > t.head
                || (t'.head == t.head && t'.walk.Some? && t'.walk.value.peek == t.walk.value.peek + 1))
  {
    ShadowAt(r, t, n);
    VisitFifo(t);
    VisitMoves(t);
    VisitedAlike(r, t, n, r.ring[Slot(n)]);
    hide FifoInvariant, Slot, Visited;
  }

  lemma VisitMoves(t: State)
    requires FifoInvariant(t) && Enabled(t, Visit)
    ensures var t' := Visited(t);
            && t'.pending == t.pending && t'.tail == t.tail && t'.dma == t.dma && t'.head >= t.head
            && (!t.ring[Slot(t.walk.value.peek)].owned && t.ring[Slot(t.walk.value.peek)].size > 0 ==>
                  t'.head > t.head
                  || (t'.head == t.head && t'.walk.Some? && t'.walk.value.peek == t.walk.value.peek + 1))
  {
    hide FifoInvariant, Slot, Reclaimed;
  }

  lemma ShadowVisit(r: State, t: State, n: nat)
    requires Shadows(r, t, n) && t.walk.Some? && t.dma == n && r.pending.None?
    ensures Enabled(r, Visit) && Enabled(t, Visit)
    ensures var r', t' := Visited(r), Visited(t);
            && Shadows(r', t', n) && |r.ring| == |r'.ring| == RING_SIZE
            && r'.ring[Slot(n)] == r.ring[Slot(n)] && r'.pending.None? && t'.dma == n
            && (t.walk.value.peek == n ==> t.head == n && t'.head == n && t'.walk.None?)
            && (t.walk.value.peek < n ==>
                  t'.head > t.head
                  || (t'.head == t.head && t'.walk.Some? && t'.walk.value.peek == t.walk.value.peek + 1))
  {
    ShadowAt(r, t, n);
    ShadowLength(r, t, n);
    ShadowVisitEnabled(r, t, n);
    hide Slot, Visited, Enabled;
    if t.walk.value.peek == n {
      ShadowVisitEnd(r, t, n);
    } else {
      ShadowVisitFront(r, t, n);
    }
    ShadowLength(Visited(r), Visited(t), n);
    hide Shadows;
  }

  // The engine sends all in front of the empty frame.
  lemma {:induction false} EngineReachesEmpty(start: seq<Step>, steps: seq<Step>, t: State, n: nat)
    returns (all: seq<Step>, t': State)
    requires GoesOn(start, steps) && Shadows(Run(steps).value, t, n)
    ensures GoesOn(start, all) && Shadows(Run(all).value, t', n) && t'.dma == n
    ensures var r, r' := Run(steps).value, Run(all).value;
            r'.ring[Slot(n)] == r.ring[Slot(n)] && r'.pending == r.pending && r'.walk == r.walk
    decreases n - t.dma
  {
    hide Run, DisciplinedFrom, Shadows, Slot;
    ShadowAt(Run(steps).value, t, n);
    ShadowLength(Run(steps).value, t, n);
    all, t' := steps, t;
    if t.dma < n {
      all := GoFurther(start, steps, Engine(0));
      ShadowEngine(Run(steps).value, t, n);
      all, t' := EngineReachesEmpty(start, all, EngineStepped(t, 0), n);
    }
  }

  lemma ShadowLength(r: State, t: State, n: nat)
    requires Shadows(r, t, n)
    ensures |r.ring| == |t.ring| == RING_SIZE && r.tail == n + 1 && r.head == t.head && r.walk == t.walk && r.dma == t.dma
  {
    hide FifoInvariant;
  }

  ghost function ShadowUnwalked(t: State, n: nat): int {
    if t.walk.Some? then n - t.walk.value.peek else 0
  }

  // Polls give all of it back.
  lemma {:induction false} PollsReachEmpty(start: seq<Step>, steps: seq<Step>, t: State, n: nat)
    returns (all: seq<Step>, t': State)
    requires GoesOn(start, steps) && Shadows(Run(steps).value, t, n) && t.dma == n
    requires Run(steps).value.pending.None? && Run(steps).value.ring[Slot(n)].owned
    ensures GoesOn(start, all) && Shadows(Run(all).value, t', n) && t'.head == n && t'.walk.None?
    ensures Run(all).value.pending.None? && Run(all).value.ring[Slot(n)].owned
    decreases n - t.head, t.walk.None? && t.head < n, ShadowUnwalked(t, n), t.walk.Some?
  {
    hide Run, DisciplinedFrom, Shadows, Slot, Visited;
    ShadowAt(Run(steps).value, t, n);
    ShadowLength(Run(steps).value, t, n);
    all, t' := steps, t;
    if t.walk.Some? {
      ShadowVisit(Run(steps).value, t, n);
      all := GoFurther(start, steps, Visit);
      ShadowAt(Run(all).value, Visited(t), n);
      all, t' := PollsReachEmpty(start, all, Visited(t), n);
    } else if t.head < n {
      ShadowBegin(Run(steps).value, t, n);
      all := GoFurther(start, steps, BeginPoll);
      all, t' := PollsReachEmpty(start, all, PollBegun(t), n);
    }
  }

  // ---------------------------------------------------------------------------
  // Around the ring
  // ---------------------------------------------------------------------------

  // Behind the empty frame all is vacant from the tail on, and the engine still owns the empty frame's descriptor.
  ghost predicate EmptyWaits(s: State, n: nat) {
    && |s.ring| == RING_SIZE && s.pending.None? && s.walk.None? && n < s.tail <= n + RING_SIZE
    && s.ring[Slot(n)].size == 0 && s.ring[Slot(n)].owned
    && forall p {:trigger Slot(p)} | s.tail <= p < n + RING_SIZE :: s.ring[Slot(p)].size == 0
  }

  lemma ShadowWaits(r: State, t: State, n: nat)
    requires Shadows(r, t, n) && t.head == n && t.walk.None? && r.pending.None? && r.ring[Slot(n)].owned
    ensures EmptyWaits(r, n)
  {
    hide QueueOf, WalkCounts, Flatten;
    forall p | n < p < n + RING_SIZE ensures Slot(p) != Slot(n) {
      SlotsDiffer(n, p);
    }
    hide Slot;
  }

  // A frame of one fragment published from a state that need not be in order.
  lemma SingleFrame(s: State, n: nat)
    requires EmptyWaits(s, n) && s.tail < n + RING_SIZE
    ensures Enabled(s, Create(true, 1)) && Disciplined(s, Create(true, 1))
    ensures var r := Created(s, true, 1);
            && Enabled(r, Publish) && EmptyWaits(Published(r), n) && Published(r).tail == s.tail + 1
  {
    SingleFragment(1);
    UpdateAt(s.ring, n, s.tail, ReservedDescriptor(s.ring[Slot(s.tail)], 15, 0));
    var r := Created(s, true, 1);
    hide TotalLength, FragmentCount, FragmentSize, Slot, Contents;
    assert HasRoom(s.ring, s.tail, 1);
    assert Reserved(s.ring, s.tail, 15, 0) == s.ring;
    assert r.ring == s.ring[Slot(s.tail) := ReservedDescriptor(s.ring[Slot(s.tail)], 15, 0)];
    assert r.ring[Slot(n)] == s.ring[Slot(n)];
    var d := r.ring[Slot(s.tail)].(owned := true);
    UpdateAgain(r.ring, n, s.tail, d);
  }

  lemma UpdateAgain(ring: seq<Descriptor>, low: nat, p: nat, d: Descriptor)
    requires |ring| == RING_SIZE && low < p < low + RING_SIZE
    ensures ring[Slot(p) := d][Slot(low)] == ring[Slot(low)]
    ensures forall q {:trigger Slot(q)} | low <= q < low + RING_SIZE ::
              ring[Slot(p) := d][Slot(q)] == if q == p then d else ring[Slot(q)]
  {
    UpdateAt(ring, low, p, d);
    hide Slot;
  }

  lemma {:induction false} LapBehindEmpty(start: seq<Step>, steps: seq<Step>, n: nat) returns (all: seq<Step>)
    requires GoesOn(start, steps) && EmptyWaits(Run(steps).value, n)
    ensures GoesOn(start, all) && EmptyWaits(Run(all).value, n) && Run(all).value.tail == n + RING_SIZE
    decreases n + RING_SIZE - Run(steps).value.tail
  {
    hide Run, DisciplinedFrom, EmptyWaits, Enabled;
    all := steps;
    EmptyTail(Run(steps).value, n);
    if Run(steps).value.tail < n + RING_SIZE {
      SingleFrame(Run(steps).value, n);
      hide Created, Published;
      all := GoFurther(start, all, Create(true, 1));
      all := GoFurther(start, all, Publish);
      all := LapBehindEmpty(start, all, n);
    }
  }

  lemma EmptyTail(s: State, n: nat)
    requires EmptyWaits(s, n)
    ensures n < s.tail <= n + RING_SIZE
  {
  }

  // The next frame takes the descriptor.
  lemma NextTakesOwned(s: State, n: nat)
    requires EmptyWaits(s, n) && s.tail == n + RING_SIZE
    ensures Enabled(s, Create(true, 1)) && Disciplined(s, Create(true, 1)) && !LeavesOwned(s, Create(true, 1))
  {
    SlotWraps(n);
    SingleFragment(1);
    hide TotalLength, FragmentCount, FragmentSize, Slot;
    assert HasRoom(s.ring, s.tail, 1);
    assert Reserved(s.ring, s.tail, 15, 0) == s.ring;
    assert !Created(s, true, 1).ring[Slot(n)].owned;
  }

  lemma EmptyIsPublished(start: seq<Step>, steps: seq<Step>, t: State, n: nat) returns (all: seq<Step>)
    requires GoesOn(start, steps) && Shadows(Run(steps).value, t, n) && t.dma == n
    requires Run(steps).value.pending == Some(n)
    ensures GoesOn(start, all) && Shadows(Run(all).value, t, n)
    ensures Run(all).value.pending.None? && Run(all).value.ring[Slot(n)].owned
  {
    hide Run, DisciplinedFrom, Slot, Published;
    ShadowLength(Run(steps).value, t, n);
    ShadowPublish(Run(steps).value, t, n);
    hide Shadows;
    all := GoFurther(start, steps, Publish);
  }

  lemma StartGoesOn(start: seq<Step>)
    requires Run(start).Some?
    ensures GoesOn(start, start)
  {
  }

  /** From every state reached by publishing every frame: after an empty frame, some continuation that again publishes
      every frame has a call that takes a descriptor from the engine. */
  lemma {:induction false} EmptyFrameIsTakenOver(steps: seq<Step>, step: Step) returns (all: seq<Step>)
    requires Run(steps).Some? && DisciplinedRun(steps)
    requires Enabled(Run(steps).value, step) && Publishes(Run(steps).value, step)
    requires CreatesEmpty(Run(steps).value, step)
    ensures GoesOn(steps + [step], all) && !SafeRun(all)
  {
    hide Run, DisciplinedFrom, CreatesEmpty, Shadows, EmptyWaits, Publishes, Slot, FifoInvariant, Enabled, Apply;
    var s, start := Run(steps).value, steps + [step];
    RunsKeepFifo(steps);
    EmptyShadows(s, step);
    RunExtends(steps, step);
    var t;
    StartGoesOn(start);
    all, t := EngineReachesEmpty(start, start, s, s.tail);
    all := EmptyIsPublished(start, all, t, s.tail);
    all, t := PollsReachEmpty(start, all, t, s.tail);
    ShadowWaits(Run(all).value, t, s.tail);
    all := LapBehindEmpty(start, all, s.tail);
    NextTakesOwned(Run(all).value, s.tail);
    hide LeavesOwned;
    var before := all;
    all := GoFurther(start, before, Create(true, 1));
    assert all[..|before|] == before && all[|before|] == Create(true, 1);
  }

  /** From initialization, a first frame of that length is enough. */
  lemma {:induction false} EmptyFrameIsReachable() returns (all: seq<Step>)
    ensures Run(all).Some? && !SafeRun(all) && |all| > 0 && all[0] == Create(true, 65522)
  {
    var step := Create(true, 65522);
    assert Enabled(Initial(), step) && CreatesEmpty(Initial(), step);
    all := EmptyFrameIsTakenOver([], step);
  }
}

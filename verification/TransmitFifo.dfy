/**
 What the transmit ring delivers: exact reservations, and frames that reach the wire and are reported
 in the order they were submitted, once each.
 */
module TransmitFifo {
  import opened Bytes
  import opened DescriptorRing
  import opened TransmitRing
  import opened Wrappers

  function SumSizes(run: seq<Fragment>): nat {
    if run == [] then 0 else SumSizes(run[..|run| - 1]) + run[|run| - 1].size
  }

  // ---------------------------------------------------------------------------
  // Creating a frame
  // ---------------------------------------------------------------------------

  lemma {:induction false} ReservedSizes(ring: seq<Descriptor>, tail: nat, total: nat, n: nat)
    requires |ring| == RING_SIZE && n <= FragmentCount(total)
    requires forall p {:trigger Slot(p)} | tail <= p < tail + n :: ring[Slot(p)].size == FragmentSize(total, p - tail)
    ensures SumSizes(Contents(ring, tail, tail + n, Carried)) ==
            if n < FragmentCount(total) then n * BUFFER_SIZE else total
  {
    if n > 0 {
      ReservedSizes(ring, tail, total, n - 1);
      var run := Contents(ring, tail, tail + n, Carried);
      assert run[..n - 1] == Contents(ring, tail, tail + n - 1, Carried);
      assert run[n - 1].size == FragmentSize(total, n - 1);
    } else {
      assert Contents(ring, tail, tail, Carried) == [];
    }
  }

  // The frame reserved at the tail: only its first descriptor is withheld from the engine.
  ghost predicate FreshFrame(ring: seq<Descriptor>, start: nat, end: nat)
    requires |ring| == RING_SIZE
  {
    && start < end
    && forall p {:trigger Slot(p)} | start <= p < end ::
         (ring[Slot(p)].owned <==> p != start)
         && (ring[Slot(p)].first <==> p == start)
         && (ring[Slot(p)].last <==> p == end - 1)
  }

  /** createFrame is atomic and exact: it leaves the ring alone, or it takes the next vacant descriptors,
      no more than the length needs, gives all but the first to the engine, and changes no other. */
  lemma {:induction false} CreateIsExact(s: State, linkStatus: bool, payloadLength: nat)
    requires RingInvariant(s) && Enabled(s, Create(linkStatus, payloadLength))
    requires !CreatesEmpty(s, Create(linkStatus, payloadLength))
    ensures var r := Created(s, linkStatus, payloadLength);
            && (!Creates(s, linkStatus, payloadLength) ==> r == s)
            && (Creates(s, linkStatus, payloadLength) ==>
                  && s.tail < r.tail <= s.head + RING_SIZE && |r.ring| == RING_SIZE
                  && (r.tail - s.tail - 1) * BUFFER_SIZE < TotalLength(payloadLength) <= (r.tail - s.tail) * BUFFER_SIZE
                  && FreshFrame(r.ring, s.tail, r.tail)
                  && SumSizes(Contents(r.ring, s.tail, r.tail, Carried)) == TotalLength(payloadLength)
                  && forall p {:trigger Slot(p)} | s.head <= p < s.head + RING_SIZE ::
                       if s.tail <= p < r.tail then s.ring[Slot(p)].size == 0 else r.ring[Slot(p)] == s.ring[Slot(p)])
  {
    if Creates(s, linkStatus, payloadLength) {
      var total := TotalLength(payloadLength);
      CountIsExact(total);
      ReservedIsExact(s.ring, s.head, s.tail, total);
      hide Reserved, TotalLength, FragmentCount, FreshFrame, SumSizes, Contents, PendingFits, WalkFits;
    }
  }

  lemma ReservedIsExact(ring: seq<Descriptor>, head: nat, tail: nat, total: nat)
    requires Window(ring, head, tail) && 0 < total < LIMIT_16 && HasRoom(ring, tail, FragmentCount(total))
    ensures var ring', tail' := Reserved(ring, tail, total, FragmentCount(total)), tail + FragmentCount(total);
            && tail' <= head + RING_SIZE
            && FreshFrame(ring', tail, tail')
            && SumSizes(Contents(ring', tail, tail', Carried)) == total
            && forall p {:trigger Slot(p)} | head <= p < head + RING_SIZE ::
                 if tail <= p < tail' then ring[Slot(p)].size == 0 else ring'[Slot(p)] == ring[Slot(p)]
  {
    ReservedLap(ring, head, tail, total);
    hide Reserved, Slot, SumSizes;
    ReservedSizes(Reserved(ring, tail, total, FragmentCount(total)), tail, total, FragmentCount(total));
  }

  lemma CountIsExact(total: nat)
    requires total > 0
    ensures (FragmentCount(total) - 1) * BUFFER_SIZE < total <= FragmentCount(total) * BUFFER_SIZE
  {
  }

  /** The reservation holds header and payload if and only if their length fits in 16 bits. */
  lemma {:induction false} LengthExactIff(payloadLength: nat)
    requires payloadLength < LIMIT_16
    ensures TotalLength(payloadLength) == FRAME_HEADER + payloadLength <==> payloadLength <= 65521
  {
  }

  // ---------------------------------------------------------------------------
  // Buffer addresses
  // ---------------------------------------------------------------------------

  // The buffer of fragment j lies where contiguous writing from the start of the frame puts it.
  predicate InLine(base: nat, start: nat, j: nat) {
    BufferAddress(base, Slot(start + j)) == BufferAddress(base, Slot(start)) + BUFFER_SIZE * j
  }

  /** The buffers of a frame are contiguous in memory if and only if it does not straddle the ring end. */
  lemma {:induction false} ContiguousIff(base: nat, start: nat, k: nat)
    requires 0 < k <= RING_SIZE
    ensures (forall j | 0 <= j < k :: InLine(base, start, j)) <==> Slot(start) + k <= RING_SIZE
  {
    if Slot(start) + k <= RING_SIZE {
      forall j | 0 <= j < k ensures InLine(base, start, j) {
        assert Slot(start + j) == Slot(start) + j;
      }
    } else {
      assert Slot(start + (RING_SIZE - Slot(start))) == 0;
      assert !InLine(base, start, RING_SIZE - Slot(start));
    }
  }

  // ---------------------------------------------------------------------------
  // First in, first out
  // ---------------------------------------------------------------------------

  ghost predicate WellFormedRun(run: seq<Fragment>) {
    && run != []
    && forall j | 0 <= j < |run| :: (run[j].first <==> j == 0) && (run[j].last <==> j == |run| - 1)
  }

  // Every frame created is published before the next one is created and before the next poll.
  predicate Disciplined(s: State, step: Step) {
    match step
    case Create(_, payloadLength) => s.pending.None? && payloadLength <= 65521
    case BeginPoll => s.pending.None?
    case _ => true
  }

  // The ring holds the submitted fragments from head on; those before dma came back with their errors.
  ghost predicate Matches(ring: seq<Descriptor>, history: seq<Fragment>, statuses: seq<nat>, head: nat, dma: nat)
    requires |ring| == RING_SIZE && dma == |statuses|
  {
    forall p {:trigger Slot(p)} | head <= p < |history| ::
      && Carried(ring[Slot(p)]) == history[p]
      && (ring[Slot(p)].owned <==> p >= dma)
      && (p < dma ==> ring[Slot(p)].errors == statuses[p])
  }

  // Report i is for frame i: its full length, its first descriptor, the errors of its last fragment.
  ghost predicate ReportsRun(report: Report, runs: seq<seq<Fragment>>, statuses: seq<nat>, i: nat)
    requires i < |runs|
  {
    var end := Start(runs, i) + |runs[i]|;
    && report.length == SumSizes(runs[i])
    && report.slot == Slot(Start(runs, i))
    && 0 < end <= |statuses|
    && report.errors == statuses[end - 1]
  }

  // The ring and what went out agree with these frames, in this order.
  ghost predicate QueueOf(s: State, runs: seq<seq<Fragment>>)
    requires |s.ring| == RING_SIZE
  {
    var history := Flatten(runs);
    && (forall run | run in runs :: WellFormedRun(run))
    && |s.reports| <= |runs|
    && s.head == Start(runs, |s.reports|)
    && s.head <= s.dma <= |history|
    && |s.statuses| == s.dma
    && Matches(s.ring, history, s.statuses, s.head, s.dma)
    && s.wire == history[..s.dma]
    && forall i | 0 <= i < |s.reports| :: ReportsRun(s.reports[i], runs, s.statuses, i)
  }

  // A walk counts the bytes of descriptors the engine returned.
  ghost predicate WalkCounts(s: State, runs: seq<seq<Fragment>>) {
    s.walk.Some? ==>
      && s.head <= s.walk.value.peek <= s.dma <= |Flatten(runs)|
      && s.walk.value.length == SumSizes(Flatten(runs)[s.head..s.walk.value.peek])
  }

  ghost predicate FifoInvariant(s: State) {
    && RingInvariant(s)
    && QueueOf(s, s.submitted)
    && WalkCounts(s, s.submitted)
    && (s.walk.Some? ==> s.pending.None?)
    && (s.pending.None? ==> s.tail == |Flatten(s.submitted)|)
    && (s.pending.Some? ==> s.pending.value == |Flatten(s.submitted)| && FreshFrame(s.ring, s.pending.value, s.tail))
  }

  lemma CreateFifo(s: State, linkStatus: bool, payloadLength: nat)
    requires FifoInvariant(s)
    requires Enabled(s, Create(linkStatus, payloadLength)) && Disciplined(s, Create(linkStatus, payloadLength))
    ensures FifoInvariant(Created(s, linkStatus, payloadLength))
  {
    LengthExactIff(payloadLength);
    CreateIsExact(s, linkStatus, payloadLength);
    CreatedKeeps(s, linkStatus, payloadLength);
    hide Window, FragmentCount, Reserved, TotalLength, FreshFrame, RingInvariant, Contents, SumSizes, Creates;
    SameQueue(s, Created(s, linkStatus, payloadLength), s.submitted);
  }

  // What queue the frames form depends on the ring only where they stand.
  lemma SameQueue(s: State, r: State, runs: seq<seq<Fragment>>)
    requires |s.ring| == |r.ring| == RING_SIZE && QueueOf(s, runs)
    requires r.head == s.head && r.dma == s.dma && r.wire == s.wire && r.statuses == s.statuses
    requires r.reports == s.reports
    requires forall p {:trigger Slot(p)} | s.head <= p < |Flatten(runs)| ::
               Carried(r.ring[Slot(p)]) == Carried(s.ring[Slot(p)])
               && r.ring[Slot(p)].owned == s.ring[Slot(p)].owned && r.ring[Slot(p)].errors == s.ring[Slot(p)].errors
    ensures QueueOf(r, runs)
  {
    hide Slot, Flatten, Start, ReportsRun, WellFormedRun;
  }

  lemma WriteFifo(s: State, j: nat, data: seq<Byte>)
    requires FifoInvariant(s) && Enabled(s, Write(j, data))
    ensures FifoInvariant(Written(s, j, data))
  {
    WrittenKeeps(s, j, data);
    var p := s.pending.value + j;
    UpdateKeepsWindow(s.ring, s.head, s.tail, p, s.ring[Slot(p)].(data := data));
    hide RingInvariant, SumSizes, Slot;
    SameQueue(s, Written(s, j, data), s.submitted);
  }

  lemma FreshRun(ring: seq<Descriptor>, start: nat, end: nat)
    requires |ring| == RING_SIZE && FreshFrame(ring, start, end)
    ensures WellFormedRun(Contents(ring, start, end, Carried))
  {
    var run := Contents(ring, start, end, Carried);
    forall j | 0 <= j < |run| ensures (run[j].first <==> j == 0) && (run[j].last <==> j == |run| - 1) {
      assert run[j] == Carried(ring[Slot(start + j)]);
    }
  }

  lemma PublishMatches(ring: seq<Descriptor>, history: seq<Fragment>, statuses: seq<nat>, head: nat, tail: nat,
                       dma: nat)
    requires |ring| == RING_SIZE && head <= |history| < tail <= head + RING_SIZE && dma == |statuses| <= |history|
    requires Matches(ring, history, statuses, head, dma) && FreshFrame(ring, |history|, tail)
    ensures Matches(ring[Slot(|history|) := ring[Slot(|history|)].(owned := true)],
                    history + Contents(ring, |history|, tail, Carried), statuses, head, dma)
  {
    var p, run := |history|, Contents(ring, |history|, tail, Carried);
    var d := ring[Slot(p)].(owned := true);
    UpdateAt(ring, head, p, d);
    hide Contents, Slot;
    var ring', all := ring[Slot(p) := d], history + run;
    forall q | head <= q < tail
      ensures Carried(ring'[Slot(q)]) == all[q] && (ring'[Slot(q)].owned <==> q >= dma)
      ensures q < dma ==> ring'[Slot(q)].errors == statuses[q]
    {
      assert ring'[Slot(q)] == if q == p then d else ring[Slot(q)];
      if q >= p {
        assert all[q] == run[q - p] == Carried(ring[Slot(p + (q - p))]);
      } else {
        assert all[q] == history[q];
      }
    }
  }

  lemma PublishReports(reports: seq<Report>, runs: seq<seq<Fragment>>, statuses: seq<nat>, run: seq<Fragment>)
    requires |reports| <= |runs|
    requires forall i | 0 <= i < |reports| :: ReportsRun(reports[i], runs, statuses, i)
    ensures forall i | 0 <= i < |reports| :: ReportsRun(reports[i], runs + [run], statuses, i)
  {
    hide SumSizes, Start;
    forall i | 0 <= i < |reports| ensures ReportsRun(reports[i], runs + [run], statuses, i) {
      assert ReportsRun(reports[i], runs, statuses, i);
      StartOfExtended(runs, run, i);
    }
  }

  lemma PublishQueue(s: State)
    requires FifoInvariant(s) && Enabled(s, Publish)
    ensures QueueOf(Published(s), Published(s).submitted)
    ensures |Flatten(Published(s).submitted)| == s.tail
  {
    hide SumSizes, Start, Flatten, ReportsRun, Matches, Contents, WellFormedRun, PendingFits, WalkFits;
    var p, history := s.pending.value, Flatten(s.submitted);
    var run, r := Contents(s.ring, p, s.tail, Carried), Published(s);
    FreshRun(s.ring, p, s.tail);
    FlattenAppends(s.submitted, run);
    StartOfExtended(s.submitted, run, |s.reports|);
    PublishMatches(s.ring, history, s.statuses, s.head, s.tail, s.dma);
    PublishReports(s.reports, s.submitted, s.statuses, run);
    hide FreshFrame, Window, Slot;
    assert (history + run)[..s.dma] == history[..s.dma];
  }

  lemma PublishFifo(s: State)
    requires FifoInvariant(s) && Enabled(s, Publish)
    ensures FifoInvariant(Published(s))
  {
    PublishQueue(s);
    PublishedKeeps(s);
    hide RingInvariant, QueueOf;
  }

  // The engine's next descriptor: the oldest published one not yet sent.
  lemma {:induction false} EngineOwnsNext(s: State)
    requires FifoInvariant(s)
    ensures s.ring[Slot(s.dma)].owned <==> s.dma < |Flatten(s.submitted)|
  {
    hide Flatten, SumSizes;
    var n := |Flatten(s.submitted)|;
    if s.dma == n {
      if n < s.tail {
        assert !s.ring[Slot(n)].owned;
      } else if n == s.head + RING_SIZE {
        SlotWraps(s.head);
        assert !s.ring[Slot(s.head)].owned;
      }
    }
  }

  // The engine sends the next fragment of the queue.
  lemma EngineQueue(s: State, runs: seq<seq<Fragment>>, errors: nat)
    requires RingInvariant(s) && QueueOf(s, runs) && |Flatten(runs)| <= s.tail
    requires s.ring[Slot(s.dma)].owned && s.dma < |Flatten(runs)|
    ensures QueueOf(EngineStepped(s, errors), runs)
  {
    hide Flatten, Start, WellFormedRun, SumSizes, Returned, Follows;
    var d, history := s.ring[Slot(s.dma)], Flatten(runs);
    UpdateKeepsWindow(s.ring, s.head, s.tail, s.dma, d.(owned := false, errors := errors));
    assert history[..s.dma + 1] == history[..s.dma] + [Carried(d)];
    EngineReports(s.reports, runs, s.statuses, errors);
    hide RingInvariant, ReportsRun, Slot;
    var r := EngineStepped(s, errors);
    forall p | s.head <= p < |history|
      ensures Carried(r.ring[Slot(p)]) == history[p] && (r.ring[Slot(p)].owned <==> p >= r.dma)
      ensures p < r.dma ==> r.ring[Slot(p)].errors == r.statuses[p]
    {
      assert r.ring[Slot(p)] == if p == s.dma then d.(owned := false, errors := errors) else s.ring[Slot(p)];
    }
  }

  lemma EngineReports(reports: seq<Report>, runs: seq<seq<Fragment>>, statuses: seq<nat>, errors: nat)
    requires |reports| <= |runs|
    requires forall i | 0 <= i < |reports| :: ReportsRun(reports[i], runs, statuses, i)
    ensures forall i | 0 <= i < |reports| :: ReportsRun(reports[i], runs, statuses + [errors], i)
  {
    hide SumSizes, Start;
    forall i | 0 <= i < |reports| ensures ReportsRun(reports[i], runs, statuses + [errors], i) {
      assert ReportsRun(reports[i], runs, statuses, i);
    }
  }

  lemma EngineFifo(s: State, errors: nat)
    requires FifoInvariant(s)
    ensures FifoInvariant(EngineStepped(s, errors))
  {
    EngineOwnsNext(s);
    EngineKeeps(s, errors);
    var d := s.ring[Slot(s.dma)];
    if d.owned {
      EngineQueue(s, s.submitted, errors);
      if s.pending.Some? {
        UpdateKeepsWindow(s.ring, s.head, s.tail, s.dma, d.(owned := false, errors := errors));
      }
      hide RingInvariant, QueueOf, Flatten, SumSizes, Slot;
    }
  }

  /** The processor writes to a frame ahead of the engine: never to the descriptor the engine works on. */
  lemma {:induction false} WritesStayAhead(s: State, j: nat, data: seq<Byte>)
    requires FifoInvariant(s) && Enabled(s, Write(j, data)) && s.ring[Slot(s.dma)].owned
    ensures Slot(s.pending.value + j) != Slot(s.dma)
  {
    EngineOwnsNext(s);
    SlotsDiffer(s.dma, s.pending.value + j);
    hide Slot, Flatten, SumSizes;
  }

  lemma BeginFifo(s: State)
    requires FifoInvariant(s) && Enabled(s, BeginPoll) && Disciplined(s, BeginPoll)
    ensures FifoInvariant(PollBegun(s))
  {
    PollBegunKeeps(s);
    hide RingInvariant, Flatten, Matches;
  }

  // A walk that meets the last fragment of a frame stands at the end of the oldest unreported one.
  lemma WalkMeetsFrameEnd(runs: seq<seq<Fragment>>, r: nat, peek: nat)
    requires forall run | run in runs :: WellFormedRun(run)
    requires r <= |runs| && Start(runs, r) <= peek < |Flatten(runs)|
    requires forall p | Start(runs, r) <= p < peek :: !Flatten(runs)[p].last
    requires Flatten(runs)[peek].last
    ensures r < |runs| && peek + 1 == Start(runs, r + 1)
    ensures Flatten(runs)[Start(runs, r)..peek + 1] == runs[r]
  {
    hide Flatten, Start;
    StartAtEnd(runs);
    RunInFlatten(runs, r);
    StartSteps(runs, r);
    assert WellFormedRun(runs[r]);
    RunEnd(Flatten(runs), Start(runs, r), runs[r], peek);
  }

  lemma RunEnd(history: seq<Fragment>, start: nat, run: seq<Fragment>, peek: nat)
    requires WellFormedRun(run) && start + |run| <= |history| && history[start..start + |run|] == run
    requires start <= peek < |history| && history[peek].last
    requires forall p | start <= p < peek :: !history[p].last
    ensures peek + 1 == start + |run|
  {
    assert history[start + (|run| - 1)] == run[|run| - 1];
    assert peek - start < |run| ==> history[start + (peek - start)] == run[peek - start];
  }

  lemma SumSizesNext(history: seq<Fragment>, head: nat, peek: nat)
    requires head <= peek < |history|
    ensures SumSizes(history[head..peek + 1]) == SumSizes(history[head..peek]) + history[peek].size
  {
    assert history[head..peek + 1][..peek - head] == history[head..peek];
  }

  // In a poll, a descriptor that can be visited is one the engine returned.
  lemma VisitSeesSent(s: State)
    requires FifoInvariant(s) && Enabled(s, Visit)
    requires !s.ring[Slot(s.walk.value.peek)].owned && s.ring[Slot(s.walk.value.peek)].size > 0
    ensures s.walk.value.peek < s.dma
  {
    hide Flatten, SumSizes;
  }

  lemma NoSizes()
    ensures SumSizes([]) == 0
  {
  }

  lemma ReclaimMatches(ring: seq<Descriptor>, history: seq<Fragment>, statuses: seq<nat>, head: nat, tail: nat,
                       peek: nat, dma: nat)
    requires Window(ring, head, tail) && head <= peek < tail && ring[Slot(peek)].last && |history| <= tail
    requires dma == |statuses| && Matches(ring, history, statuses, head, dma)
    ensures Matches(Reclaimed(ring, head, peek + 1 - head), history, statuses, peek + 1, dma)
  {
    ReclaimKeepsWindow(ring, head, tail, peek);
    hide Reclaimed, Slot;
  }

  // The descriptor visited ends a frame that the engine returned.
  ghost predicate CompletesFrame(s: State, runs: seq<seq<Fragment>>) {
    && Enabled(s, Visit) && RingInvariant(s) && QueueOf(s, runs) && WalkCounts(s, runs)
    && |Flatten(runs)| <= s.tail && s.walk.value.peek < s.dma
    && s.ring[Slot(s.walk.value.peek)].last
  }

  // It is the oldest unreported frame, its length is the bytes counted, its errors are those of the descriptor.
  lemma CompletedFrame(s: State, runs: seq<seq<Fragment>>)
    requires CompletesFrame(s, runs)
    ensures var peek, r := s.walk.value.peek, |s.reports|;
            && r < |runs| && peek + 1 == Start(runs, r + 1) == Start(runs, r) + |runs[r]|
            && s.walk.value.length + s.ring[Slot(peek)].size == SumSizes(runs[r])
            && s.ring[Slot(peek)].errors == s.statuses[peek]
  {
    hide Window, FreshFrame, WellFormedRun, Contents;
    var peek := s.walk.value.peek;
    var history, r := Flatten(runs), |s.reports|;
    assert Carried(s.ring[Slot(peek)]) == history[peek];
    SumSizesNext(history, s.head, peek);
    forall p | s.head <= p < peek ensures !history[p].last {
      assert Carried(s.ring[Slot(p)]) == history[p];
    }
    hide Flatten, SumSizes, ReportsRun, Slot;
    WalkMeetsFrameEnd(runs, r, peek);
    StartSteps(runs, r);
  }

  lemma ReportQueue(s: State, runs: seq<seq<Fragment>>)
    requires CompletesFrame(s, runs)
    ensures |s.reports| < |runs| && s.walk.value.peek < |s.statuses|
    ensures Visited(s).reports ==
            s.reports + [Report(s.statuses[s.walk.value.peek], SumSizes(runs[|s.reports|]), Slot(s.head))]
    ensures QueueOf(Visited(s), runs) && WalkCounts(Visited(s), runs)
  {
    hide FreshFrame, WellFormedRun, Contents, Flatten, SumSizes, Start, Reclaimed, Slot, Returned;
    var peek := s.walk.value.peek;
    CompletedFrame(s, runs);
    NotOwnedNotVacant(s, runs);
    ReclaimMatches(s.ring, Flatten(runs), s.statuses, s.head, s.tail, peek, s.dma);
    assert Flatten(runs)[peek + 1..peek + 1] == [];
    NoSizes();
    hide Window, Matches;
  }

  lemma NotOwnedNotVacant(s: State, runs: seq<seq<Fragment>>)
    requires CompletesFrame(s, runs)
    ensures var d := s.ring[Slot(s.walk.value.peek)]; !d.owned && d.size > 0
  {
    hide Flatten, SumSizes, Start, Follows;
  }

  // A visit in front of the engine keeps the queue.
  lemma VisitQueue(s: State, runs: seq<seq<Fragment>>)
    requires Enabled(s, Visit) && RingInvariant(s) && QueueOf(s, runs) && WalkCounts(s, runs)
    requires |Flatten(runs)| <= s.tail
    requires var d := s.ring[Slot(s.walk.value.peek)]; !d.owned && d.size > 0 ==> s.walk.value.peek < s.dma
    ensures QueueOf(Visited(s), runs) && WalkCounts(Visited(s), runs)
  {
    hide Window, FreshFrame, Reclaimed, Flatten, Start, ReportsRun, WellFormedRun, SumSizes, Returned, Follows;
    var peek := s.walk.value.peek;
    var d := s.ring[Slot(peek)];
    if !d.owned && d.size > 0 {
      if d.last {
        ReportQueue(s, runs);
      } else {
        assert Carried(d) == Flatten(runs)[peek];
        SumSizesNext(Flatten(runs), s.head, peek);
      }
    }
  }

  lemma VisitFifo(s: State)
    requires FifoInvariant(s) && Enabled(s, Visit)
    ensures FifoInvariant(Visited(s))
  {
    VisitedKeeps(s);
    var d := s.ring[Slot(s.walk.value.peek)];
    if !d.owned && d.size > 0 {
      VisitSeesSent(s);
    }
    hide QueueOf, WalkCounts, Flatten, RingInvariant, Slot, Reclaimed;
    VisitQueue(s, s.submitted);
  }

  lemma InitialFifo()
    ensures FifoInvariant(Initial())
  {
    InitialInvariant();
  }

  lemma StepFifo(s: State, step: Step)
    requires FifoInvariant(s) && Enabled(s, step) && Disciplined(s, step)
    ensures FifoInvariant(Apply(s, step))
  {
    hide FifoInvariant, Created, Written, Published, EngineStepped, PollBegun, Visited;
    match step
    case Create(linkStatus, payloadLength) => CreateFifo(s, linkStatus, payloadLength);
    case Write(j, data) => WriteFifo(s, j, data);
    case Publish => PublishFifo(s);
    case Engine(errors) => EngineFifo(s, errors);
    case BeginPoll => BeginFifo(s);
    case Visit => VisitFifo(s);
  }

  ghost predicate DisciplinedRun(steps: seq<Step>) {
    forall i | 0 <= i < |steps| :: Run(steps[..i]).Some? ==> Disciplined(Run(steps[..i]).value, steps[i])
  }

  lemma {:induction false} RunsKeepFifo(steps: seq<Step>)
    requires Run(steps).Some? && DisciplinedRun(steps)
    ensures FifoInvariant(Run(steps).value)
  {
    hide FifoInvariant, Disciplined, Enabled, Apply;
    if steps == [] {
      InitialFifo();
    } else {
      var n := |steps| - 1;
      var front := steps[..n];
      assert forall i | 0 <= i < n :: front[..i] == steps[..i];
      RunsKeepFifo(front);
      StepFifo(Run(front).value, steps[n]);
    }
  }

  /** Exactly-once FIFO transmission: under any interleaving of driver calls, poll visits and engine steps,
      the wire carries a prefix of the submitted fragments, and the reports are for the first frames
      submitted, once each and in order, each only after the engine returned all of its descriptors. */
  lemma {:induction false} FramesGoOutInOrder(steps: seq<Step>)
    requires Run(steps).Some? && DisciplinedRun(steps)
    ensures var s := Run(steps).value;
            && |s.wire| <= |Flatten(s.submitted)| && s.wire == Flatten(s.submitted)[..|s.wire|]
            && |s.reports| <= |s.submitted|
            && Start(s.submitted, |s.reports|) <= |s.wire|
            && |s.statuses| == |s.wire|
            && forall i | 0 <= i < |s.reports| :: ReportsRun(s.reports[i], s.submitted, s.statuses, i)
  {
    RunsKeepFifo(steps);
    hide Run, Flatten, Start, SumSizes;
  }

  // ---------------------------------------------------------------------------
  // A poll leaves nothing unreported
  // ---------------------------------------------------------------------------

  // The budget of a walk covers the rest of the window.
  ghost predicate BudgetCovers(s: State) {
    s.walk.Some? ==> s.tail <= s.head + s.walk.value.left
  }

  lemma StepCovers(s: State, step: Step)
    requires FifoInvariant(s) && BudgetCovers(s) && Enabled(s, step)
    ensures BudgetCovers(Apply(s, step))
  {
    hide QueueOf, WalkCounts, Flatten, Reclaimed, Reserved, Contents, HasRoom, Slot;
  }

  lemma {:induction false} RunsCover(steps: seq<Step>)
    requires Run(steps).Some? && DisciplinedRun(steps)
    ensures BudgetCovers(Run(steps).value)
  {
    hide FifoInvariant, Disciplined, Enabled, Apply, BudgetCovers;
    if steps == [] {
      NothingToCover();
    } else {
      var n := |steps| - 1;
      var front := steps[..n];
      assert forall i | 0 <= i < n :: front[..i] == steps[..i];
      RunsKeepFifo(front);
      RunsCover(front);
      StepCovers(Run(front).value, steps[n]);
    }
  }

  lemma NothingToCover()
    ensures BudgetCovers(Initial())
  {
  }

  // The oldest frame not reported is none the engine returned whole.
  ghost predicate AllReturnedReported(s: State) {
    var r := |s.reports|;
    r < |s.submitted| ==> Start(s.submitted, r) + |s.submitted[r]| > |s.statuses|
  }

  lemma OldestNotReturned(s: State)
    requires FifoInvariant(s) && Enabled(s, Visit)
    requires s.ring[Slot(s.walk.value.peek)].owned || s.ring[Slot(s.walk.value.peek)].size == 0
    ensures AllReturnedReported(s)
  {
    var peek, r, history := s.walk.value.peek, |s.reports|, Flatten(s.submitted);
    if r < |s.submitted| {
      RunInFlatten(s.submitted, r);
      StartSteps(s.submitted, r);
      assert WellFormedRun(s.submitted[r]);
      var run, start := s.submitted[r], Start(s.submitted, r);
      hide Flatten, Start, SumSizes, ReportsRun, WellFormedRun;
      assert peek >= s.dma;
      forall p | s.head <= p < peek ensures !history[p].last {
        assert Carried(s.ring[Slot(p)]) == history[p];
      }
      RunEndsAt(history, start, run);
    }
  }

  lemma RunEndsAt(history: seq<Fragment>, start: nat, run: seq<Fragment>)
    requires WellFormedRun(run) && start + |run| <= |history| && history[start..start + |run|] == run
    ensures history[start + |run| - 1].last
  {
    assert history[start + |run| - 1] == history[start..start + |run|][|run| - 1];
  }

  lemma WindowReported(s: State)
    requires FifoInvariant(s) && s.head == s.tail && s.pending.None?
    ensures AllReturnedReported(s)
  {
    if |s.reports| < |s.submitted| {
      RunInFlatten(s.submitted, |s.reports|);
      assert WellFormedRun(s.submitted[|s.reports|]);
    }
  }

  /** A walk that ends, whether at a descriptor of the engine, at a vacant one or out of budget, leaves no frame
      unreported of which the engine returned every descriptor. */
  lemma {:induction false} WalkReportsAllReturned(steps: seq<Step>)
    requires Run(steps).Some? && DisciplinedRun(steps) && Enabled(Run(steps).value, Visit)
    ensures var r := Visited(Run(steps).value);
            r.walk.None? ==> AllReturnedReported(r)
  {
    var s := Run(steps).value;
    RunsKeepFifo(steps);
    RunsCover(steps);
    VisitFifo(s);
    hide Run;
    var d := s.ring[Slot(s.walk.value.peek)];
    if Visited(s).walk.None? {
      if d.owned || d.size == 0 {
        OldestNotReturned(s);
        hide FifoInvariant, AllReturnedReported;
      } else {
        OutOfBudget(s);
        WindowReported(Visited(s));
      }
    }
  }

  lemma OutOfBudget(s: State)
    requires FifoInvariant(s) && Enabled(s, Visit) && FifoInvariant(Visited(s)) && BudgetCovers(s)
    requires Visited(s).walk.None? && !s.ring[Slot(s.walk.value.peek)].owned && s.ring[Slot(s.walk.value.peek)].size > 0
    ensures Visited(s).head == Visited(s).tail && Visited(s).pending.None?
  {
    hide QueueOf, WalkCounts, Flatten, Reclaimed, Slot;
  }
}

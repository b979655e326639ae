/**
 The receive ring as a state machine.  The engine fills the descriptors it owns one after the other and
 suspends at one it does not own; a poll delivers finished frames, at most half a ring of them, gives
 their descriptors back, and restarts a suspended engine at the driver's position.

 A restarted engine fetches the descriptor it is pointed at before anything else happens:
 it runs if it owns that one, and is suspended again otherwise.
 */
module ReceiveRing {
  import opened Bytes
  import opened DescriptorRing
  import opened Wrappers

  // One descriptor together with the buffer it points to.
  datatype Descriptor = Descriptor(owned: bool, last: bool, errors: nat, data: seq<Byte>)

  datatype Fragment = Fragment(last: bool, errors: nat, data: seq<Byte>)

  function Carried(d: Descriptor): Fragment {
    Fragment(d.last, d.errors, d.data)
  }

  // A call of received(): it reads the blocks from the buffer of descriptor `slot` on, contiguously.
  datatype Delivery = Delivery(errors: nat, length: nat, slot: nat, blocks: seq<Option<seq<Byte>>>)

  datatype Phase = Idle | Walking(peek: nat, length: nat, left: nat) | Ending

  datatype State = State(
    ring: seq<Descriptor>,
    head: nat, // receivedDescriptor
    dma: nat, // index of the engine's current descriptor
    running: bool,
    phase: Phase,
    arrived: seq<Fragment>, // everything the engine wrote
    delivered: seq<Delivery>,
    frames: seq<seq<Fragment>>) // the frames delivered, as the descriptors held them

  function Initial(): State {
    State(seq(RING_SIZE, _ => Descriptor(true, false, 0, [])), 0, 0, true, Idle, [], [], [])
  }

  // Fragments at the end that belong to a frame still being written.
  function OpenLength(arrived: seq<Fragment>): nat {
    if arrived == [] || arrived[|arrived| - 1].last then 0 else 1 + OpenLength(arrived[..|arrived| - 1])
  }

  lemma OpenLengthStep(arrived: seq<Fragment>, fragment: Fragment)
    ensures OpenLength(arrived + [fragment]) == if fragment.last then 0 else 1 + OpenLength(arrived)
  {
    assert (arrived + [fragment])[..|arrived|] == arrived;
  }

  // ---------------------------------------------------------------------------
  // Steps
  // ---------------------------------------------------------------------------

  datatype Step =
    | Arrive(fragment: Fragment)
    | BeginPoll
    | Visit
    | Restart

  function Arrived(s: State, fragment: Fragment): State
    requires |s.ring| == RING_SIZE && s.dma < RING_SIZE
  {
    if !s.running then s
    else if !s.ring[s.dma].owned then s.(running := false)
    else s.(ring := s.ring[s.dma := Descriptor(false, fragment.last, fragment.errors, fragment.data)],
            dma := Next(s.dma), arrived := s.arrived + [fragment])
  }

  // The ring after n descriptors from `head` on were given to the engine.
  function Returned(ring: seq<Descriptor>, head: nat, n: nat): (r: seq<Descriptor>)
    requires |ring| == RING_SIZE
    ensures |r| == RING_SIZE
  {
    if n == 0 then ring
    else
      var r := Returned(ring, head, n - 1);
      var i := Slot(head + n - 1);
      r[i := r[i].(owned := true)]
  }

  // The contents of buffer i; behind the last one the memory is not the ring's.
  function Block(ring: seq<Descriptor>, i: nat): Option<seq<Byte>>
    requires |ring| == RING_SIZE
  {
    if i < RING_SIZE then Some(ring[i].data) else None
  }

  // k blocks read contiguously from buffer `slot` on.
  function Blocks(ring: seq<Descriptor>, slot: nat, k: nat): (r: seq<Option<seq<Byte>>>)
    requires |ring| == RING_SIZE
    ensures |r| == k && forall j | 0 <= j < k :: r[j] == Block(ring, slot + j)
  {
    seq(k, j requires 0 <= j < k => Block(ring, slot + j))
  }

  function PollBegun(s: State): State {
    s.(phase := Walking(s.head, 0, RING_SIZE / 2))
  }

  function Visited(s: State): State
    requires |s.ring| == RING_SIZE && s.phase.Walking? && s.head <= s.phase.peek && s.phase.left > 0
  {
    var Walking(peek, length, left) := s.phase;
    var d := s.ring[Slot(peek)];
    if d.owned then s.(phase := Ending)
    else if !d.last then s.(phase := Walking(peek + 1, length + BUFFER_SIZE, left))
    else
      s.(delivered := s.delivered + [Delivery(d.errors, length + BUFFER_SIZE, Slot(s.head),
                                              Blocks(s.ring, Slot(s.head), peek + 1 - s.head))],
         frames := s.frames + [Contents(s.ring, s.head, peek + 1, Carried)],
         ring := Returned(s.ring, s.head, peek + 1 - s.head),
         head := peek + 1,
         phase := if left == 1 then Ending else Walking(peek + 1, 0, left - 1))
  }

  // The end of a poll points a stopped engine at the driver's descriptor.
  function Restarted(s: State): State
    requires |s.ring| == RING_SIZE
  {
    if s.running then s.(phase := Idle)
    else s.(phase := Idle, dma := Slot(s.head), running := s.ring[Slot(s.head)].owned)
  }

  // No frame fills the whole ring.
  predicate Enabled(s: State, step: Step) {
    && |s.ring| == RING_SIZE && s.dma < RING_SIZE
    && match step
       case Arrive(fragment) => fragment.last || OpenLength(s.arrived) + 1 < RING_SIZE
       case BeginPoll => s.phase.Idle?
       case Visit => s.phase.Walking? && s.head <= s.phase.peek && s.phase.left > 0
       case Restart => s.phase.Ending?
  }

  function Apply(s: State, step: Step): State
    requires Enabled(s, step)
  {
    match step
    case Arrive(fragment) => Arrived(s, fragment)
    case BeginPoll => PollBegun(s)
    case Visit => Visited(s)
    case Restart => Restarted(s)
  }

  // The state after the steps, or None when one of them was not enabled.
  function Run(steps: seq<Step>): Option<State> {
    if steps == [] then Some(Initial())
    else
      var s := Run(steps[..|steps| - 1]);
      if s.Some? && Enabled(s.value, steps[|steps| - 1]) then Some(Apply(s.value, steps[|steps| - 1])) else None
  }

  lemma RunExtends(steps: seq<Step>, step: Step)
    requires Run(steps).Some? && Enabled(Run(steps).value, step)
    ensures Run(steps + [step]) == Some(Apply(Run(steps).value, step))
  {
    assert (steps + [step])[..|steps|] == steps;
  }

  // ---------------------------------------------------------------------------
  // The invariant
  // ---------------------------------------------------------------------------

  // From head on, the ring holds what arrived and was not delivered yet; the rest is the engine's.
  ghost predicate Lap(ring: seq<Descriptor>, head: nat, arrived: seq<Fragment>) {
    && |ring| == RING_SIZE
    && head <= |arrived| <= head + RING_SIZE
    && (forall p {:trigger Slot(p)} | head <= p < |arrived| ::
          !ring[Slot(p)].owned && Carried(ring[Slot(p)]) == arrived[p])
    && (forall p {:trigger Slot(p)} | |arrived| <= p < head + RING_SIZE :: ring[Slot(p)].owned)
  }

  ghost predicate WellFormedRun(run: seq<Fragment>) {
    run != [] && forall j | 0 <= j < |run| :: run[j].last <==> j == |run| - 1
  }

  // The blocks read are the frame's, as far as they lie inside the ring.
  ghost predicate ReadsFrame(d: Delivery, frame: seq<Fragment>) {
    && |d.blocks| == |frame|
    && forall j | 0 <= j < |frame| :: d.blocks[j] == if d.slot + j < RING_SIZE then Some(frame[j].data) else None
  }

  // One delivery: a whole frame, its length in whole buffers, the errors of its last fragment.
  ghost predicate GoodDelivery(d: Delivery, frame: seq<Fragment>, start: nat) {
    && WellFormedRun(frame)
    && d.length == BUFFER_SIZE * |frame|
    && d.errors == frame[|frame| - 1].errors
    && d.slot == Slot(start)
    && ReadsFrame(d, frame)
  }

  // What was delivered is the beginning of what arrived, cut into whole frames.
  ghost predicate Delivers(delivered: seq<Delivery>, frames: seq<seq<Fragment>>, arrived: seq<Fragment>, head: nat) {
    && head <= |arrived|
    && |frames| == |delivered|
    && Flatten(frames) == arrived[..head]
    && forall i | 0 <= i < |delivered| :: GoodDelivery(delivered[i], frames[i], Start(frames, i))
  }

  ghost predicate NoneLast(arrived: seq<Fragment>, from: nat, to: nat)
    requires to <= |arrived|
  {
    forall p | from <= p < to :: !arrived[p].last
  }

  ghost predicate WalkFits(s: State) {
    s.phase.Walking? ==>
      && s.phase.left > 0
      && s.head <= s.phase.peek <= |s.arrived|
      && s.phase.length == BUFFER_SIZE * (s.phase.peek - s.head)
      && NoneLast(s.arrived, s.head, s.phase.peek)
  }

  ghost predicate Invariant(s: State) {
    && Lap(s.ring, s.head, s.arrived)
    && Delivers(s.delivered, s.frames, s.arrived, s.head)
    && (s.head > 0 ==> s.arrived[s.head - 1].last)
    && OpenLength(s.arrived) < RING_SIZE
    && (s.running ==> s.dma == Slot(|s.arrived|))
    && s.dma < RING_SIZE
    && WalkFits(s)
  }

  lemma InitialInvariant()
    ensures Invariant(Initial())
  {
  }

  // Without a last fragment from `from` on, all of them are open.
  lemma {:induction false} OpenCovers(arrived: seq<Fragment>, from: nat)
    requires from <= |arrived| && NoneLast(arrived, from, |arrived|)
    ensures OpenLength(arrived) >= |arrived| - from
  {
    if from < |arrived| {
      OpenCovers(arrived[..|arrived| - 1], from);
    }
  }

  // The engine's next descriptor is the position after everything that arrived.
  lemma ArrivedLap(ring: seq<Descriptor>, head: nat, arrived: seq<Fragment>, fragment: Fragment)
    requires Lap(ring, head, arrived) && ring[Slot(|arrived|)].owned
    ensures var d := Descriptor(false, fragment.last, fragment.errors, fragment.data);
            Lap(ring[Slot(|arrived|) := d], head, arrived + [fragment])
  {
    var n := |arrived|;
    if n == head + RING_SIZE {
      SlotWraps(head);
    }
    UpdateAt(ring, head, n, Descriptor(false, fragment.last, fragment.errors, fragment.data));
    hide Slot;
  }

  lemma ArrivedKeeps(s: State, fragment: Fragment)
    requires Invariant(s) && Enabled(s, Arrive(fragment))
    ensures Invariant(Arrived(s, fragment))
  {
    hide Flatten, Start, GoodDelivery, Slot;
    var n := |s.arrived|;
    if s.running && s.ring[s.dma].owned {
      ArrivedLap(s.ring, s.head, s.arrived, fragment);
      hide Lap;
      NextSlot(n);
      assert (s.arrived + [fragment])[..n] == s.arrived;
      assert (s.arrived + [fragment])[..s.head] == s.arrived[..s.head];
    }
  }

  lemma {:induction false} ReturnedAt(ring: seq<Descriptor>, head: nat, n: nat)
    requires |ring| == RING_SIZE && n <= RING_SIZE
    ensures forall p {:trigger Slot(p)} | head <= p < head + RING_SIZE ::
              Returned(ring, head, n)[Slot(p)] == if p < head + n then ring[Slot(p)].(owned := true) else ring[Slot(p)]
  {
    if n > 0 {
      ReturnedAt(ring, head, n - 1);
      var r := Returned(ring, head, n - 1);
      UpdateAt(r, head, head + n - 1, r[Slot(head + n - 1)].(owned := true));
    }
  }

  lemma ReturnedLap(ring: seq<Descriptor>, head: nat, arrived: seq<Fragment>, peek: nat)
    requires Lap(ring, head, arrived) && head <= peek < |arrived|
    ensures Lap(Returned(ring, head, peek + 1 - head), peek + 1, arrived)
  {
    ReturnedAt(ring, head, peek + 1 - head);
    var ring' := Returned(ring, head, peek + 1 - head);
    hide Returned, Slot;
    forall q | head + RING_SIZE <= q < peek + 1 + RING_SIZE ensures ring'[Slot(q)].owned {
      SlotWraps(q - RING_SIZE);
      assert ring'[Slot(q - RING_SIZE)].owned;
    }
  }

  // A visit that does not end the walk sees a fragment that arrived.
  lemma VisitSeesArrived(s: State)
    requires Invariant(s) && s.phase.Walking?
    ensures !s.ring[Slot(s.phase.peek)].owned ==>
              s.phase.peek < |s.arrived| && Carried(s.ring[Slot(s.phase.peek)]) == s.arrived[s.phase.peek]
  {
    var peek := s.phase.peek;
    if peek == |s.arrived| && peek == s.head + RING_SIZE {
      OpenCovers(s.arrived, s.head);
    }
    hide OpenLength, Flatten;
  }

  lemma DeliverOne(delivered: seq<Delivery>, frames: seq<seq<Fragment>>, arrived: seq<Fragment>, head: nat, peek: nat,
                   d: Delivery, frame: seq<Fragment>)
    requires Delivers(delivered, frames, arrived, head) && head <= peek < |arrived|
    requires NoneLast(arrived, head, peek) && arrived[peek].last
    requires frame == arrived[head..peek + 1] && ReadsFrame(d, frame)
    requires d.length == BUFFER_SIZE * (peek + 1 - head) && d.errors == arrived[peek].errors && d.slot == Slot(head)
    ensures Delivers(delivered + [d], frames + [frame], arrived, peek + 1)
  {
    hide Slot, ReadsFrame, Flatten, Start;
    FlattenAppends(frames, frame);
    assert arrived[..peek + 1] == arrived[..head] + arrived[head..peek + 1];
    StartAtEnd(frames);
    StartOfExtended(frames, frame, |frames|);
    assert GoodDelivery(d, frame, head);
    forall i | 0 <= i < |delivered| + 1
      ensures GoodDelivery((delivered + [d])[i], (frames + [frame])[i], Start(frames + [frame], i))
    {
      if i < |delivered| {
        StartOfExtended(frames, frame, i);
        assert GoodDelivery(delivered[i], frames[i], Start(frames, i));
      }
    }
  }

  // What is read from the first buffer on are the contents of the descriptors, until the ring ends.
  lemma BlocksReadFrame(ring: seq<Descriptor>, head: nat, to: nat, d: Delivery)
    requires |ring| == RING_SIZE && head <= to <= head + RING_SIZE
    requires d.slot == Slot(head) && d.blocks == Blocks(ring, Slot(head), to - head)
    ensures ReadsFrame(d, Contents(ring, head, to, Carried))
  {
    var frame := Contents(ring, head, to, Carried);
    forall j | 0 <= j < |frame|
      ensures d.blocks[j] == if d.slot + j < RING_SIZE then Some(frame[j].data) else None
    {
      assert d.slot + j < RING_SIZE ==> Slot(head + j) == d.slot + j;
      assert frame[j] == Carried(ring[Slot(head + j)]);
    }
  }

  lemma LapContents(ring: seq<Descriptor>, head: nat, arrived: seq<Fragment>, to: nat)
    requires Lap(ring, head, arrived) && head <= to <= |arrived|
    ensures Contents(ring, head, to, Carried) == arrived[head..to]
  {
    hide Slot;
    var run := Contents(ring, head, to, Carried);
    forall i | 0 <= i < to - head ensures run[i] == arrived[head..to][i] {
      assert run[i] == Carried(ring[Slot(head + i)]);
    }
  }

  lemma DeliveringKeeps(s: State)
    requires Invariant(s) && s.phase.Walking? && s.phase.peek < |s.arrived| && s.arrived[s.phase.peek].last
    requires Carried(s.ring[Slot(s.phase.peek)]) == s.arrived[s.phase.peek]
    ensures var peek := s.phase.peek;
            var k := peek + 1 - s.head;
            var d := Delivery(s.arrived[peek].errors, s.phase.length + BUFFER_SIZE, Slot(s.head),
                              Blocks(s.ring, Slot(s.head), k));
            && Delivers(s.delivered + [d], s.frames + [Contents(s.ring, s.head, peek + 1, Carried)], s.arrived, peek + 1)
            && Lap(Returned(s.ring, s.head, k), peek + 1, s.arrived)
  {
    hide Flatten, OpenLength, GoodDelivery, ReadsFrame, Start, Returned, Slot, Contents, Blocks, Delivers;
    var peek := s.phase.peek;
    var frame, k := Contents(s.ring, s.head, peek + 1, Carried), peek + 1 - s.head;
    var d := Delivery(s.arrived[peek].errors, s.phase.length + BUFFER_SIZE, Slot(s.head),
                      Blocks(s.ring, Slot(s.head), k));
    LapContents(s.ring, s.head, s.arrived, peek + 1);
    BlocksReadFrame(s.ring, s.head, peek + 1, d);
    DeliverOne(s.delivered, s.frames, s.arrived, s.head, peek, d, frame);
    ReturnedLap(s.ring, s.head, s.arrived, peek);
  }

  lemma VisitedKeeps(s: State)
    requires Invariant(s) && Enabled(s, Visit)
    ensures Invariant(Visited(s))
  {
    hide Flatten, OpenLength, GoodDelivery, ReadsFrame, Start, Returned, Slot, Contents, Blocks, Delivers;
    var peek := s.phase.peek;
    var d := s.ring[Slot(peek)];
    VisitSeesArrived(s);
    if !d.owned && d.last {
      DeliveringKeeps(s);
    }
    hide Lap;
  }

  lemma RestartedKeeps(s: State)
    requires Invariant(s)
    ensures Invariant(Restarted(s))
  {
    hide Flatten, OpenLength, GoodDelivery;
  }

  lemma PollBegunKeeps(s: State)
    requires Invariant(s)
    ensures Invariant(PollBegun(s))
  {
  }

  lemma StepKeeps(s: State, step: Step)
    requires Invariant(s) && Enabled(s, step)
    ensures Invariant(Apply(s, step))
  {
    hide Arrived, PollBegun, Visited, Restarted, Invariant;
    match step
    case Arrive(fragment) => ArrivedKeeps(s, fragment);
    case BeginPoll => PollBegunKeeps(s);
    case Visit => VisitedKeeps(s);
    case Restart => RestartedKeeps(s);
  }

  lemma {:induction false} RunsKeepInvariant(steps: seq<Step>)
    requires Run(steps).Some?
    ensures Invariant(Run(steps).value)
  {
    hide Invariant, Enabled, Apply;
    if steps == [] {
      InitialInvariant();
    } else {
      var n := |steps| - 1;
      RunsKeepInvariant(steps[..n]);
      StepKeeps(Run(steps[..n]).value, steps[n]);
    }
  }

  /** Exactly-once in-order reception: under any interleaving of polls, visits and arrivals, the frames delivered
      are the beginning of what arrived, once each; what arrived and was not delivered still stands in the ring,
      so the budget and the restarts lose and repeat nothing. */
  lemma {:induction false} FramesComeInInOrder(steps: seq<Step>)
    requires Run(steps).Some?
    ensures var s := Run(steps).value;
            && Delivers(s.delivered, s.frames, s.arrived, s.head)
            && |s.ring| == RING_SIZE
            && s.arrived == Flatten(s.frames) + Contents(s.ring, s.head, |s.arrived|, Carried)
  {
    hide Run, Flatten, OpenLength, GoodDelivery, Contents, WalkFits, Slot;
    RunsKeepInvariant(steps);
    var s := Run(steps).value;
    LapContents(s.ring, s.head, s.arrived, |s.arrived|);
    SplitAt(s.arrived, s.head);
  }

  // What received() reads is the frame.
  ghost predicate ReadsWhole(d: Delivery, frame: seq<Fragment>) {
    && |d.blocks| == |frame|
    && forall j | 0 <= j < |frame| :: d.blocks[j] == Some(frame[j].data)
  }

  /** Of the frames delivered, received() reads exactly those whole that do not straddle the ring end. */
  lemma {:induction false} FrameReadIff(steps: seq<Step>, i: nat)
    requires Run(steps).Some? && i < |Run(steps).value.delivered|
    ensures var s := Run(steps).value;
            && i < |s.frames|
            && (ReadsWhole(s.delivered[i], s.frames[i]) <==> Slot(Start(s.frames, i)) + |s.frames[i]| <= RING_SIZE)
  {
    hide Run, Flatten, OpenLength, Start;
    RunsKeepInvariant(steps);
    var s := Run(steps).value;
    var d, frame := s.delivered[i], s.frames[i];
    assert GoodDelivery(d, frame, Start(s.frames, i));
    if d.slot + |frame| > RING_SIZE {
      assert d.blocks[|frame| - 1].None?;
    }
  }

  // The buffer at an address inside the receive buffers, or nothing behind them.
  function MemoryAt(base: nat, ring: seq<Descriptor>, address: nat): Option<seq<Byte>>
    requires |ring| == RING_SIZE && base + 2 <= address
  {
    Block(ring, IndexOf(base, address))
  }

  /** Reading on from a buffer's address meets the next buffers, and then memory outside the ring. */
  lemma {:induction false} ReadsFromAddress(base: nat, ring: seq<Descriptor>, slot: nat, j: nat)
    requires |ring| == RING_SIZE
    ensures MemoryAt(base, ring, BufferAddress(base, slot) + BUFFER_SIZE * j) == Block(ring, slot + j)
  {
    AddressOfIndex(base, slot, j);
    hide IndexOf;
  }

  // ---------------------------------------------------------------------------
  // Where the engine writes
  // ---------------------------------------------------------------------------

  // So many bytes from the address of buffer i on lie in the receive buffers.
  predicate WritesInside(base: nat, i: nat, length: nat) {
    BufferAddress(base, i) + length <= base + BUFFER_SIZE * RING_SIZE
  }

  // Everything the engine wrote was written inside the receive buffers.
  ghost predicate WroteInside(base: nat, arrived: seq<Fragment>) {
    forall p | 0 <= p < |arrived| :: WritesInside(base, Slot(p), |arrived[p].data|)
  }

  // The last buffer starts two bytes late and was never filled.
  ghost predicate LastBufferNotFilled(arrived: seq<Fragment>) {
    forall p | 0 <= p < |arrived| && Slot(p) == RING_SIZE - 1 :: |arrived[p].data| <= BUFFER_SIZE - 2
  }

  /** The next fragment goes to the buffer of its position and leaves the receive buffers if and only if it fills
      the last one. */
  lemma {:induction false} ArrivalWritesInsideIff(s: State, fragment: Fragment, base: nat)
    requires Invariant(s) && Arrived(s, fragment).arrived != s.arrived && |fragment.data| <= BUFFER_SIZE
    ensures s.dma == Slot(|s.arrived|) && Arrived(s, fragment).ring[s.dma].data == fragment.data
    ensures WroteInside(base, s.arrived) ==>
              (WroteInside(base, Arrived(s, fragment).arrived) <==>
               Slot(|s.arrived|) < RING_SIZE - 1 || |fragment.data| <= BUFFER_SIZE - 2)
  {
    hide Flatten, OpenLength, Slot, Delivers;
    InsideIff(base, Slot(|s.arrived|), |fragment.data|);
    assert Arrived(s, fragment).arrived == s.arrived + [fragment];
    hide WritesInside, Arrived;
    InsideExtends(base, s.arrived, fragment);
  }

  lemma InsideExtends(base: nat, arrived: seq<Fragment>, fragment: Fragment)
    ensures WroteInside(base, arrived + [fragment]) <==>
            WroteInside(base, arrived) && WritesInside(base, Slot(|arrived|), |fragment.data|)
  {
    hide WritesInside, Slot;
    var all, n := arrived + [fragment], |arrived|;
    if WroteInside(base, all) {
      assert WritesInside(base, Slot(n), |all[n].data|);
      forall p | 0 <= p < n ensures WritesInside(base, Slot(p), |arrived[p].data|) {
        assert WritesInside(base, Slot(p), |all[p].data|);
      }
    }
  }

  lemma InsideIff(base: nat, i: nat, length: nat)
    requires i < RING_SIZE && length <= BUFFER_SIZE
    ensures WritesInside(base, i, length) <==> i < RING_SIZE - 1 || length <= BUFFER_SIZE - 2
  {
  }

  /** Over every run the engine stayed inside the receive buffers if and only if it never filled the last one. */
  lemma {:induction false} EngineStaysInsideIff(arrived: seq<Fragment>, base: nat)
    requires forall fragment | fragment in arrived :: |fragment.data| <= BUFFER_SIZE
    ensures WroteInside(base, arrived) <==> LastBufferNotFilled(arrived)
  {
    forall p | 0 <= p < |arrived|
      ensures WritesInside(base, Slot(p), |arrived[p].data|) <==>
              Slot(p) < RING_SIZE - 1 || |arrived[p].data| <= BUFFER_SIZE - 2
    {
      assert arrived[p] in arrived;
      InsideIff(base, Slot(p), |arrived[p].data|);
    }
    hide WritesInside, Slot;
  }

  /** A frame that straddles the ring end, in buffers filled one after the other, is written outside as well. */
  lemma {:induction false} StraddlingWritesOutside(base: nat, start: nat, frame: seq<Fragment>) returns (j: nat)
    requires Slot(start) + |frame| > RING_SIZE
    requires forall i | 0 <= i < |frame| - 1 :: |frame[i].data| == BUFFER_SIZE
    ensures j < |frame| - 1 && !WritesInside(base, Slot(start + j), |frame[j].data|)
  {
    j := RING_SIZE - 1 - Slot(start);
    assert Slot(start + j) == RING_SIZE - 1;
  }

  lemma SplitAt(arrived: seq<Fragment>, at: nat)
    requires at <= |arrived|
    ensures arrived == arrived[..at] + arrived[at..|arrived|]
  {
  }

  /** A walk that meets a descriptor of the engine has delivered every finished frame. */
  lemma {:induction false} WalkDeliversAllFinished(s: State)
    requires Invariant(s) && Enabled(s, Visit) && s.ring[Slot(s.phase.peek)].owned
    ensures NoneLast(s.arrived, s.head, |s.arrived|) && s.phase.peek == |s.arrived|
  {
    hide Flatten, OpenLength;
  }

  /** A visit uses up budget, or moves the walk towards the end of the lap, or ends it. */
  lemma {:induction false} VisitsTerminate(s: State)
    requires Invariant(s) && Enabled(s, Visit)
    ensures var r := Visited(s);
            r.phase.Walking? ==>
              r.phase.left < s.phase.left
              || (r.phase.left == s.phase.left && r.head == s.head
                  && s.phase.peek < r.phase.peek <= s.head + RING_SIZE)
  {
    VisitSeesArrived(s);
    hide Flatten, OpenLength, Returned;
  }

  // ---------------------------------------------------------------------------
  // Suspension
  // ---------------------------------------------------------------------------

  // The end of a poll resumes a suspended engine if and only if everything that arrived was delivered.
  lemma {:induction false} RestartResumesIff(s: State)
    requires Invariant(s) && !s.running
    ensures Restarted(s).running <==> s.head == |s.arrived|
  {
    hide Flatten, OpenLength, Delivers;
  }

  // The engine is suspended and a frame has begun to arrive.
  ghost predicate SuspendedOpen(s: State) {
    Invariant(s) && !s.running && OpenLength(s.arrived) > 0
  }

  lemma SuspendedOpenStep(s: State, step: Step)
    requires SuspendedOpen(s) && Enabled(s, step)
    ensures SuspendedOpen(Apply(s, step))
  {
    StepKeeps(s, step);
    RestartResumesIff(s);
    hide Delivers, Returned, Contents, Blocks, Lap, WalkFits;
  }

  lemma {:induction false} SuspendedOpenForever(steps: seq<Step>, more: seq<Step>)
    requires Run(steps).Some? && SuspendedOpen(Run(steps).value) && Run(steps + more).Some?
    ensures SuspendedOpen(Run(steps + more).value)
  {
    hide SuspendedOpen, Enabled, Apply;
    if more == [] {
      assert steps + more == steps;
    } else {
      var n := |more| - 1;
      assert (steps + more)[..|steps + more| - 1] == steps + more[..n];
      SuspendedOpenForever(steps, more[..n]);
      SuspendedOpenStep(Run(steps + more[..n]).value, more[n]);
    }
  }

  // The walk goes on to its end: it delivers everything, or one frame for each unit of its budget.
  lemma {:induction false} FinishWalk(steps: seq<Step>) returns (visits: seq<Step>)
    requires Run(steps).Some? && Run(steps).value.phase.Walking? && OpenLength(Run(steps).value.arrived) == 0
    ensures Run(steps + visits).Some? && forall v | v in visits :: v == Visit
    ensures var s, t := Run(steps).value, Run(steps + visits).value;
            && t.phase.Ending? && t.arrived == s.arrived && t.running == s.running
            && (t.head == |t.arrived| || t.head >= s.head + s.phase.left)
    decreases Run(steps).value.phase.left, Run(steps).value.head + RING_SIZE - Run(steps).value.phase.peek
  {
    hide Run;
    var s := Run(steps).value;
    RunsKeepInvariant(steps);
    assert Enabled(s, Visit) by { hide Delivers, OpenLength; }
    WalkStep(s);
    RunExtends(steps, Visit);
    hide Invariant, Visited, Enabled;
    if Visited(s).phase.Ending? {
      visits := [Visit];
    } else {
      var rest := FinishWalk(steps + [Visit]);
      visits := [Visit] + rest;
      assert steps + visits == steps + [Visit] + rest;
    }
  }

  // One visit of a walk through whole frames.
  lemma WalkStep(s: State)
    requires Invariant(s) && Enabled(s, Visit) && OpenLength(s.arrived) == 0
    ensures var r := Visited(s);
            && r.arrived == s.arrived && r.running == s.running && !r.phase.Idle?
            && (r.phase.Ending? ==> r.head == |r.arrived| || r.head >= s.head + s.phase.left)
            && (r.phase.Walking? ==>
                  && r.head + r.phase.left >= s.head + s.phase.left
                  && (r.phase.left < s.phase.left
                      || (r.phase.left == s.phase.left && r.head == s.head
                          && s.phase.peek < r.phase.peek <= s.head + RING_SIZE)))
  {
    VisitsTerminate(s);
    if s.ring[Slot(s.phase.peek)].owned {
      WalkDeliversAllFinished(s);
      OpenCovers(s.arrived, s.head);
    }
    hide OpenLength, Delivers, Returned, Contents, Blocks, Lap;
  }

  // A whole poll: it begins, visits, and restarts.
  ghost predicate IsPoll(steps: seq<Step>) {
    && |steps| >= 2 && steps[0].BeginPoll? && steps[|steps| - 1].Restart?
    && forall i | 0 < i < |steps| - 1 :: steps[i].Visit?
  }

  // A poll of a suspended receiver that holds whole frames resumes it, or delivers half a ring of frames.
  lemma PollProgresses(steps: seq<Step>) returns (poll: seq<Step>)
    requires Run(steps).Some?
    requires var s := Run(steps).value; s.phase.Idle? && !s.running && OpenLength(s.arrived) == 0
    ensures IsPoll(poll) && Run(steps + poll).Some?
    ensures var s, t := Run(steps).value, Run(steps + poll).value;
            && t.phase.Idle? && t.arrived == s.arrived
            && (t.running <==> t.head == |t.arrived|)
            && (!t.running ==> t.head >= s.head + RING_SIZE / 2)
  {
    hide Run, OpenLength;
    RunsKeepInvariant(steps);
    RunExtends(steps, BeginPoll);
    var begun := steps + [BeginPoll];
    var visits := FinishWalk(begun);
    RunsKeepInvariant(begun + visits);
    RestartResumesIff(Run(begun + visits).value);
    RunExtends(begun + visits, Restart);
    poll := [BeginPoll] + visits + [Restart];
    assert steps + poll == begun + visits + [Restart];
    forall i | 0 < i < |poll| - 1 ensures poll[i].Visit? {
      assert poll[i] == visits[i - 1] && visits[i - 1] in visits;
    }
  }

  ghost predicate Resumes(steps: seq<Step>, more: seq<Step>) {
    Run(steps + more).Some? && Run(steps + more).value.running
  }

  /** A suspended receiver resumes if and only if no frame has begun to arrive: then two polls without any
      arrival are enough, whatever they have to deliver; otherwise no continuation resumes it. */
  lemma {:induction false} ResumesIff(steps: seq<Step>) returns (first: seq<Step>, second: seq<Step>)
    requires Run(steps).Some? && Run(steps).value.phase.Idle? && !Run(steps).value.running
    ensures (exists more :: Resumes(steps, more)) <==> OpenLength(Run(steps).value.arrived) == 0
    ensures OpenLength(Run(steps).value.arrived) == 0 ==>
              IsPoll(first) && (second == [] || IsPoll(second)) && Resumes(steps, first + second)
  {
    hide Run, Delivers;
    first, second := [], [];
    RunsKeepInvariant(steps);
    if OpenLength(Run(steps).value.arrived) == 0 {
      hide OpenLength, IsPoll;
      first := PollProgresses(steps);
      assert first + [] == first;
      if !Run(steps + first).value.running {
        second := PollProgresses(steps + first);
        RunsKeepInvariant(steps + first + second);
      }
      assert steps + (first + second) == steps + first + second;
      assert Resumes(steps, first + second);
    } else {
      forall more ensures !Resumes(steps, more) {
        if Run(steps + more).Some? {
          SuspendedOpenForever(steps, more);
        }
      }
    }
  }

  // The engine is suspended and only the beginning of one frame is left to deliver.
  ghost predicate Stuck(s: State) {
    && Invariant(s)
    && !s.running && s.head < |s.arrived| && NoneLast(s.arrived, s.head, |s.arrived|)
  }

  lemma StuckStep(s: State, step: Step)
    requires Stuck(s) && Enabled(s, step)
    ensures Stuck(Apply(s, step))
    ensures Apply(s, step).arrived == s.arrived && Apply(s, step).delivered == s.delivered
  {
    StepKeeps(s, step);
    if step.Visit? {
      VisitSeesArrived(s);
    }
    hide Flatten, OpenLength, Delivers, Returned, Contents;
  }

  /** A receiver suspended in the middle of a frame never receives or delivers anything again. */
  lemma {:induction false} StuckForever(steps: seq<Step>, more: seq<Step>)
    requires Run(steps).Some? && Stuck(Run(steps).value) && Run(steps + more).Some?
    ensures Stuck(Run(steps + more).value)
    ensures Run(steps + more).value.arrived == Run(steps).value.arrived
    ensures Run(steps + more).value.delivered == Run(steps).value.delivered
  {
    hide Stuck, Enabled, Apply;
    if more == [] {
      assert steps + more == steps;
    } else {
      var n := |more| - 1;
      assert (steps + more)[..|steps + more| - 1] == steps + more[..n];
      StuckForever(steps, more[..n]);
      StuckStep(Run(steps + more[..n]).value, more[n]);
    }
  }

  // ---------------------------------------------------------------------------
  // A run that gets stuck
  // ---------------------------------------------------------------------------

  const SINGLE: Fragment := Fragment(true, 0, [])

  function Repeated(step: Step, n: nat): seq<Step> {
    if n == 0 then [] else Repeated(step, n - 1) + [step]
  }

  lemma {:induction false} FillSingles(n: nat)
    requires n <= RING_SIZE - 1
    ensures Run(Repeated(Arrive(SINGLE), n)).Some?
    ensures var s := Run(Repeated(Arrive(SINGLE), n)).value;
            && s.running && s.phase.Idle? && s.head == 0 && |s.arrived| == n
            && forall p | 0 <= p < n :: s.arrived[p].last
  {
    hide Run, Delivers, Flatten, OpenLength;
    if n == 0 {
      RunOfNothing();
    } else {
      var steps := Repeated(Arrive(SINGLE), n - 1);
      FillSingles(n - 1);
      ArriveSingle(steps);
    }
  }

  lemma RunOfNothing()
    ensures Run([]) == Some(Initial())
  {
  }

  lemma ArriveSingle(steps: seq<Step>)
    requires Run(steps).Some?
    requires var s := Run(steps).value;
             s.running && s.phase.Idle? && s.head == 0 && |s.arrived| < RING_SIZE
    ensures Run(steps + [Arrive(SINGLE)]).Some?
    ensures var s := Run(steps).value;
            var r := Run(steps + [Arrive(SINGLE)]).value;
            r.running && r.phase.Idle? && r.head == 0 && r.arrived == s.arrived + [SINGLE]
  {
    hide Run, Delivers, Flatten, OpenLength;
    RunsKeepInvariant(steps);
    var s := Run(steps).value;
    assert s.ring[Slot(|s.arrived|)].owned;
    RunExtends(steps, Arrive(SINGLE));
  }

  lemma {:induction false} DrainSingles(steps: seq<Step>, k: nat) returns (more: seq<Step>)
    requires Run(steps).Some?
    requires var s := Run(steps).value;
             && s.phase.Walking? && s.phase.peek == s.head && s.phase.length == 0 && k <= s.phase.left
             && s.head + k <= |s.arrived| && forall p | s.head <= p < s.head + k :: s.arrived[p].last
    ensures Run(steps + more).Some?
    ensures var s, t := Run(steps).value, Run(steps + more).value;
            && t.head == s.head + k && t.arrived == s.arrived && t.running == s.running
            && t.phase == if k < s.phase.left then Walking(t.head, 0, s.phase.left - k) else Ending
  {
    hide Flatten, OpenLength, Returned, Contents, Blocks, Delivers;
    var s := Run(steps).value;
    RunsKeepInvariant(steps);
    if k == 0 {
      more := [];
      assert steps + more == steps;
    } else {
      hide Run;
      more := DrainSingles(steps, k - 1);
      var mid := Run(steps + more).value;
      RunsKeepInvariant(steps + more);
      assert !mid.ring[Slot(mid.head)].owned && Carried(mid.ring[Slot(mid.head)]) == mid.arrived[mid.head];
      RunExtends(steps + more, Visit);
      assert steps + (more + [Visit]) == steps + more + [Visit];
      more := more + [Visit];
    }
  }

  // 127 whole frames and the first fragment of another fill the ring and suspend the engine.
  lemma FullRing() returns (steps: seq<Step>)
    ensures Run(steps).Some?
    ensures var s := Run(steps).value;
            && !s.running && s.phase.Idle? && s.head == 0 && |s.arrived| == RING_SIZE
            && (forall p | 0 <= p < RING_SIZE - 1 :: s.arrived[p].last) && !s.arrived[RING_SIZE - 1].last
  {
    hide Run;
    steps := Repeated(Arrive(SINGLE), RING_SIZE - 1);
    var open := Fragment(false, 0, []);
    FillSingles(RING_SIZE - 1);
    RunsKeepInvariant(steps);
    var s := Run(steps).value;
    assert s.ring[Slot(RING_SIZE - 1)].owned;
    assert OpenLength(s.arrived) == 0;
    RunExtends(steps, Arrive(open));
    steps := steps + [Arrive(open)];
    RunsKeepInvariant(steps);
    assert !Run(steps).value.ring[Slot(0)].owned;
    SlotWraps(0);
    RunExtends(steps, Arrive(SINGLE));
    steps := steps + [Arrive(SINGLE)];
  }

  /** A receiver does get stuck: two polls of a ring filled up to the middle of a frame leave it so. */
  lemma {:induction false} ReceiverGetsStuck() returns (steps: seq<Step>)
    ensures Run(steps).Some? && Stuck(Run(steps).value)
  {
    hide Run, Delivers, OpenLength;
    steps := FullRing();
    RunsKeepInvariant(steps);
    RunExtends(steps, BeginPoll);
    steps := steps + [BeginPoll];
    var more := DrainSingles(steps, RING_SIZE / 2);
    steps := steps + more;
    RunsKeepInvariant(steps);
    var s := Run(steps).value;
    assert !s.ring[Slot(s.head)].owned;
    RunExtends(steps, Restart);
    steps := steps + [Restart];
    RunExtends(steps, BeginPoll);
    steps := steps + [BeginPoll];
    more := DrainSingles(steps, RING_SIZE / 2 - 1);
    steps := steps + more;
    RunsKeepInvariant(steps);
  }

  // A frame of two fragments arrives during a walk that stands at the last descriptor, and is delivered.
  lemma StraddlingVisits(steps: seq<Step>) returns (more: seq<Step>)
    requires Run(steps).Some?
    requires var s := Run(steps).value;
             && s.running && s.phase == Walking(s.head, 0, 1) && s.head == |s.arrived| == RING_SIZE - 1
             && OpenLength(s.arrived) == 0
    ensures Run(steps + more).Some?
    ensures var s, t := Run(steps).value, Run(steps + more).value;
            t.delivered != [] && t.head == s.head + 2 && |t.frames| == |s.frames| + 1 && |t.frames[|s.frames|]| == 2
  {
    hide Delivers;
    var s := Run(steps).value;
    RunsKeepInvariant(steps);
    assert s.ring[Slot(127)].owned && s.ring[Slot(128)].owned;
    hide Run, OpenLength;
    var open, last := Arrive(Fragment(false, 0, [])), Arrive(SINGLE);
    RunExtends(steps, open);
    RunExtends(steps + [open], last);
    RunExtends(steps + [open] + [last], Visit);
    RunExtends(steps + [open] + [last] + [Visit], Visit);
    more := [open] + [last] + [Visit] + [Visit];
    assert steps + more == steps + [open] + [last] + [Visit] + [Visit];
  }

  /** A frame that straddles the ring end is delivered: received() does not read it whole. */
  lemma {:induction false} StraddlingFrameDelivered() returns (steps: seq<Step>, i: nat)
    ensures Run(steps).Some? && i < |Run(steps).value.delivered|
    ensures i < |Run(steps).value.frames| && !ReadsWhole(Run(steps).value.delivered[i], Run(steps).value.frames[i])
  {
    hide Run, Delivers;
    steps := Repeated(Arrive(SINGLE), RING_SIZE - 1);
    FillSingles(RING_SIZE - 1);
    RunsKeepInvariant(steps);
    RunExtends(steps, BeginPoll);
    steps := steps + [BeginPoll];
    var more := DrainSingles(steps, RING_SIZE / 2);
    steps := steps + more;
    RunsKeepInvariant(steps);
    RunExtends(steps, Restart);
    steps := steps + [Restart];
    RunExtends(steps, BeginPoll);
    steps := steps + [BeginPoll];
    more := DrainSingles(steps, RING_SIZE / 2 - 1);
    steps := steps + more;
    assert OpenLength(Run(steps).value.arrived) == 0;
    i := |Run(steps).value.frames|;
    more := StraddlingVisits(steps);
    LastStart(steps, steps + more);
    steps := steps + more;
    FrameReadIff(steps, i);
  }

  // The frame delivered last started where the head stood before it.
  lemma LastStart(steps: seq<Step>, all: seq<Step>)
    requires Run(steps).Some? && Run(all).Some?
    requires var s, t := Run(steps).value, Run(all).value;
             t.head == s.head + 2 && |t.frames| == |s.frames| + 1 && |t.frames[|s.frames|]| == 2
    ensures |Run(all).value.delivered| == |Run(all).value.frames|
    ensures Start(Run(all).value.frames, |Run(steps).value.frames|) == Run(steps).value.head
  {
    hide Run, Flatten;
    RunsKeepInvariant(all);
    var t := Run(all).value;
    StartAtEnd(t.frames);
    StartSteps(t.frames, |t.frames| - 1);
  }
}

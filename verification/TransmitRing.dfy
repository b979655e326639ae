/**
 The transmit ring as a state machine: the driver's calls and the steps of the DMA engine.

 A frame is created (its descriptors are reserved, all but the first handed to the engine), its buffers
 are written, and it is published (the first descriptor is handed over last).  A poll walks the
 descriptors the engine has returned; the engine may step between any two visits of the walk.
 */
module TransmitRing {
  import opened Bytes
  import opened DescriptorRing
  import opened Wrappers

  const FRAME_HEADER: nat := 14

  // One descriptor together with the buffer it points to.
  datatype Descriptor = Descriptor(owned: bool, size: nat, first: bool, last: bool, errors: nat, data: seq<Byte>)

  datatype Fragment = Fragment(size: nat, first: bool, last: bool, data: seq<Byte>)

  function Carried(d: Descriptor): Fragment {
    Fragment(d.size, d.first, d.last, d.data)
  }

  datatype Report = Report(errors: nat, length: nat, slot: nat)

  // Where a poll stands: the descriptor it visits next, the bytes since the last frame, the frames left.
  datatype Walk = Walk(peek: nat, length: nat, left: nat)

  datatype State = State(
    ring: seq<Descriptor>,
    head: nat, // transmitedDescriptor
    tail: nat, // transmitableDescriptor
    dma: nat, // the engine's current descriptor
    pending: Option<nat>, // first descriptor of a frame created and not yet published
    walk: Option<Walk>,
    submitted: seq<seq<Fragment>>, // frames published, as their fragments were
    wire: seq<Fragment>, // what the engine put on the wire
    statuses: seq<nat>, // the errors it set for each fragment
    reports: seq<Report>) // calls of transmited()

  function Initial(): State {
    State(seq(RING_SIZE, _ => Descriptor(false, 0, false, false, 0, [])), 0, 0, 0, None, None, [], [], [], [])
  }

  // ---------------------------------------------------------------------------
  // Fragments of a frame
  // ---------------------------------------------------------------------------

  // The total length is 16 bits wide and wraps.
  function TotalLength(payloadLength: nat): (total: nat)
    ensures total < LIMIT_16
  {
    (FRAME_HEADER + payloadLength) % LIMIT_16
  }

  function FragmentCount(total: nat): (k: nat)
    ensures k > 0
    ensures total < LIMIT_16 ==> k <= RING_SIZE
  {
    if total == 0 then 1 else (total + BUFFER_SIZE - 1) / BUFFER_SIZE
  }

  function FragmentSize(total: nat, j: nat): (size: nat)
    requires j < FragmentCount(total)
    ensures size <= BUFFER_SIZE
    ensures j < FragmentCount(total) - 1 ==> size == BUFFER_SIZE
    ensures total > 0 ==> size > 0
  {
    if total - BUFFER_SIZE * j < BUFFER_SIZE then total - BUFFER_SIZE * j else BUFFER_SIZE
  }

  function ReservedDescriptor(d: Descriptor, total: nat, j: nat): Descriptor
    requires j < FragmentCount(total)
  {
    d.(size := FragmentSize(total, j), first := j == 0, last := j == FragmentCount(total) - 1, owned := j != 0)
  }

  // The ring after the first n descriptors from `tail` on were reserved.
  function Reserved(ring: seq<Descriptor>, tail: nat, total: nat, n: nat): (r: seq<Descriptor>)
    requires |ring| == RING_SIZE && n <= FragmentCount(total)
    ensures |r| == RING_SIZE
  {
    if n == 0 then ring
    else
      var r := Reserved(ring, tail, total, n - 1);
      var i := Slot(tail + n - 1);
      r[i := ReservedDescriptor(r[i], total, n - 1)]
  }

  predicate HasRoom(ring: seq<Descriptor>, tail: nat, k: nat)
    requires |ring| == RING_SIZE
  {
    forall p | tail <= p < tail + k :: ring[Slot(p)].size == 0
  }

  // The ring after n descriptors from `head` on were given back.
  function Reclaimed(ring: seq<Descriptor>, head: nat, n: nat): (r: seq<Descriptor>)
    requires |ring| == RING_SIZE
    ensures |r| == RING_SIZE
  {
    if n == 0 then ring
    else
      var r := Reclaimed(ring, head, n - 1);
      var i := Slot(head + n - 1);
      r[i := r[i].(owned := false, errors := 0, size := 0)]
  }

  // ---------------------------------------------------------------------------
  // Steps
  // ---------------------------------------------------------------------------

  datatype Step =
    | Create(linkStatus: bool, payloadLength: nat)
    | Write(j: nat, data: seq<Byte>)
    | Publish
    | Engine(errors: nat)
    | BeginPoll
    | Visit

  predicate Creates(s: State, linkStatus: bool, payloadLength: nat)
    requires |s.ring| == RING_SIZE
  {
    linkStatus && HasRoom(s.ring, s.tail, FragmentCount(TotalLength(payloadLength)))
  }

  function Created(s: State, linkStatus: bool, payloadLength: nat): State
    requires |s.ring| == RING_SIZE
  {
    if !Creates(s, linkStatus, payloadLength) then s
    else
      var total := TotalLength(payloadLength);
      var k := FragmentCount(total);
      s.(ring := Reserved(s.ring, s.tail, total, k), tail := s.tail + k, pending := Some(s.tail))
  }

  function Written(s: State, j: nat, data: seq<Byte>): State
    requires |s.ring| == RING_SIZE && s.pending.Some?
  {
    var p := s.pending.value + j;
    s.(ring := s.ring[Slot(p) := s.ring[Slot(p)].(data := data)])
  }

  function Published(s: State): State
    requires |s.ring| == RING_SIZE && s.pending.Some? && s.pending.value <= s.tail
  {
    var p := s.pending.value;
    s.(ring := s.ring[Slot(p) := s.ring[Slot(p)].(owned := true)], pending := None,
       submitted := s.submitted + [Contents(s.ring, p, s.tail, Carried)])
  }

  // The engine works on a descriptor it owns, returns it and moves on; otherwise it is suspended.
  function EngineStepped(s: State, errors: nat): State
    requires |s.ring| == RING_SIZE
  {
    var d := s.ring[Slot(s.dma)];
    if !d.owned then s
    else s.(ring := s.ring[Slot(s.dma) := d.(owned := false, errors := errors)],
            dma := s.dma + 1, wire := s.wire + [Carried(d)], statuses := s.statuses + [errors])
  }

  function PollBegun(s: State): State {
    s.(pending := None, walk := Some(Walk(s.head, 0, RING_SIZE)))
  }

  function Visited(s: State): State
    requires |s.ring| == RING_SIZE && s.walk.Some? && s.head <= s.walk.value.peek && s.walk.value.left > 0
  {
    var Walk(peek, length, left) := s.walk.value;
    var d := s.ring[Slot(peek)];
    if d.owned || d.size == 0 then s.(walk := None)
    else if !d.last then s.(walk := Some(Walk(peek + 1, length + d.size, left)))
    else
      s.(reports := s.reports + [Report(d.errors, length + d.size, Slot(s.head))],
         ring := Reclaimed(s.ring, s.head, peek + 1 - s.head),
         head := peek + 1,
         walk := if left == 1 then None else Some(Walk(peek + 1, 0, left - 1)))
  }

  // Calls do not overlap, and only the frame created last is written and published, before the next poll.
  predicate Enabled(s: State, step: Step) {
    && |s.ring| == RING_SIZE
    && match step
       case Create(_, payloadLength) => s.walk.None? && payloadLength < LIMIT_16
       case Write(j, _) => s.pending.Some? && s.pending.value + j < s.tail
       case Publish => s.pending.Some? && s.pending.value < s.tail
       case Engine(_) => true
       case BeginPoll => s.walk.None?
       case Visit => s.walk.Some? && s.head <= s.walk.value.peek && s.walk.value.left > 0
  }

  function Apply(s: State, step: Step): State
    requires Enabled(s, step)
  {
    match step
    case Create(linkStatus, payloadLength) => Created(s, linkStatus, payloadLength)
    case Write(j, data) => Written(s, j, data)
    case Publish => Published(s)
    case Engine(errors) => EngineStepped(s, errors)
    case BeginPoll => PollBegun(s)
    case Visit => Visited(s)
  }

  // The state after the steps, or None when one of them was not enabled.
  function Run(steps: seq<Step>): Option<State> {
    if steps == [] then Some(Initial())
    else
      var s := Run(steps[..|steps| - 1]);
      if s.Some? && Enabled(s.value, steps[|steps| - 1]) then Some(Apply(s.value, steps[|steps| - 1])) else None
  }

  lemma RunExtends(steps: seq<Step>, step: Step)
    requires Run(steps).Some? && Enabled(Run(steps).value, step)
    ensures Run(steps + [step]) == Some(Apply(Run(steps).value, step))
  {
    assert (steps + [step])[..|steps|] == steps;
  }

  // ---------------------------------------------------------------------------
  // When a frame is given
  // ---------------------------------------------------------------------------

  // Descriptor number j from number i on.
  function Ahead(i: nat, j: nat): (r: nat)
    ensures r < 128
  {
    (i + j) % 128
  }

  // A frame with this payload has a byte in its buffer number j; the first is always taken.
  predicate NeedsBuffer(payloadLength: nat, j: nat) {
    j == 0 || 1536 * j < (14 + payloadLength) % 0x1_0000
  }

  // All it needs is vacant from descriptor i on.
  ghost predicate VacantFor(ring: seq<Descriptor>, i: nat, payloadLength: nat)
    requires |ring| == 128
  {
    forall j: nat {:trigger Ahead(i, j)} | NeedsBuffer(payloadLength, j) :: ring[Ahead(i, j)].size == 0
  }

  lemma NeedsFragments(payloadLength: nat, j: nat)
    ensures NeedsBuffer(payloadLength, j) <==> j < FragmentCount(TotalLength(payloadLength))
  {
  }

  lemma {:induction false} RoomIffVacant(ring: seq<Descriptor>, tail: nat, payloadLength: nat)
    requires |ring| == RING_SIZE
    ensures HasRoom(ring, tail, FragmentCount(TotalLength(payloadLength))) <==> VacantFor(ring, tail, payloadLength)
  {
    hide FragmentCount, TotalLength, NeedsBuffer;
    if VacantFor(ring, tail, payloadLength) {
      forall p | tail <= p < tail + FragmentCount(TotalLength(payloadLength)) ensures ring[Slot(p)].size == 0 {
        NeedsFragments(payloadLength, p - tail);
        assert Slot(p) == Ahead(tail, p - tail);
      }
    }
    if HasRoom(ring, tail, FragmentCount(TotalLength(payloadLength))) {
      forall j: nat | NeedsBuffer(payloadLength, j) ensures ring[Ahead(tail, j)].size == 0 {
        NeedsFragments(payloadLength, j);
        assert Slot(tail + j) == Ahead(tail, j);
      }
    }
  }

  /** createFrame changes the ring if and only if the link is up and every descriptor the frame needs is vacant:
      those of its buffers, up to the length, which wraps at 16 bits. */
  lemma {:induction false} FrameIsCreatedIff(s: State, linkStatus: bool, payloadLength: nat)
    requires |s.ring| == RING_SIZE
    ensures Created(s, linkStatus, payloadLength) != s <==> linkStatus && VacantFor(s.ring, s.tail, payloadLength)
    ensures payloadLength <= 65521 ==>
              forall j: nat :: NeedsBuffer(payloadLength, j) <==> 1536 * j < 14 + payloadLength
  {
    RoomIffVacant(s.ring, s.tail, payloadLength);
    hide VacantFor, HasRoom, Reserved, FragmentCount;
  }

  lemma VacantFromSlot(ring: seq<Descriptor>, tail: nat, payloadLength: nat)
    requires |ring| == RING_SIZE
    ensures VacantFor(ring, Slot(tail), payloadLength) <==> VacantFor(ring, tail, payloadLength)
  {
    hide NeedsBuffer;
    forall j: nat ensures Ahead(Slot(tail), j) == Ahead(tail, j) {
      var q := tail / 128;
      assert tail == 128 * q + Slot(tail);
      LapsDoNotMatter(q, Slot(tail) + j);
    }
  }

  lemma LapsDoNotMatter(q: nat, x: nat)
    ensures (128 * q + x) % 128 == x % 128
  {
  }

  // ---------------------------------------------------------------------------
  // The window invariant
  // ---------------------------------------------------------------------------

  // The descriptors in use are the window from head to tail, and it splits into whole frames.
  ghost predicate Window(ring: seq<Descriptor>, head: nat, tail: nat) {
    && |ring| == RING_SIZE
    && head <= tail <= head + RING_SIZE
    && (forall p {:trigger Slot(p)} | head <= p < tail :: ring[Slot(p)].size > 0)
    && (forall p {:trigger Slot(p)} | tail <= p < head + RING_SIZE :: ring[Slot(p)].size == 0 && !ring[Slot(p)].owned)
    && (head < tail ==> ring[Slot(head)].first && ring[Slot(tail - 1)].last)
    && (forall p | head < p < tail :: Follows(ring, p))
  }

  // A frame starts at p exactly when one ends in front of it.
  ghost predicate Follows(ring: seq<Descriptor>, p: nat)
    requires |ring| == RING_SIZE && p > 0
  {
    ring[Slot(p)].first == ring[Slot(p - 1)].last
  }

  ghost predicate PendingFits(s: State)
    requires |s.ring| == RING_SIZE
  {
    s.pending.Some? ==>
      && s.walk.None?
      && s.head <= s.pending.value < s.tail
      && !s.ring[Slot(s.pending.value)].owned && s.ring[Slot(s.pending.value)].first
  }

  // The positions from head to peek were returned by the engine and end no frame.
  ghost predicate Returned(ring: seq<Descriptor>, head: nat, peek: nat)
    requires |ring| == RING_SIZE
  {
    forall p {:trigger Slot(p)} | head <= p < peek :: !ring[Slot(p)].owned && !ring[Slot(p)].last
  }

  ghost predicate WalkFits(s: State)
    requires |s.ring| == RING_SIZE
  {
    s.walk.Some? ==>
      var peek := s.walk.value.peek;
      && s.walk.value.left > 0
      && s.head <= peek <= s.tail
      && (peek == s.tail ==> s.head == s.tail)
      && Returned(s.ring, s.head, peek)
  }

  ghost predicate RingInvariant(s: State) {
    Window(s.ring, s.head, s.tail) && PendingFits(s) && WalkFits(s)
  }

  lemma RingLength(s: State)
    requires RingInvariant(s)
    ensures |s.ring| == RING_SIZE
  {
  }

  lemma InitialInvariant()
    ensures RingInvariant(Initial())
  {
  }

  lemma {:induction false} ReservedAt(ring: seq<Descriptor>, tail: nat, total: nat, n: nat)
    requires |ring| == RING_SIZE && n <= FragmentCount(total) && n <= RING_SIZE
    ensures forall p {:trigger Slot(p)} | tail <= p < tail + RING_SIZE ::
              Reserved(ring, tail, total, n)[Slot(p)] ==
              if p < tail + n then ReservedDescriptor(ring[Slot(p)], total, p - tail) else ring[Slot(p)]
  {
    if n > 0 {
      ReservedAt(ring, tail, total, n - 1);
      var r := Reserved(ring, tail, total, n - 1);
      UpdateAt(r, tail, tail + n - 1, ReservedDescriptor(r[Slot(tail + n - 1)], total, n - 1));
    }
  }

  lemma {:induction false} ReclaimedAt(ring: seq<Descriptor>, head: nat, n: nat)
    requires |ring| == RING_SIZE && n <= RING_SIZE
    ensures forall p {:trigger Slot(p)} | head <= p < head + RING_SIZE ::
              Reclaimed(ring, head, n)[Slot(p)] ==
              if p < head + n then ring[Slot(p)].(owned := false, errors := 0, size := 0) else ring[Slot(p)]
  {
    if n > 0 {
      ReclaimedAt(ring, head, n - 1);
      var r := Reclaimed(ring, head, n - 1);
      UpdateAt(r, head, head + n - 1, r[Slot(head + n - 1)].(owned := false, errors := 0, size := 0));
    }
  }

  // A vacant descriptor lies behind the window, so room for k means k free positions.
  lemma RoomIsFree(ring: seq<Descriptor>, head: nat, tail: nat, k: nat)
    requires Window(ring, head, tail) && HasRoom(ring, tail, k) && 0 < k <= RING_SIZE
    ensures tail + k <= head + RING_SIZE
  {
    SlotWraps(head);
    assert head < tail ==> ring[Slot(head)].size > 0;
  }

  // Reserving changes the new positions and nothing else of the lap.
  lemma ReservedLap(ring: seq<Descriptor>, head: nat, tail: nat, total: nat)
    requires Window(ring, head, tail) && total < LIMIT_16 && HasRoom(ring, tail, FragmentCount(total))
    ensures tail + FragmentCount(total) <= head + RING_SIZE
    ensures forall p {:trigger Slot(p)} | head <= p < head + RING_SIZE ::
              Reserved(ring, tail, total, FragmentCount(total))[Slot(p)] ==
              if tail <= p < tail + FragmentCount(total) then ReservedDescriptor(ring[Slot(p)], total, p - tail)
              else ring[Slot(p)]
  {
    var k := FragmentCount(total);
    RoomIsFree(ring, head, tail, k);
    ReservedAt(ring, tail, total, k);
    hide FragmentCount, Window, HasRoom;
    var ring' := Reserved(ring, tail, total, k);
    forall p | head <= p < tail ensures ring'[Slot(p)] == ring[Slot(p)] {
      SlotWraps(p);
      assert ring'[Slot(p + RING_SIZE)] == ring[Slot(p + RING_SIZE)];
    }
  }

  lemma WindowGrows(ring: seq<Descriptor>, head: nat, tail: nat, total: nat)
    requires Window(ring, head, tail) && 0 < total < LIMIT_16 && HasRoom(ring, tail, FragmentCount(total))
    ensures Window(Reserved(ring, tail, total, FragmentCount(total)), head, tail + FragmentCount(total))
  {
    ReservedLap(ring, head, tail, total);
    hide FragmentCount, FragmentSize, Reserved, Slot;
    var ring', tail' := Reserved(ring, tail, total, FragmentCount(total)), tail + FragmentCount(total);
    forall p | head <= p < tail' ensures ring'[Slot(p)].size > 0 {
      if tail <= p {
        assert FragmentSize(total, p - tail) > 0;
      }
    }
    forall p | head < p < tail' ensures Follows(ring', p) {
      if p <= tail {
        assert p < tail ==> Follows(ring, p);
        assert ring'[Slot(p - 1)] == ring[Slot(p - 1)];
      } else {
        assert ring'[Slot(p - 1)] == ReservedDescriptor(ring[Slot(p - 1)], total, p - 1 - tail);
      }
    }
  }

  // A frame is created whose total length wraps to zero.
  predicate CreatesEmpty(s: State, step: Step)
    requires |s.ring| == RING_SIZE
  {
    step.Create? && TotalLength(step.payloadLength) == 0 && Creates(s, step.linkStatus, step.payloadLength)
  }

  // Such a frame leaves a vacant descriptor inside the window.
  lemma {:induction false} EmptyFrameBreaksWindow(s: State, linkStatus: bool, payloadLength: nat)
    requires RingInvariant(s) && CreatesEmpty(s, Create(linkStatus, payloadLength))
    ensures payloadLength < LIMIT_16 ==> payloadLength == 65522
    ensures !RingInvariant(Created(s, linkStatus, payloadLength))
  {
    var r := Created(s, linkStatus, payloadLength);
    ReservedAt(s.ring, s.tail, 0, 1);
    assert r.ring[Slot(s.tail)].size == 0;
  }

  lemma CreatedKeeps(s: State, linkStatus: bool, payloadLength: nat)
    requires RingInvariant(s) && Enabled(s, Create(linkStatus, payloadLength))
    requires !CreatesEmpty(s, Create(linkStatus, payloadLength))
    ensures RingInvariant(Created(s, linkStatus, payloadLength))
  {
    if Creates(s, linkStatus, payloadLength) {
      var total := TotalLength(payloadLength);
      WindowGrows(s.ring, s.head, s.tail, total);
      ReservedLap(s.ring, s.head, s.tail, total);
      hide Reserved, FragmentCount, FragmentSize, TotalLength, Window;
    }
  }

  // Replacing a descriptor in the window by one of the same size and flags keeps the window.
  lemma UpdateKeepsWindow(ring: seq<Descriptor>, head: nat, tail: nat, p: nat, d: Descriptor)
    requires Window(ring, head, tail) && head <= p < tail
    requires d.size == ring[Slot(p)].size && d.first == ring[Slot(p)].first && d.last == ring[Slot(p)].last
    ensures Window(ring[Slot(p) := d], head, tail)
    ensures forall q {:trigger Slot(q)} | head <= q < head + RING_SIZE ::
              ring[Slot(p) := d][Slot(q)] == if q == p then d else ring[Slot(q)]
  {
    UpdateAt(ring, head, p, d);
    hide Slot;
    var ring' := ring[Slot(p) := d];
    forall q | head < q < tail ensures Follows(ring', q) {
      assert Follows(ring, q);
      assert ring'[Slot(q - 1)].last == ring[Slot(q - 1)].last;
    }
  }

  lemma WrittenKeeps(s: State, j: nat, data: seq<Byte>)
    requires RingInvariant(s) && Enabled(s, Write(j, data))
    ensures RingInvariant(Written(s, j, data))
  {
    var p := s.pending.value + j;
    UpdateKeepsWindow(s.ring, s.head, s.tail, p, s.ring[Slot(p)].(data := data));
    hide Window, Slot;
  }

  lemma PublishedKeeps(s: State)
    requires RingInvariant(s) && Enabled(s, Publish)
    ensures RingInvariant(Published(s))
  {
    var p := s.pending.value;
    UpdateKeepsWindow(s.ring, s.head, s.tail, p, s.ring[Slot(p)].(owned := true));
    hide Contents, Window;
  }

  // An owned descriptor has a position in the window.
  lemma OwnedPosition(ring: seq<Descriptor>, head: nat, tail: nat, i: nat) returns (p: nat)
    requires Window(ring, head, tail) && i < RING_SIZE && ring[i].owned
    ensures head <= p < tail && Slot(p) == i
  {
    p := PositionOf(head, i);
    assert ring[Slot(p)].owned;
  }

  lemma EngineKeeps(s: State, errors: nat)
    requires RingInvariant(s)
    ensures RingInvariant(EngineStepped(s, errors))
  {
    var d := s.ring[Slot(s.dma)];
    if d.owned {
      var p := OwnedPosition(s.ring, s.head, s.tail, Slot(s.dma));
      UpdateKeepsWindow(s.ring, s.head, s.tail, p, d.(owned := false, errors := errors));
      hide Window, Slot;
    }
  }

  lemma ReclaimKeepsWindow(ring: seq<Descriptor>, head: nat, tail: nat, peek: nat)
    requires Window(ring, head, tail) && head <= peek < tail && ring[Slot(peek)].last
    ensures Window(Reclaimed(ring, head, peek + 1 - head), peek + 1, tail)
    ensures forall q {:trigger Slot(q)} | peek < q < head + RING_SIZE ::
              Reclaimed(ring, head, peek + 1 - head)[Slot(q)] == ring[Slot(q)]
  {
    var n := peek + 1 - head;
    var ring' := Reclaimed(ring, head, n);
    ReclaimedAt(ring, head, n);
    hide Reclaimed, Slot;
    forall q | head + RING_SIZE <= q < peek + 1 + RING_SIZE
      ensures ring'[Slot(q)].size == 0 && !ring'[Slot(q)].owned
    {
      SlotWraps(q - RING_SIZE);
      assert ring'[Slot(q - RING_SIZE)].size == 0;
    }
    assert peek + 1 < tail ==> Follows(ring, peek + 1);
    forall q | peek + 1 < q < tail ensures Follows(ring', q) {
      assert Follows(ring, q);
      assert ring'[Slot(q - 1)].last == ring[Slot(q - 1)].last;
    }
  }

  lemma VisitedKeeps(s: State)
    requires RingInvariant(s) && Enabled(s, Visit)
    ensures RingInvariant(Visited(s))
  {
    hide Reclaimed, Slot, Follows;
    var peek := s.walk.value.peek;
    var d := s.ring[Slot(peek)];
    assert peek == s.tail ==> d.size == 0;
    if !d.owned && d.size != 0 && d.last {
      ReclaimKeepsWindow(s.ring, s.head, s.tail, peek);
    }
    hide Window;
  }

  lemma PollBegunKeeps(s: State)
    requires RingInvariant(s)
    ensures RingInvariant(PollBegun(s))
  {
  }

  /** A step keeps the window if and only if it does not create an empty frame. */
  lemma {:induction false} StepKeepsIff(s: State, step: Step)
    requires RingInvariant(s) && Enabled(s, step)
    ensures RingInvariant(Apply(s, step)) <==> !CreatesEmpty(s, step)
  {
    hide Created, Written, Published, EngineStepped, PollBegun, Visited, RingInvariant, Creates, TotalLength;
    match step
    case Create(linkStatus, payloadLength) =>
      if CreatesEmpty(s, step) {
        EmptyFrameBreaksWindow(s, linkStatus, payloadLength);
      } else {
        CreatedKeeps(s, linkStatus, payloadLength);
      }
    case Write(j, data) => WrittenKeeps(s, j, data);
    case Publish => PublishedKeeps(s);
    case Engine(errors) => EngineKeeps(s, errors);
    case BeginPoll => PollBegunKeeps(s);
    case Visit => VisitedKeeps(s);
  }

  ghost predicate NeverCreatesEmpty(steps: seq<Step>) {
    forall i | 0 <= i < |steps| && Run(steps[..i]).Some? && |Run(steps[..i]).value.ring| == RING_SIZE ::
      !CreatesEmpty(Run(steps[..i]).value, steps[i])
  }

  lemma NeverEmptyFront(steps: seq<Step>, n: nat)
    requires NeverCreatesEmpty(steps) && n <= |steps|
    ensures NeverCreatesEmpty(steps[..n])
    ensures n < |steps| && Run(steps[..n]).Some? && |Run(steps[..n]).value.ring| == RING_SIZE ==>
              !CreatesEmpty(Run(steps[..n]).value, steps[n])
  {
    assert forall i | 0 <= i < n :: steps[..n][..i] == steps[..i];
  }

  /** Over every run that creates no empty frame, the descriptors in use are one cyclic window of whole frames,
      full and empty told apart by the sizes, and the engine owns nothing outside it. */
  lemma {:induction false} RunsKeepInvariant(steps: seq<Step>)
    requires Run(steps).Some? && NeverCreatesEmpty(steps)
    ensures RingInvariant(Run(steps).value)
  {
    hide RingInvariant, Enabled, Apply, CreatesEmpty;
    if steps == [] {
      InitialInvariant();
    } else {
      var n := |steps| - 1;
      NeverEmptyFront(steps, n);
      RunsKeepInvariant(steps[..n]);
      RingLength(Run(steps[..n]).value);
      StepKeepsIff(Run(steps[..n]).value, steps[n]);
    }
  }

  // ---------------------------------------------------------------------------
  // Ownership
  // ---------------------------------------------------------------------------

  // A write goes to descriptor i of the frame created last.
  predicate WritesTo(s: State, step: Step, i: nat) {
    step.Write? && s.pending.Some? && Slot(s.pending.value + step.j) == i
  }

  // Descriptor i as a driver call leaves it that does not take it.
  function Kept(s: State, step: Step, i: nat): Descriptor
    requires i < |s.ring|
  {
    if WritesTo(s, step, i) then s.ring[i].(data := step.data) else s.ring[i]
  }

  /** No call of the driver changes a descriptor the engine owns; only the processor's writes to the frame
      created last change the buffer behind one. */
  lemma {:induction false} DriverLeavesOwnedAlone(s: State, step: Step, i: nat)
    requires RingInvariant(s) && Enabled(s, step) && !step.Engine?
    requires i < RING_SIZE && s.ring[i].owned
    ensures |Apply(s, step).ring| == RING_SIZE
    ensures Apply(s, step).ring[i] == Kept(s, step, i)
  {
    var p := OwnedPosition(s.ring, s.head, s.tail, i);
    match step
    case Create(linkStatus, payloadLength) =>
      if Creates(s, linkStatus, payloadLength) {
        ReservedLap(s.ring, s.head, s.tail, TotalLength(payloadLength));
        hide Reserved, Window, HasRoom, Slot, FragmentCount, TotalLength;
      }
    case Visit =>
      if !s.ring[Slot(s.walk.value.peek)].owned {
        ReclaimLeavesOwned(s.ring, s.head, s.walk.value.peek, p);
      }
      hide Reclaimed, Window, Slot;
    case Write(j, data) =>
      hide Window, Slot;
      assert WritesTo(s, step, i) <==> Slot(s.pending.value + j) == i;
    case _ =>
      hide Window;
  }

  lemma ReclaimLeavesOwned(ring: seq<Descriptor>, head: nat, peek: nat, p: nat)
    requires |ring| == RING_SIZE && head <= peek < head + RING_SIZE && Returned(ring, head, peek)
    requires !ring[Slot(peek)].owned && head <= p < head + RING_SIZE && ring[Slot(p)].owned
    ensures Reclaimed(ring, head, peek + 1 - head)[Slot(p)] == ring[Slot(p)]
  {
    ReclaimedAt(ring, head, peek + 1 - head);
    hide Reclaimed, Slot;
  }

  /** A visit brings the walk closer to the end of the window or ends the poll. */
  lemma {:induction false} VisitsTerminate(s: State)
    requires RingInvariant(s) && Enabled(s, Visit)
    ensures var r := Visited(s);
            r.walk.Some? ==>
              r.tail - r.walk.value.peek < s.tail - s.walk.value.peek && r.walk.value.peek <= r.tail
  {
    hide Reclaimed;
    assert s.walk.value.peek == s.tail ==> s.ring[Slot(s.tail)].size == 0;
  }

  // ---------------------------------------------------------------------------
  // Polls end, whatever was created
  // ---------------------------------------------------------------------------

  // A walk goes no further than this descriptor within a frame.
  predicate Stops(d: Descriptor) {
    d.size == 0 || d.last
  }

  ghost predicate NoStop(ring: seq<Descriptor>, head: nat, peek: nat)
    requires |ring| == RING_SIZE
  {
    forall p {:trigger Slot(p)} | head <= p < peek :: !Stops(ring[Slot(p)])
  }

  // Some descriptor stops a walk, and the walk stands in front of the first one behind head.
  ghost predicate WalkInvariant(s: State) {
    && |s.ring| == RING_SIZE
    && (exists i :: 0 <= i < RING_SIZE && Stops(s.ring[i]))
    && (s.walk.Some? ==>
          s.walk.value.left > 0 && s.head <= s.walk.value.peek && NoStop(s.ring, s.head, s.walk.value.peek))
  }

  lemma InitialWalks()
    ensures WalkInvariant(Initial())
  {
    assert Stops(Initial().ring[0]);
  }

  lemma WalkWithinLap(s: State)
    requires WalkInvariant(s) && s.walk.Some?
    ensures s.walk.value.peek < s.head + RING_SIZE
  {
    var i :| 0 <= i < RING_SIZE && Stops(s.ring[i]);
    var p := PositionOf(s.head, i);
  }

  // A descriptor replaced by one that stops a walk just as before.
  lemma SameStops(s: State, i: nat, d: Descriptor)
    requires WalkInvariant(s) && i < RING_SIZE && Stops(d) == Stops(s.ring[i])
    ensures WalkInvariant(s.(ring := s.ring[i := d]))
  {
    var k :| 0 <= k < RING_SIZE && Stops(s.ring[k]);
    assert Stops(s.ring[i := d][k]);
    hide Stops, Slot;
  }

  lemma CreatedWalks(s: State, linkStatus: bool, payloadLength: nat)
    requires WalkInvariant(s) && Enabled(s, Create(linkStatus, payloadLength))
    ensures WalkInvariant(Created(s, linkStatus, payloadLength))
  {
    if Creates(s, linkStatus, payloadLength) {
      var total := TotalLength(payloadLength);
      var k := FragmentCount(total);
      ReservedAt(s.ring, s.tail, total, k);
      hide FragmentCount, FragmentSize, Slot, Reserved;
      assert Stops(Reserved(s.ring, s.tail, total, k)[Slot(s.tail + k - 1)]);
    }
  }

  lemma VisitedWalks(s: State)
    requires WalkInvariant(s) && Enabled(s, Visit)
    ensures WalkInvariant(Visited(s))
  {
    WalkWithinLap(s);
    var peek := s.walk.value.peek;
    var d := s.ring[Slot(peek)];
    if !d.owned && d.size != 0 && d.last {
      var n := peek + 1 - s.head;
      ReclaimedAt(s.ring, s.head, n);
      hide Reclaimed, Slot;
      assert Stops(Reclaimed(s.ring, s.head, n)[Slot(peek)]);
    } else {
      var k :| 0 <= k < RING_SIZE && Stops(s.ring[k]);
      assert Stops(Visited(s).ring[k]);
    }
  }

  lemma StepWalks(s: State, step: Step)
    requires WalkInvariant(s) && Enabled(s, step)
    ensures WalkInvariant(Apply(s, step))
  {
    match step
    case Create(linkStatus, payloadLength) => CreatedWalks(s, linkStatus, payloadLength);
    case Write(j, data) =>
      var i := Slot(s.pending.value + j);
      SameStops(s, i, s.ring[i].(data := data));
    case Publish =>
      var i := Slot(s.pending.value);
      SameStops(s, i, s.ring[i].(owned := true));
      hide Contents;
    case Engine(errors) =>
      var i := Slot(s.dma);
      SameStops(s, i, s.ring[i].(owned := false, errors := errors));
    case BeginPoll =>
    case Visit => VisitedWalks(s);
  }

  lemma {:induction false} RunsWalk(steps: seq<Step>)
    requires Run(steps).Some?
    ensures WalkInvariant(Run(steps).value)
  {
    hide WalkInvariant, Enabled, Apply;
    if steps == [] {
      InitialWalks();
    } else {
      RunsWalk(steps[..|steps| - 1]);
      StepWalks(Run(steps[..|steps| - 1]).value, steps[|steps| - 1]);
    }
  }

  /** In every run, with or without empty frames, a visit uses up budget, or moves the walk within one lap,
      or ends it. */
  lemma {:induction false} PollsEnd(steps: seq<Step>)
    requires Run(steps).Some? && Enabled(Run(steps).value, Visit)
    ensures var s := Run(steps).value;
            var r := Visited(s);
            r.walk.Some? ==>
              r.walk.value.left < s.walk.value.left
              || (r.walk.value.left == s.walk.value.left && r.head == s.head
                  && s.walk.value.peek < r.walk.value.peek < s.head + RING_SIZE)
  {
    RunsWalk(steps);
    VisitedWalks(Run(steps).value);
    hide Run, Reclaimed;
    if Visited(Run(steps).value).walk.Some? {
      WalkWithinLap(Visited(Run(steps).value));
    }
  }
}

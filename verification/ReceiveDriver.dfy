/** The receive side of the driver over an array of descriptors, proved to take the steps of ReceiveRing. */
module ReceiveDriver {
  import opened Bytes
  import opened DescriptorRing
  import opened ReceiveRing
  import opened Wrappers

  class Receiver {
    const ring: array<Descriptor>
    const base: nat // address of the receive buffers
    var receivedDescriptor: nat
    var engineDescriptor: nat // the engine's register
    var engineRunning: bool
    var openFragments: nat // how much of the current frame the engine wrote
    var delivered: seq<Delivery> // calls of received()
    ghost var steps: seq<Step> // the steps taken since initialization

    ghost function Model(): State
      reads this
      requires Run(steps).Some?
    {
      Run(steps).value
    }

    // The fields and the array are the state the steps lead to.
    ghost predicate Mirrors()
      reads this, ring
    {
      && ring.Length == RING_SIZE
      && Run(steps).Some?
      && Model().ring == ring[..]
      && receivedDescriptor == Slot(Model().head)
      && engineDescriptor == Model().dma < RING_SIZE
      && engineRunning == Model().running
      && openFragments == OpenLength(Model().arrived)
      && delivered == Model().delivered
    }

    ghost predicate Valid()
      reads this, ring
    {
      Mirrors() && Model().phase.Idle?
    }

    constructor (base: nat)
      ensures Valid() && steps == [] && fresh(ring)
    {
      this.base := base;
      ring := new Descriptor[RING_SIZE](_ => Descriptor(true, false, 0, []));
      receivedDescriptor, engineDescriptor, engineRunning, openFragments := 0, 0, true, 0;
      delivered, steps := [], [];
    }

    // The model takes a step; the caller's fields and array already do.
    ghost method Take(step: Step)
      requires Run(steps).Some? && Enabled(Model(), step)
      modifies this`steps
      ensures steps == old(steps) + [step] && Run(steps).Some? && Model() == Apply(old(Model()), step)
    {
      RunExtends(steps, step);
      steps := steps + [step];
    }

    // The hardware: a fragment arrives.
    method EngineStep(fragment: Fragment)
      requires Mirrors() && Enabled(Model(), Arrive(fragment))
      modifies this`steps, this`engineDescriptor, this`engineRunning, this`openFragments, ring
      ensures Mirrors() && steps == old(steps) + [Arrive(fragment)]
    {
      hide Run, OpenLength;
      ghost var arrived := Model().arrived;
      Take(Arrive(fragment));
      if !engineRunning {
      } else if !ring[engineDescriptor].owned {
        engineRunning := false;
      } else {
        ring[engineDescriptor] := Descriptor(false, fragment.last, fragment.errors, fragment.data);
        engineDescriptor := Next(engineDescriptor);
        openFragments := if fragment.last then 0 else openFragments + 1;
        OpenLengthStep(arrived, fragment);
      }
    }

    // Fragments arrive, as far as they belong to frames that fit in the ring.
    method EngineSteps(fragments: seq<Fragment>)
      requires Mirrors()
      modifies this`steps, this`engineDescriptor, this`engineRunning, this`openFragments, ring
      ensures Mirrors() && Continues(old(steps), steps)
      ensures Model().phase == old(Model()).phase && Model().head == old(Model()).head
    {
      hide Run, OpenLength;
      ghost var phase, head := Model().phase, Model().head;
      for i := 0 to |fragments|
        invariant Mirrors() && Continues(old(steps), steps)
        invariant Model().phase == phase && Model().head == head
      {
        if fragments[i].last || openFragments + 1 < RING_SIZE {
          ghost var before := steps;
          EngineStep(fragments[i]);
          RunExtends(before, Arrive(fragments[i]));
        }
      }
    }

    // Gives the descriptors up to the one at position `peek` to the engine.
    method Return(peekDescriptor: nat, ghost head: nat, ghost peek: nat)
      requires ring.Length == RING_SIZE && head <= peek < head + RING_SIZE
      requires receivedDescriptor == Slot(head) && peekDescriptor == Slot(peek)
      modifies this`receivedDescriptor, ring
      ensures ring[..] == Returned(old(ring[..]), head, peek + 1 - head)
      ensures receivedDescriptor == Slot(peek + 1)
    {
      ghost var p, before := head, ring[..];
      while true
        invariant head <= p <= peek && receivedDescriptor == Slot(p)
        invariant ring[..] == Returned(before, head, p - head)
        decreases peek - p
      {
        ring[receivedDescriptor] := ring[receivedDescriptor].(owned := true);
        var last := receivedDescriptor == peekDescriptor;
        if p < peek {
          SlotsDiffer(p, peek);
        }
        NextSlot(p);
        receivedDescriptor := Next(receivedDescriptor);
        p := p + 1;
        if last {
          return;
        }
      }
    }

    // What received() finds in `length` bytes of contiguous memory from the address of the frame on.
    method ReadFrame(frame: nat, length: nat, ghost slot: nat) returns (blocks: seq<Option<seq<Byte>>>)
      requires ring.Length == RING_SIZE && frame == BufferAddress(base, slot)
      ensures blocks == Blocks(ring[..], slot, length / BUFFER_SIZE)
    {
      hide IndexOf, BufferAddress;
      blocks := [];
      for j := 0 to length / BUFFER_SIZE
        invariant blocks == Blocks(ring[..], slot, j)
      {
        AddressOfIndex(base, slot, j);
        var i := IndexOf(base, frame + BUFFER_SIZE * j);
        blocks := blocks + [if i < RING_SIZE then Some(ring[i].data) else None];
      }
    }

    /** The receive half of poll: `schedule` tells what arrives before each visit. */
    method PollReceive(schedule: nat -> seq<Fragment>)
      requires Valid()
      modifies this, ring
      ensures Valid()
      ensures exists middle :: Continues(old(steps) + [BeginPoll], middle) && steps == middle + [Restart]
    {
      hide Run, OpenLength, Returned, Contents, Blocks, BufferAddress;
      Take(BeginPoll);
      var length: nat, left: nat, round, done := 0, RING_SIZE / 2, 0, false;
      ghost var peek: nat := Model().head;
      var peekDescriptor := receivedDescriptor;
      while !done
        invariant Mirrors()
        invariant Model().phase == if done then Ending else Walking(peek, length, left)
        invariant !done ==> peekDescriptor == Slot(peek) && Model().head <= peek <= Model().head + RING_SIZE
        invariant Continues(old(steps) + [BeginPoll], steps)
        decreases !done, left, if done then 0 else Model().head + RING_SIZE - peek
      {
        EngineSteps(schedule(round));
        round := round + 1;
        done, length, left := VisitDescriptor(peekDescriptor, length, left, peek);
        NextSlot(peek);
        peekDescriptor := Next(peekDescriptor);
        peek := peek + 1;
      }
      ghost var middle := steps;
      Take(Restart);
      if !engineRunning {
        engineDescriptor := receivedDescriptor;
        engineRunning := ring[receivedDescriptor].owned;
      }
      assert Continues(old(steps) + [BeginPoll], middle) && steps == middle + [Restart];
    }

    // The bytes counted are the blocks of the frame, which lie within one lap.
    lemma WalkInLap(s: State)
      requires Invariant(s) && s.phase.Walking?
      ensures (s.phase.length + BUFFER_SIZE) / BUFFER_SIZE == s.phase.peek + 1 - s.head
      ensures !s.ring[Slot(s.phase.peek)].owned ==> s.phase.peek < s.head + RING_SIZE
    {
      VisitSeesArrived(s);
      hide Delivers, OpenLength;
    }

    // One turn of the poll loop.
    method VisitDescriptor(peekDescriptor: nat, length: nat, left: nat, ghost peek: nat)
      returns (done: bool, length': nat, left': nat)
      requires Mirrors() && Model().phase == Walking(peek, length, left) && peekDescriptor == Slot(peek)
      modifies this, ring
      ensures Mirrors() && steps == old(steps) + [Visit]
      ensures Model().phase == if done then Ending else Walking(peek + 1, length', left')
      ensures !done ==> left' < left || (left' == left && Model().head == old(Model()).head)
      ensures !done ==> Model().head <= peek + 1 <= Model().head + RING_SIZE
    {
      hide Run, OpenLength, Returned, Contents, Blocks, BufferAddress;
      hide Delivers, Lap;
      ghost var s := Model();
      RunsKeepInvariant(steps);
      VisitsTerminate(s);
      WalkInLap(s);
      var d := ring[peekDescriptor];
      if d.owned {
        Take(Visit);
        return true, length, left;
      }
      length' := length + BUFFER_SIZE;
      left' := left;
      done := false;
      if d.last {
        var blocks := ReadFrame(BufferAddress(base, receivedDescriptor), length', Slot(s.head));
        delivered := delivered + [Delivery(d.errors, length', receivedDescriptor, blocks)];
        Return(peekDescriptor, s.head, peek);
        left' := left - 1;
        done := left' == 0;
        length' := 0;
      }
      Take(Visit);
    }
  }

  // Only visits and arrivals happened since.
  ghost predicate Continues(before: seq<Step>, after: seq<Step>) {
    && |before| <= |after| && after[..|before|] == before
    && forall i | |before| <= i < |after| :: after[i].Visit? || after[i].Arrive?
  }
}

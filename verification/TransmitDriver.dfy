/** The transmit side of the driver over an array of descriptors, proved to take the steps of TransmitRing. */
module TransmitDriver {
  import opened Bytes
  import opened DescriptorRing
  import opened TransmitRing
  import opened Wrappers

  class Transmitter {
    const ring: array<Descriptor>
    const base: nat // address of the transmit buffers
    var transmitedDescriptor: nat
    var transmitableDescriptor: nat
    var engineDescriptor: nat // the engine's register
    var wire: seq<Fragment>
    var reports: seq<Report> // calls of transmited()
    ghost var steps: seq<Step> // the steps taken since initialization

    ghost function Model(): State
      reads this
      requires Run(steps).Some?
    {
      Run(steps).value
    }

    // The fields and the array are the state the steps lead to.
    ghost predicate Mirrors()
      reads this, ring
    {
      && ring.Length == RING_SIZE
      && Run(steps).Some?
      && Model().ring == ring[..]
      && transmitedDescriptor == Slot(Model().head)
      && transmitableDescriptor == Slot(Model().tail)
      && engineDescriptor == Slot(Model().dma)
      && wire == Model().wire
      && reports == Model().reports
    }

    ghost predicate Valid()
      reads this, ring
    {
      Mirrors() && Model().walk.None?
    }

    constructor (base: nat)
      ensures Valid() && steps == [] && fresh(ring)
    {
      this.base := base;
      ring := new Descriptor[RING_SIZE](_ => Descriptor(false, 0, false, false, 0, []));
      transmitedDescriptor, transmitableDescriptor, engineDescriptor := 0, 0, 0;
      wire, reports, steps := [], [], [];
    }

    // Whether the next k descriptors are vacant for a frame of this length.
    method FindRoom(totalLength: nat) returns (room: bool)
      requires Valid() && totalLength < LIMIT_16
      ensures room == HasRoom(ring[..], Model().tail, FragmentCount(totalLength))
    {
      var descriptor, remainingLength := transmitableDescriptor, totalLength;
      ghost var tail, j := Model().tail, 0;
      while true
        invariant 0 <= j < FragmentCount(totalLength) && remainingLength == totalLength - BUFFER_SIZE * j
        invariant j > 0 ==> remainingLength > 0
        invariant descriptor == Slot(tail + j)
        invariant forall p {:trigger Slot(p)} | tail <= p < tail + j :: ring[Slot(p)].size == 0
        decreases remainingLength
      {
        if ring[descriptor].size > 0 {
          return false;
        }
        var fragmentLength := if remainingLength < BUFFER_SIZE then remainingLength else BUFFER_SIZE;
        remainingLength := remainingLength - fragmentLength;
        if remainingLength == 0 {
          assert j + 1 == FragmentCount(totalLength);
          return true;
        }
        NextSlot(tail + j);
        descriptor := Next(descriptor);
        j := j + 1;
      }
    }

    // Fills the descriptors of a frame in; all but the first go to the engine.
    method Reserve(totalLength: nat)
      requires Valid() && totalLength < LIMIT_16
      modifies this`transmitableDescriptor, ring
      ensures ring[..] == Reserved(old(ring[..]), Model().tail, totalLength, FragmentCount(totalLength))
      ensures transmitableDescriptor == Slot(Model().tail + FragmentCount(totalLength))
    {
      ghost var tail, j, before := Model().tail, 0, ring[..];
      var remainingLength := totalLength;
      var first := true;
      while true
        invariant 0 <= j < FragmentCount(totalLength) && remainingLength == totalLength - BUFFER_SIZE * j
        invariant first == (j == 0)
        invariant transmitableDescriptor == Slot(tail + j)
        invariant ring[..] == Reserved(before, tail, totalLength, j)
        decreases FragmentCount(totalLength) - j
      {
        var size := if remainingLength < BUFFER_SIZE then remainingLength else BUFFER_SIZE;
        remainingLength := remainingLength - size;
        var last := remainingLength == 0;
        FragmentEnds(totalLength, j);
        assert Reserved(before, tail, totalLength, j + 1)
            == ring[..][Slot(tail + j) := ReservedDescriptor(ring[Slot(tail + j)], totalLength, j)];
        hide FragmentCount, FragmentSize, Reserved, Run, Slot;
        ring[transmitableDescriptor] :=
          ring[transmitableDescriptor].(size := size, first := first, last := last, owned := !first);
        NextSlot(tail + j);
        transmitableDescriptor := Next(transmitableDescriptor);
        j := j + 1;
        if last {
          return;
        }
        first := false;
      }
    }

    lemma FragmentEnds(total: nat, j: nat)
      requires total < LIMIT_16 && j < FragmentCount(total)
      ensures FragmentSize(total, j) == if total - BUFFER_SIZE * j < BUFFER_SIZE then total - BUFFER_SIZE * j else BUFFER_SIZE
      ensures total - BUFFER_SIZE * j - FragmentSize(total, j) == 0 <==> j == FragmentCount(total) - 1
    {
    }

    // The model takes a step; the caller's fields and array already do.
    ghost method Take(step: Step)
      requires Run(steps).Some? && Enabled(Model(), step)
      modifies this`steps
      ensures steps == old(steps) + [step] && Run(steps).Some? && Model() == Apply(old(Model()), step)
    {
      RunExtends(steps, step);
      steps := steps + [step];
    }

    /** createFrame: the address of the frame, or none when the link is down or a descriptor it needs is in use. */
    method CreateFrame(linkStatus: bool, payloadLength: nat) returns (frame: Option<nat>)
      requires Valid() && payloadLength < LIMIT_16
      modifies this, ring
      ensures Valid() && steps == old(steps) + [Create(linkStatus, payloadLength)]
      ensures frame == if linkStatus && VacantFor(old(ring[..]), old(transmitableDescriptor), payloadLength)
                       then Some(BufferAddress(base, old(transmitableDescriptor))) else None
      ensures frame.None? ==> ring[..] == old(ring[..]) && transmitableDescriptor == old(transmitableDescriptor)
    {
      hide Run, Reserved, FragmentCount, HasRoom, VacantFor, TotalLength, Slot, BufferAddress;
      RoomIffVacant(ring[..], Model().tail, payloadLength);
      VacantFromSlot(ring[..], Model().tail, payloadLength);
      if !linkStatus {
        Take(Create(linkStatus, payloadLength));
        return None;
      }
      var totalLength := TotalLength(payloadLength);
      var room := FindRoom(totalLength);
      if !room {
        Take(Create(linkStatus, payloadLength));
        return None;
      }
      var descriptor := transmitableDescriptor;
      Reserve(totalLength);
      Take(Create(linkStatus, payloadLength));
      frame := Some(BufferAddress(base, descriptor));
    }

    // The processor writes a buffer of the frame at its contiguous address.
    method WriteFragment(frame: nat, j: nat, data: seq<Byte>)
      requires Valid() && Enabled(Model(), Write(j, data))
      requires frame == BufferAddress(base, Slot(Model().pending.value))
      requires Slot(Model().pending.value) + j < RING_SIZE
      modifies this`steps, ring
      ensures Valid() && steps == old(steps) + [Write(j, data)]
    {
      hide Run;
      var i := IndexOf(base, frame) + j;
      assert i == Slot(Model().pending.value + j) by {
        AddressOfIndex(base, Slot(Model().pending.value), 0);
      }
      Take(Write(j, data));
      ring[i] := ring[i].(data := data);
    }

    /** transmit: hands the first descriptor of the frame to the engine. */
    method Transmit(frame: nat)
      requires Valid() && Enabled(Model(), Publish)
      requires frame == BufferAddress(base, Slot(Model().pending.value))
      modifies this`steps, ring
      ensures Valid() && steps == old(steps) + [Publish]
    {
      hide Run;
      AddressOfIndex(base, Slot(Model().pending.value), 0);
      var i := IndexOf(base, frame);
      Take(Publish);
      ring[i] := ring[i].(owned := true);
    }

    // The hardware: one step of the engine.
    method EngineStep(error: nat)
      requires Mirrors()
      modifies this`steps, this`wire, this`engineDescriptor, ring
      ensures Mirrors() && steps == old(steps) + [Engine(error)]
    {
      hide Run;
      ghost var dma := Model().dma;
      Take(Engine(error));
      var d := ring[engineDescriptor];
      if d.owned {
        wire := wire + [Carried(d)];
        ring[engineDescriptor] := d.(owned := false, errors := error);
        NextSlot(dma);
        engineDescriptor := Next(engineDescriptor);
      }
    }

    // Gives the descriptors up to the one at position `peek` back.
    method Reclaim(peekDescriptor: nat, ghost head: nat, ghost peek: nat)
      requires ring.Length == RING_SIZE && head <= peek < head + RING_SIZE
      requires transmitedDescriptor == Slot(head) && peekDescriptor == Slot(peek)
      modifies this`transmitedDescriptor, ring
      ensures ring[..] == Reclaimed(old(ring[..]), head, peek + 1 - head)
      ensures transmitedDescriptor == Slot(peek + 1)
    {
      ghost var p, before := head, ring[..];
      while true
        invariant head <= p <= peek && transmitedDescriptor == Slot(p)
        invariant ring[..] == Reclaimed(before, head, p - head)
        decreases peek - p
      {
        ring[transmitedDescriptor] := ring[transmitedDescriptor].(owned := false, errors := 0, size := 0);
        var last := transmitedDescriptor == peekDescriptor;
        if p < peek {
          SlotsDiffer(p, peek);
        }
        NextSlot(p);
        transmitedDescriptor := Next(transmitedDescriptor);
        p := p + 1;
        if last {
          return;
        }
      }
    }

    // The engine steps any number of times.
    method EngineSteps(errors: seq<nat>)
      requires Mirrors()
      modifies this`steps, this`wire, this`engineDescriptor, ring
      ensures Mirrors() && Continues(old(steps), steps)
      ensures Model().walk == old(Model()).walk && Model().head == old(Model()).head && Model().tail == old(Model()).tail
    {
      hide Run;
      for i := 0 to |errors|
        invariant Mirrors() && Continues(old(steps), steps)
        invariant Model().walk == old(Model()).walk && Model().head == old(Model()).head && Model().tail == old(Model()).tail
      {
        label before:
        EngineStep(errors[i]);
        assert Model() == EngineStepped(old@before(Model()), errors[i]) by {
          RunExtends(old@before(steps), Engine(errors[i]));
        }
      }
    }

    /** The transmit half of poll: `schedule` tells what the engine does before each visit. */
    method PollTransmit(schedule: nat -> seq<nat>)
      requires Valid()
      modifies this, ring
      ensures Valid()
      ensures Continues(old(steps) + [BeginPoll], steps)
    {
      hide Run, Reclaimed;
      Take(BeginPoll);
      var length, left, round := 0, RING_SIZE, 0;
      ghost var peek := Model().head;
      var peekDescriptor := transmitedDescriptor;
      while true
        invariant Mirrors() && Model().walk == Some(Walk(peek, length, left)) && peekDescriptor == Slot(peek)
        invariant Continues(old(steps) + [BeginPoll], steps)
        decreases left, Model().head + RING_SIZE - peek
      {
        EngineSteps(schedule(round));
        round := round + 1;
        var done;
        done, length, left := VisitDescriptor(peekDescriptor, length, left, peek);
        if done {
          return;
        }
        NextSlot(peek);
        peekDescriptor := Next(peekDescriptor);
        peek := peek + 1;
      }
    }

    // One turn of the poll loop.
    method VisitDescriptor(peekDescriptor: nat, length: nat, left: nat, ghost peek: nat)
      returns (done: bool, length': nat, left': nat)
      requires Mirrors() && Model().walk == Some(Walk(peek, length, left)) && peekDescriptor == Slot(peek)
      modifies this, ring
      ensures Mirrors() && steps == old(steps) + [Visit]
      ensures Model().walk == if done then None else Some(Walk(peek + 1, length', left'))
      ensures !done ==> left' < left || (left' == left && Model().head == old(Model()).head)
      ensures !done ==> peek + 1 < Model().head + RING_SIZE
    {
      hide Run, Reclaimed;
      ghost var s := Model();
      RunsWalk(steps);
      WalkWithinLap(s);
      PollsEnd(steps);
      var d := ring[peekDescriptor];
      if d.owned || d.size == 0 {
        Take(Visit);
        return true, length, left;
      }
      length' := length + d.size;
      left' := left;
      done := false;
      if d.last {
        reports := reports + [Report(d.errors, length', transmitedDescriptor)];
        Reclaim(peekDescriptor, s.head, peek);
        left' := left - 1;
        done := left' == 0;
        length' := 0;
      }
      Take(Visit);
    }
  }

  // Only visits and engine steps were taken since.
  ghost predicate Continues(before: seq<Step>, after: seq<Step>) {
    && |before| <= |after| && after[..|before|] == before
    && forall i | |before| <= i < |after| :: after[i].Visit? || after[i].Engine?
  }
}

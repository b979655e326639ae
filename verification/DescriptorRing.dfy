/**
 A cyclic ring of descriptors shared by the driver and the DMA engine.

 Positions count descriptors without end; the descriptor at position p is number p modulo the ring size.
 Frames are runs of fragments, one fragment for each descriptor.
 */
module DescriptorRing {
  const RING_SIZE: nat := 128
  const BUFFER_SIZE: nat := 1536

  function Slot(p: nat): (i: nat)
    ensures i < RING_SIZE
  {
    p % RING_SIZE
  }

  // The chain pointer of descriptor i.
  function Next(i: nat): nat
    requires i < RING_SIZE
  {
    (i + 1) % RING_SIZE
  }

  lemma NextSlot(p: nat)
    ensures Next(Slot(p)) == Slot(p + 1)
  {
  }

  lemma SlotsDiffer(p: nat, q: nat)
    requires p < q < p + RING_SIZE
    ensures Slot(p) != Slot(q)
  {
  }

  lemma SlotWraps(p: nat)
    ensures Slot(p + RING_SIZE) == Slot(p)
  {
  }

  // A ring updated at one position, read at another one of the same lap.
  lemma UpdateAt<T>(ring: seq<T>, low: nat, p: nat, value: T)
    requires |ring| == RING_SIZE && low <= p < low + RING_SIZE
    ensures forall q {:trigger Slot(q)} | low <= q < low + RING_SIZE ::
              ring[Slot(p) := value][Slot(q)] == if q == p then value else ring[Slot(q)]
  {
    forall q | low <= q < low + RING_SIZE && q != p ensures Slot(q) != Slot(p) {
      if q < p { SlotsDiffer(q, p); } else { SlotsDiffer(p, q); }
    }
  }

  // Every descriptor has a position in the lap that starts at `low`.
  lemma PositionOf(low: nat, i: nat) returns (p: nat)
    requires i < RING_SIZE
    ensures low <= p < low + RING_SIZE && Slot(p) == i
  {
    p := if i >= Slot(low) then low + i - Slot(low) else low + RING_SIZE + i - Slot(low);
  }

  // What the descriptors in the positions from p to q carry.
  function Contents<D, F>(ring: seq<D>, p: nat, q: nat, carried: D -> F): (r: seq<F>)
    requires |ring| == RING_SIZE && p <= q
    ensures |r| == q - p
    ensures forall i | 0 <= i < q - p :: r[i] == carried(ring[Slot(p + i)])
  {
    seq(q - p, i requires 0 <= i < q - p => carried(ring[Slot(p + i)]))
  }

  // ---------------------------------------------------------------------------
  // Buffer addresses
  // ---------------------------------------------------------------------------

  function BufferAddress(base: nat, i: nat): (address: nat)
    ensures address >= base + 2
  {
    base + BUFFER_SIZE * i + 2
  }

  // The number of the buffer an address belongs to, as transmit() computes it.
  function IndexOf(base: nat, address: nat): nat
    requires base + 2 <= address
  {
    (address - 2 - base) / BUFFER_SIZE
  }

  lemma {:induction false} AddressOfIndex(base: nat, i: nat, j: nat)
    ensures IndexOf(base, BufferAddress(base, i) + BUFFER_SIZE * j) == i + j
  {
  }

  // ---------------------------------------------------------------------------
  // Runs of fragments
  // ---------------------------------------------------------------------------

  function Flatten<T>(runs: seq<seq<T>>): seq<T> {
    if runs == [] then [] else Flatten(runs[..|runs| - 1]) + runs[|runs| - 1]
  }

  // The position at which run r starts.
  function Start<T>(runs: seq<seq<T>>, r: nat): nat
    requires r <= |runs|
  {
    |Flatten(runs[..r])|
  }

  lemma FlattenAppends<T>(runs: seq<seq<T>>, run: seq<T>)
    ensures Flatten(runs + [run]) == Flatten(runs) + run
  {
    assert (runs + [run])[..|runs|] == runs;
  }

  lemma StartSteps<T>(runs: seq<seq<T>>, r: nat)
    requires r < |runs|
    ensures Start(runs, r + 1) == Start(runs, r) + |runs[r]|
  {
    assert runs[..r + 1][..r] == runs[..r];
  }

  lemma StartAtEnd<T>(runs: seq<seq<T>>)
    ensures Start(runs, |runs|) == |Flatten(runs)|
  {
    assert runs[..|runs|] == runs;
  }

  lemma {:induction false} RunInFlatten<T>(runs: seq<seq<T>>, r: nat)
    requires r < |runs|
    ensures Start(runs, r) + |runs[r]| <= |Flatten(runs)|
    ensures Flatten(runs)[Start(runs, r)..Start(runs, r) + |runs[r]|] == runs[r]
  {
    var n := |runs| - 1;
    var front := runs[..n];
    if r == n {
      assert runs[..r] == front;
    } else {
      RunInFlatten(front, r);
      assert front[..r] == runs[..r];
      assert Flatten(runs) == Flatten(front) + runs[n];
    }
  }

  lemma StartOfExtended<T>(runs: seq<seq<T>>, run: seq<T>, r: nat)
    requires r <= |runs|
    ensures Start(runs + [run], r) == Start(runs, r)
  {
    assert (runs + [run])[..r] == runs[..r];
  }

  lemma {:induction false} StartWithin<T>(runs: seq<seq<T>>, r: nat)
    requires r <= |runs|
    ensures Start(runs, r) <= |Flatten(runs)|
    decreases |runs| - r
  {
    if r < |runs| {
      StartSteps(runs, r);
      StartWithin(runs, r + 1);
    } else {
      StartAtEnd(runs);
    }
  }
}

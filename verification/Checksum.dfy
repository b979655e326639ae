/**
 The Internet checksum of the IP layer: a 32-bit accumulator fed with little-endian words,
 folded to 16 bits and complemented, and its use in IPv6 payloads.
 */
module Checksum {
  import opened Bytes

  // ---------------------------------------------------------------------------
  // The generator
  // ---------------------------------------------------------------------------

  // Sum of the little-endian 16-bit words of `bs`; an odd last byte counts as a low byte.
  function LittleSum(bs: seq<Byte>): nat {
    if |bs| == 0 then 0
    else if |bs| == 1 then bs[0] as nat
    else LittleWord16(bs[0], bs[1]) + LittleSum(bs[2..])
  }

  // The 16-bit representative of x modulo 65535 that is zero only for zero.
  function Fold(x: nat): (r: nat)
    ensures r < LIMIT_16 && r % 65535 == x % 65535
    ensures r == 0 <==> x == 0
  {
    if x == 0 then 0 else if x % 65535 == 0 then 65535 else x % 65535
  }

  lemma FoldIsUnique(x: nat, r: nat)
    requires r < LIMIT_16 && r % 65535 == x % 65535 && (r == 0 <==> x == 0)
    ensures r == Fold(x)
  {
  }

  class IpChecksumGenerator {
    var accumulator: Natural32

    constructor ()
      ensures accumulator == 0
    {
      accumulator := 0;
    }

    method Input(buffer: seq<Byte>)
      modifies this
      ensures accumulator == (old(accumulator) + LittleSum(buffer)) % LIMIT_32
    {
      var length := |buffer|;
      ghost var total := accumulator;
      if length % 2 == 1 {
        length := length - 1;
        Accumulate(total, buffer[length] as nat);
        total := total + buffer[length] as nat;
      }
      ghost var start := total;
      var pos := 0;
      while pos != length
        invariant 0 <= pos <= length && pos % 2 == 0
        invariant total == start + LittleSum(buffer[..pos])
        invariant accumulator == total % LIMIT_32
      {
        var word := LittleWord16(buffer[pos], buffer[pos + 1]);
        WordAppends(buffer, pos);
        Accumulate(total, word);
        total := total + word;
        pos := pos + 2;
      }
      SumAppends(buffer[..length], buffer[length..]);
      assert buffer[..length] + buffer[length..] == buffer;
    }

    method Accumulate(ghost total: nat, word: nat)
      requires accumulator == total % LIMIT_32
      modifies this
      ensures accumulator == (total + word) % LIMIT_32
    {
      AddModulo(total, word);
      accumulator := (accumulator + word) % LIMIT_32;
    }

    method Output() returns (checksum: nat)
      modifies this
      ensures accumulator == Fold(old(accumulator))
      ensures checksum == 65535 - Fold(old(accumulator))
    {
      while accumulator / LIMIT_16 != 0
        invariant Fold(accumulator) == Fold(old(accumulator))
        decreases accumulator
      {
        FoldOnce(accumulator);
        accumulator := accumulator / LIMIT_16 + accumulator % LIMIT_16;
      }
      FoldIsUnique(accumulator, accumulator);
      checksum := 65535 - accumulator;
    }
  }

  lemma FoldOnce(x: nat)
    requires x >= LIMIT_16
    ensures x / LIMIT_16 + x % LIMIT_16 < x
    ensures Fold(x / LIMIT_16 + x % LIMIT_16) == Fold(x)
  {
    var high, low := x / LIMIT_16, x % LIMIT_16;
    assert x == 65535 * high + (high + low);
    CongruentBySum(high + low, high);
  }

  lemma CongruentBySum(a: nat, k: nat)
    ensures (65535 * k + a) % 65535 == a % 65535
  {
  }

  lemma WordAppends(bs: seq<Byte>, pos: nat)
    requires pos + 2 <= |bs| && pos % 2 == 0
    ensures LittleSum(bs[..pos + 2]) == LittleSum(bs[..pos]) + LittleWord16(bs[pos], bs[pos + 1])
  {
    SumAppends(bs[..pos], bs[pos..pos + 2]);
    assert bs[..pos] + bs[pos..pos + 2] == bs[..pos + 2];
  }

  // ---------------------------------------------------------------------------
  // Pieces
  // ---------------------------------------------------------------------------

  lemma {:induction false} SumAppends(a: seq<Byte>, b: seq<Byte>)
    requires |a| % 2 == 0
    ensures LittleSum(a + b) == LittleSum(a) + LittleSum(b)
  {
    if a == [] {
      assert a + b == b;
    } else {
      assert (a + b)[2..] == a[2..] + b;
      SumAppends(a[2..], b);
    }
  }

  function Concat(pieces: seq<seq<Byte>>): seq<Byte> {
    if pieces == [] then [] else pieces[0] + Concat(pieces[1..])
  }

  // What the accumulator holds after one Input call per piece.
  function InputAll(accumulator: Natural32, pieces: seq<seq<Byte>>): Natural32
    decreases |pieces|
  {
    if pieces == [] then accumulator
    else InputAll((accumulator + LittleSum(pieces[0])) % LIMIT_32, pieces[1..])
  }

  /** Even-length pieces followed by one piece of any length sum like one pass over all of them. */
  lemma {:induction false} PiecesEqualOnePass(accumulator: Natural32, pieces: seq<seq<Byte>>)
    requires forall i | 0 <= i < |pieces| - 1 :: |pieces[i]| % 2 == 0
    ensures InputAll(accumulator, pieces) == (accumulator + LittleSum(Concat(pieces))) % LIMIT_32
    decreases |pieces|
  {
    if |pieces| == 1 {
      assert Concat(pieces[1..]) == [];
      assert Concat(pieces) == pieces[0];
    } else if |pieces| > 1 {
      var rest := pieces[1..];
      assert forall i | 0 <= i < |rest| - 1 :: rest[i] == pieces[i + 1];
      var first := LittleSum(pieces[0]);
      PiecesEqualOnePass((accumulator + first) % LIMIT_32, rest);
      SumAppends(pieces[0], Concat(rest));
      AddModulo(accumulator + first, LittleSum(Concat(rest)));
    }
  }

  lemma {:induction false} SumBound(bs: seq<Byte>)
    ensures LittleSum(bs) <= (|bs| + 1) / 2 * 65535
  {
    if |bs| >= 2 {
      SumBound(bs[2..]);
      assert (|bs| + 1) / 2 == (|bs[2..]| + 1) / 2 + 1;
    }
  }

  // ---------------------------------------------------------------------------
  // The definition over big-endian words (RFC 1071, section 1)
  // ---------------------------------------------------------------------------

  // One's complement addition: the carry out of 16 bits is added back in.
  function OnesAdd(a: nat, b: nat): (r: nat)
    requires a < LIMIT_16 && b < LIMIT_16
    ensures r < LIMIT_16
  {
    if a + b < LIMIT_16 then a + b else a + b - LIMIT_16 + 1
  }

  function OnesComplementSum(bs: seq<Byte>): (r: nat)
    ensures r < LIMIT_16
  {
    if |bs| == 0 then 0
    else if |bs| == 1 then OnesAdd(LittleWord16(0, bs[0]), 0)
    else OnesAdd(LittleWord16(bs[1], bs[0]), OnesComplementSum(bs[2..]))
  }

  /** Byte-order independence (RFC 1071, section 2 (B)): folding the little-endian sum gives the
      byte-swapped big-endian one's complement sum, so both put the same two bytes on the wire. */
  lemma {:induction false} FoldIsSwappedOnesComplementSum(bs: seq<Byte>)
    ensures Fold(LittleSum(bs)) == Swap16(OnesComplementSum(bs))
  {
    if |bs| >= 2 {
      var word, rest := LittleWord16(bs[0], bs[1]), bs[2..];
      FoldIsSwappedOnesComplementSum(rest);
      FoldAdds(word, LittleSum(rest));
      SwapsBytes(bs[0], bs[1]);
      SwapAdds(LittleWord16(bs[1], bs[0]), OnesComplementSum(rest));
    } else if |bs| == 1 {
      SwapsBytes(bs[0], 0);
    }
  }

  lemma SwapsBytes(low: Byte, high: Byte)
    ensures LittleWord16(low, high) == Swap16(LittleWord16(high, low))
  {
  }

  lemma FoldAdds(a: nat, b: nat)
    requires a < LIMIT_16
    ensures Fold(a + b) == OnesAdd(a, Fold(b))
  {
    var r := OnesAdd(a, Fold(b));
    FoldCongruence(a, b);
    FoldIsUnique(a + b, r);
  }

  lemma FoldCongruence(a: nat, b: nat)
    requires a < LIMIT_16
    ensures (a + b) % 65535 == OnesAdd(a, Fold(b)) % 65535
  {
  }

  lemma SwapAdds(a: nat, b: nat)
    requires a < LIMIT_16 && b < LIMIT_16
    ensures OnesAdd(Swap16(a), Swap16(b)) == Swap16(OnesAdd(a, b))
  {
    var sum := OnesAdd(a, b);
    var i := SwapTimes256(a);
    var j := SwapTimes256(b);
    var k := SwapTimes256(sum);
    var left, right := OnesAdd(Swap16(a), Swap16(b)), Swap16(sum);
    var m := OnesAddReduces(Swap16(a), Swap16(b));
    var n := OnesAddReduces(a, b);
    SameRepresentative(left, right, 0x100 * n + k - (i + j + m));
  }

  lemma SwapTimes256(w: nat) returns (k: int)
    requires w < LIMIT_16
    ensures Swap16(w) == 0x100 * w - 65535 * k
    ensures Swap16(w) == 0 <==> w == 0
  {
    k := w / 0x100;
  }

  lemma OnesAddReduces(a: nat, b: nat) returns (k: int)
    requires a < LIMIT_16 && b < LIMIT_16
    ensures OnesAdd(a, b) == a + b - 65535 * k
    ensures OnesAdd(a, b) == 0 <==> a == b == 0
  {
    k := if a + b < LIMIT_16 then 0 else 1;
  }

  lemma SameRepresentative(a: nat, b: nat, k: int)
    requires a < LIMIT_16 && b < LIMIT_16 && (a == 0 <==> b == 0)
    requires a - b == 65535 * k
    ensures a == b
  {
  }
}

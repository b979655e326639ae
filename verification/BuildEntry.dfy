/** Where the image jumps to: the branch in its first word against the entry point the tool was given. */
module BuildEntry {
  import opened Wrappers
  import opened Bytes
  import opened BootImage
  import opened BuildTool

  const LIMIT_64: int := 0x1_0000_0000_0000_0000

  // How far the entry point lies behind the start of the image, in 64-bit addresses.
  function Distance(virtualOffset: nat, entryPoint: nat): (d: nat)
    ensures d < LIMIT_64
    ensures virtualOffset <= entryPoint < virtualOffset + LIMIT_64 ==> d == entryPoint - virtualOffset
  {
    (entryPoint - virtualOffset) % LIMIT_64
  }

  // A branch from the start of the image reaches this far: an A32 one from two words ahead, signed in both.
  predicate InRange(a32: bool, distance: nat) {
    a32 ==> 8 <= distance < 0x200_0008
  }

  // The address the branch lands on, when the image stands at its virtual offset.
  function LandsOn(virtualOffset: nat, target: int): (address: nat)
    ensures address < LIMIT_64
  {
    (virtualOffset + 4 * target) % LIMIT_64
  }

  lemma SameAddressIff(virtualOffset: nat, entryPoint: nat, target: int)
    requires -LIMIT_64 / 8 < target < LIMIT_64 / 8
    ensures LandsOn(virtualOffset, target) == entryPoint % LIMIT_64 <==>
            4 * target == Distance(virtualOffset, entryPoint)
            || 4 * target == Distance(virtualOffset, entryPoint) - LIMIT_64
  {
    var d := Distance(virtualOffset, entryPoint);
    var k := (entryPoint - virtualOffset) / LIMIT_64;
    assert entryPoint == virtualOffset + d + k * LIMIT_64;
    var q := (virtualOffset + 4 * target) / LIMIT_64;
    var q' := entryPoint / LIMIT_64;
    assert virtualOffset + 4 * target == LandsOn(virtualOffset, target) + q * LIMIT_64;
    assert entryPoint == entryPoint % LIMIT_64 + q' * LIMIT_64;
    hide Distance, LandsOn;
    if LandsOn(virtualOffset, target) == entryPoint % LIMIT_64 {
      assert 4 * target - d == (q + k - q') * LIMIT_64;
      OnlyLaps(4 * target - d, q + k - q');
    }
    if 4 * target == d {
      assert LandsOn(virtualOffset, target) - entryPoint % LIMIT_64 == (q' - k - q) * LIMIT_64;
      OnlyLaps(LandsOn(virtualOffset, target) - entryPoint % LIMIT_64, q' - k - q);
    }
    if 4 * target == d - LIMIT_64 {
      assert LandsOn(virtualOffset, target) - entryPoint % LIMIT_64 == (q' - k - q - 1) * LIMIT_64;
      OnlyLaps(LandsOn(virtualOffset, target) - entryPoint % LIMIT_64, q' - k - q - 1);
    }
  }

  lemma OnlyLaps(x: int, k: int)
    requires x == k * LIMIT_64 && -2 * LIMIT_64 < x < LIMIT_64
    ensures x == 0 || x == -LIMIT_64
  {
  }

  // What the tool writes, seen from the distance: the words up to the entry point.
  lemma JumpGoes(a32: bool, virtualOffset: nat, entryPoint: nat)
    requires EntryIndex(entryPoint, virtualOffset) <= LAST_ENTRY_INDEX
    ensures var d := Distance(virtualOffset, entryPoint);
            var target := BranchTarget(a32, JumpInstruction(a32, EntryIndex(entryPoint, virtualOffset)));
            && d < 4 * 0xF0_0000
            && (InRange(a32, d) ==> target == Some(d / 4))
            && (!InRange(a32, d) && target.Some? ==> target.value < 0)
  {
    var index := EntryIndex(entryPoint, virtualOffset);
    assert index == Distance(virtualOffset, entryPoint) / 4;
    JumpReachesEntry(a32, index);
  }

  /** The first word of every image built is a branch that lands on the entry point if and only if that is a whole
      number of words behind the start of the image, and in range of the branch. */
  lemma {:induction false} ImageJumpsToEntryPoint(sections: seq<Section>, virtualOffset: nat, physicalOffset: nat,
                                                  entryPoint: nat, a32: bool, file: seq<Byte>)
    requires BuiltFile(sections, virtualOffset, physicalOffset, entryPoint, a32) == Some(file)
    ensures var image := Image(file, physicalOffset);
            var d := Distance(virtualOffset, entryPoint);
            && |image| >= HEADER_LENGTH
            && var target := BranchTarget(a32, Word(image, 0));
               && (target.Some? && LandsOn(virtualOffset, target.value) == entryPoint % LIMIT_64
                   <==> d % 4 == 0 && InRange(a32, d))
               && (virtualOffset <= entryPoint < virtualOffset + LIMIT_64 && d % 4 == 0 && InRange(a32, d) ==>
                     target.Some? && virtualOffset + 4 * target.value == entryPoint)
  {
    BuiltImageValidates(sections, virtualOffset, physicalOffset, entryPoint, a32, file);
    BuiltHasEntry(sections, virtualOffset, physicalOffset, entryPoint, a32, file);
    JumpGoes(a32, virtualOffset, entryPoint);
    hide BuiltFile, LaidOut, EntryIndex, JumpInstruction, BlockLength, Image, Word, Validates, Distance, LandsOn;
    var target := BranchTarget(a32, Word(Image(file, physicalOffset), 0));
    TargetIsShort(a32, Word(Image(file, physicalOffset), 0));
    hide BranchTarget;
    if target.Some? {
      SameAddressIff(virtualOffset, entryPoint, target.value);
    }
  }

  lemma TargetIsShort(a32: bool, instruction: Natural32)
    ensures var target := BranchTarget(a32, instruction);
            target.Some? ==> -0x400_0000 < target.value < 0x400_0000
  {
  }

  lemma BuiltHasEntry(sections: seq<Section>, virtualOffset: nat, physicalOffset: nat, entryPoint: nat, a32: bool,
                      file: seq<Byte>)
    requires BuiltFile(sections, virtualOffset, physicalOffset, entryPoint, a32) == Some(file)
    ensures EntryIndex(entryPoint, virtualOffset) <= LAST_ENTRY_INDEX
  {
    hide LaidOut, EntryIndex, Finished;
  }

  // The zero behind the image would be written in front of the file.
  ghost predicate PadsInFront(sections: seq<Section>, virtualOffset: nat, physicalOffset: nat)
    requires LaidOut(sections, virtualOffset, physicalOffset).Some?
  {
    var n := LaidOut(sections, virtualOffset, physicalOffset).value.virtualAddress - virtualOffset;
    physicalOffset == 0 && n % 512 > 0 && n % LIMIT_32 > LIMIT_32 - 512
  }

  /** The tool completes if and only if the sections are in order, the entry point is at most 0xEFFFFF words and three
      bytes behind the start of the image, and the padding does not begin in front of the file. */
  lemma {:induction false} CompletesIff(sections: seq<Section>, virtualOffset: nat, physicalOffset: nat,
                                        entryPoint: nat, a32: bool)
    ensures InOrder(sections, virtualOffset + 20) ==> LaidOut(sections, virtualOffset, physicalOffset).Some?
    ensures BuiltFile(sections, virtualOffset, physicalOffset, entryPoint, a32).Some?
            <==> && InOrder(sections, virtualOffset + 20)
                 && Distance(virtualOffset, entryPoint) <= 4 * 0xEF_FFFF + 3
                 && !PadsInFront(sections, virtualOffset, physicalOffset)
  {
    LaidOutIffInOrder(sections, virtualOffset, physicalOffset);
    var l := LaidOut(sections, virtualOffset, physicalOffset);
    EntryFitsIff(virtualOffset, entryPoint);
    if l.Some? {
      SectionsAreLaid(sections, virtualOffset, physicalOffset);
      assert l.value.payloadLength == Low32(l.value.virtualAddress - virtualOffset);
      PadsInFrontIff(physicalOffset, l.value.virtualAddress - virtualOffset);
    }
    hide LaidOut, InOrder, HoldsSections, EntryIndex, Distance, PadsBeforeFile, Finished, Low32;
  }

  lemma EntryFitsIff(virtualOffset: nat, entryPoint: nat)
    ensures EntryIndex(entryPoint, virtualOffset) <= LAST_ENTRY_INDEX
            <==> Distance(virtualOffset, entryPoint) <= 4 * 0xEF_FFFF + 3
  {
  }

  lemma PadsInFrontIff(physicalOffset: nat, n: nat)
    ensures PadsBeforeFile(physicalOffset, Low32(n))
            <==> physicalOffset == 0 && n % 512 > 0 && n % LIMIT_32 > LIMIT_32 - 512
  {
    Low32Blocks(n);
    NoBlocksIff(Low32(n));
    assert Low32(n) == n % LIMIT_32;
    hide Low32, BlockLength;
  }

  lemma NoBlocksIff(length: Natural32)
    ensures BlockLength(length) == 0 <==> length == 0 || length > LIMIT_32 - 512
  {
  }
}

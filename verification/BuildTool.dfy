/**
 The build tool: lays the sections of the linked programs out in a file, pads it to whole blocks,
 and writes the boot header with its checksum.  Lengths are 32 bits wide and wrap.
 */
module BuildTool {
  import opened Bytes
  import opened BootImage
  import opened Wrappers

  datatype Section = Section(addr: nat, data: seq<Byte>, progbits: bool) {
    // Empty sections and those without file contents are skipped.
    predicate Placed() {
      progbits && data != []
    }
  }

  function Zeros(n: nat): (r: seq<Byte>)
    ensures |r| == n && forall i | 0 <= i < n :: r[i] == 0
  {
    seq(n, _ => 0)
  }

  // A write at a seek position; a gap past the end of the file reads as zeros.
  function WriteAt(file: seq<Byte>, at: nat, data: seq<Byte>): (r: seq<Byte>)
    ensures |r| == if |file| < at + |data| then at + |data| else |file|
  {
    var grown := if |file| < at + |data| then file + Zeros(at + |data| - |file|) else file;
    grown[..at] + data + grown[at + |data|..]
  }

  lemma WrittenBytes(file: seq<Byte>, at: nat, data: seq<Byte>)
    ensures var r := WriteAt(file, at, data);
            forall i | 0 <= i < |r| ::
              r[i] == if at <= i < at + |data| then data[i - at] else if i < |file| then file[i] else 0
  {
  }

  // ---------------------------------------------------------------------------
  // Laying out the sections
  // ---------------------------------------------------------------------------

  datatype Layout = Layout(file: seq<Byte>, virtualAddress: nat, payloadLength: Natural32)

  function Wrapping(a: Natural32, b: nat): Natural32 {
    Add32(a, Low32(b))
  }

  // One section: it must not start before the last one ended.
  function Place(l: Layout, s: Section, virtualOffset: nat, physicalOffset: nat): Option<Layout>
    requires virtualOffset <= l.virtualAddress
  {
    if !s.Placed() then Some(l)
    else if s.addr < l.virtualAddress then None
    else Some(Layout(WriteAt(l.file, s.addr - virtualOffset + physicalOffset, s.data),
                     s.addr + |s.data|,
                     Wrapping(Wrapping(l.payloadLength, s.addr - l.virtualAddress), |s.data|)))
  }

  function LaidOut(sections: seq<Section>, virtualOffset: nat, physicalOffset: nat): (r: Option<Layout>)
    ensures r.Some? ==> virtualOffset <= r.value.virtualAddress
  {
    if sections == [] then Some(Layout([], virtualOffset + HEADER_LENGTH, HEADER_LENGTH))
    else
      var l := LaidOut(sections[..|sections| - 1], virtualOffset, physicalOffset);
      if l.None? then None else Place(l.value, sections[|sections| - 1], virtualOffset, physicalOffset)
  }

  method LayOut(sections: seq<Section>, virtualOffset: nat, physicalOffset: nat) returns (r: Option<Layout>)
    ensures r == LaidOut(sections, virtualOffset, physicalOffset)
  {
    var file: seq<Byte> := [];
    var virtualAddress := virtualOffset + HEADER_LENGTH;
    var payloadLength: Natural32 := HEADER_LENGTH;
    for k := 0 to |sections|
      invariant virtualOffset <= virtualAddress
      invariant LaidOut(sections[..k], virtualOffset, physicalOffset) ==
                Some(Layout(file, virtualAddress, payloadLength))
    {
      assert sections[..k + 1][..k] == sections[..k];
      var section := sections[k];
      if |section.data| != 0 && section.progbits {
        if section.addr < virtualAddress {
          FailureStays(sections, k + 1, virtualOffset, physicalOffset);
          return None;
        }
        var physicalAddress := section.addr - virtualOffset + physicalOffset;
        payloadLength := Wrapping(payloadLength, section.addr - virtualAddress);
        virtualAddress := section.addr + |section.data|;
        file := WriteAt(file, physicalAddress, section.data);
        payloadLength := Wrapping(payloadLength, |section.data|);
      }
    }
    assert sections[..|sections|] == sections;
    r := Some(Layout(file, virtualAddress, payloadLength));
  }

  lemma {:induction false} FailureStays(sections: seq<Section>, k: nat, virtualOffset: nat, physicalOffset: nat)
    requires k <= |sections| && LaidOut(sections[..k], virtualOffset, physicalOffset).None?
    ensures LaidOut(sections, virtualOffset, physicalOffset).None?
    decreases |sections| - k
  {
    if k < |sections| {
      assert sections[..k + 1][..k] == sections[..k];
      FailureStays(sections, k + 1, virtualOffset, physicalOffset);
    } else {
      assert sections[..k] == sections;
    }
  }

  // Sections of type PROGBITS that are not empty are in the image, and no others.
  predicate Counts(s: Section) {
    s.progbits && |s.data| > 0
  }

  // They follow each other in address order behind the header.
  ghost predicate InOrder(sections: seq<Section>, start: nat) {
    && (forall i | 0 <= i < |sections| && Counts(sections[i]) :: start <= sections[i].addr)
    && (forall i, j | 0 <= i < j < |sections| && Counts(sections[i]) && Counts(sections[j]) ::
          sections[i].addr + |sections[i].data| <= sections[j].addr)
  }

  /** The tool accepts exactly the section lists in address order, and then the layout ends
      where the last placed section does. */
  lemma {:induction false} LaidOutIffInOrder(sections: seq<Section>, virtualOffset: nat, physicalOffset: nat)
    ensures var r := LaidOut(sections, virtualOffset, physicalOffset);
            && (r.Some? <==> InOrder(sections, virtualOffset + HEADER_LENGTH))
            && (r.Some? ==> forall i | 0 <= i < |sections| && Counts(sections[i]) ::
                   sections[i].addr + |sections[i].data| <= r.value.virtualAddress)
            && (r.Some? ==>
                  || r.value.virtualAddress == virtualOffset + HEADER_LENGTH
                  || exists i :: 0 <= i < |sections| && Counts(sections[i])
                        && sections[i].addr + |sections[i].data| == r.value.virtualAddress)
  {
    hide WriteAt, Wrapping;
    if sections != [] {
      var n := |sections| - 1;
      var front := sections[..n];
      LaidOutIffInOrder(front, virtualOffset, physicalOffset);
      assert forall i | 0 <= i < n :: front[i] == sections[i];
    }
  }

  // Where the bytes of a section go, as an offset into the image.
  ghost predicate Covers(s: Section, virtualOffset: nat, i: int) {
    Counts(s) && s.addr - virtualOffset <= i < s.addr - virtualOffset + |s.data|
  }

  // From `from` on, the image holds the section bytes at their addresses and zeros elsewhere.
  ghost predicate Laid(image: seq<Byte>, sections: seq<Section>, virtualOffset: nat, from: nat) {
    && (forall k, i {:trigger Covers(sections[k], virtualOffset, i)} |
          0 <= k < |sections| && Covers(sections[k], virtualOffset, i) ::
          from <= i < |image| && image[i] == sections[k].data[i - (sections[k].addr - virtualOffset)])
    && (forall i | from <= i < |image| ::
          image[i] == 0 || exists k :: 0 <= k < |sections| && Covers(sections[k], virtualOffset, i))
  }

  function BlockLength(length: Natural32): (r: Natural32)
    ensures r % BLOCK_SIZE == 0
    ensures length + 511 < LIMIT_32 ==> length <= r < length + BLOCK_SIZE
    ensures length % BLOCK_SIZE == 0 ==> r == length
  {
    Add32(length, BLOCK_SIZE - 1) / BLOCK_SIZE * BLOCK_SIZE
  }

  function EntryIndex(entryPoint: nat, virtualOffset: nat): nat {
    (entryPoint - virtualOffset) % 0x1_0000_0000_0000_0000 / 4
  }

  const LAST_ENTRY_INDEX: nat := 0xEFFFFF

  // 0xEA000000 | (entry - 2) for A32, 0x14000000 | entry for A64.
  function JumpInstruction(a32: bool, entry: nat): Natural32
    requires entry <= LAST_ENTRY_INDEX
  {
    if !a32 then 0x14000000 + entry
    else if entry < 2 then 0xFFFFFFFE + entry
    else 0xEA000000 + (entry - 2)
  }

  function Header(jump: Natural32, checkSum: Natural32, payloadLength: Natural32): (r: seq<Byte>)
    ensures |r| == HEADER_LENGTH
    ensures Word(r, 0) == jump && r[4..12] == MAGIC && CheckSum(r) == checkSum && PayloadLength(r) == payloadLength
  {
    LittleBytes32(jump) + MAGIC + LittleBytes32(checkSum) + LittleBytes32(payloadLength)
  }

  // ---------------------------------------------------------------------------
  // What the layout holds
  // ---------------------------------------------------------------------------

  lemma WrappingAdds(offset: nat, b: nat)
    ensures Wrapping(Low32(offset), b) == Low32(offset + b)
  {
  }

  // The part of the file from the physical offset on.
  function Image(file: seq<Byte>, physicalOffset: nat): (r: seq<Byte>)
    ensures |r| == if |file| < physicalOffset then 0 else |file| - physicalOffset
  {
    if |file| < physicalOffset then [] else file[physicalOffset..]
  }

  lemma ImageOfWrite(file: seq<Byte>, physicalOffset: nat, at: nat, data: seq<Byte>)
    requires file == [] || |file| >= physicalOffset
    ensures Image(WriteAt(file, at + physicalOffset, data), physicalOffset) ==
            WriteAt(Image(file, physicalOffset), at, data)
  {
    var image, written := Image(file, physicalOffset), WriteAt(file, at + physicalOffset, data);
    var left, right := Image(written, physicalOffset), WriteAt(image, at, data);
    WrittenBytes(file, at + physicalOffset, data);
    WrittenBytes(image, at, data);
    hide WriteAt;
    assert |left| == |right|;
    forall i | 0 <= i < |left| ensures left[i] == right[i] {
      assert left[i] == written[physicalOffset + i];
    }
  }

  lemma LaidExtends(prior: seq<Byte>, sections: seq<Section>, s: Section, virtualOffset: nat)
    requires Counts(s) && virtualOffset + HEADER_LENGTH <= s.addr && |prior| <= s.addr - virtualOffset
    requires Laid(prior, sections, virtualOffset, HEADER_LENGTH)
    ensures Laid(WriteAt(prior, s.addr - virtualOffset, s.data), sections + [s], virtualOffset, HEADER_LENGTH)
  {
    var after, at := sections + [s], s.addr - virtualOffset;
    var image := WriteAt(prior, at, s.data);
    WrittenBytes(prior, at, s.data);
    hide WriteAt;
    assert forall j | 0 <= j < |sections| :: after[j] == sections[j];
    assert after[|sections|] == s;
    forall i | HEADER_LENGTH <= i < |image|
      ensures image[i] == 0 || exists j :: 0 <= j < |after| && Covers(after[j], virtualOffset, i)
    {
      if i < |prior| && prior[i] != 0 {
        var j :| 0 <= j < |sections| && Covers(sections[j], virtualOffset, i);
        assert Covers(after[j], virtualOffset, i);
      } else if at <= i {
        assert Covers(after[|sections|], virtualOffset, i);
      }
    }
  }

  lemma LaidSkips(image: seq<Byte>, sections: seq<Section>, s: Section, virtualOffset: nat)
    requires !Counts(s) && Laid(image, sections, virtualOffset, HEADER_LENGTH)
    ensures Laid(image, sections + [s], virtualOffset, HEADER_LENGTH)
  {
    var after := sections + [s];
    assert forall j | 0 <= j < |sections| :: after[j] == sections[j];
    forall i | HEADER_LENGTH <= i < |image| && image[i] != 0
      ensures exists j :: 0 <= j < |after| && Covers(after[j], virtualOffset, i)
    {
      var j :| 0 <= j < |sections| && Covers(sections[j], virtualOffset, i);
      assert Covers(after[j], virtualOffset, i);
    }
  }

  // The file reaches exactly to the virtual address and holds the sections,
  // and the payload length is the distance to it.
  ghost predicate HoldsSections(l: Layout, sections: seq<Section>, virtualOffset: nat, physicalOffset: nat) {
    && virtualOffset + HEADER_LENGTH <= l.virtualAddress
    && l.payloadLength == Low32(l.virtualAddress - virtualOffset)
    && (l.file == [] ==> l.virtualAddress == virtualOffset + HEADER_LENGTH)
    && (l.file != [] ==> |l.file| == physicalOffset + (l.virtualAddress - virtualOffset))
    && Laid(Image(l.file, physicalOffset), sections, virtualOffset, HEADER_LENGTH)
  }

  lemma PlaceKeeps(l: Layout, sections: seq<Section>, s: Section, virtualOffset: nat, physicalOffset: nat)
    requires HoldsSections(l, sections, virtualOffset, physicalOffset)
    requires Place(l, s, virtualOffset, physicalOffset).Some?
    ensures HoldsSections(Place(l, s, virtualOffset, physicalOffset).value, sections + [s], virtualOffset, physicalOffset)
  {
    hide Laid, WriteAt, Wrapping, Low32, Image;
    if s.Placed() {
      var at := s.addr - virtualOffset;
      WrappingAdds(l.virtualAddress - virtualOffset, s.addr - l.virtualAddress);
      WrappingAdds(at, |s.data|);
      ImageOfWrite(l.file, physicalOffset, at, s.data);
      LaidExtends(Image(l.file, physicalOffset), sections, s, virtualOffset);
    } else {
      LaidSkips(Image(l.file, physicalOffset), sections, s, virtualOffset);
    }
  }

  lemma EmptyHolds(virtualOffset: nat, physicalOffset: nat)
    ensures HoldsSections(Layout([], virtualOffset + HEADER_LENGTH, HEADER_LENGTH), [], virtualOffset, physicalOffset)
  {
  }

  /** Every section's bytes sit at its address, unharmed by the sections after it,
      and the length counted is the distance covered. */
  lemma {:induction false} SectionsAreLaid(sections: seq<Section>, virtualOffset: nat, physicalOffset: nat)
    requires LaidOut(sections, virtualOffset, physicalOffset).Some?
    ensures HoldsSections(LaidOut(sections, virtualOffset, physicalOffset).value, sections, virtualOffset, physicalOffset)
  {
    hide HoldsSections, Place;
    if sections == [] {
      EmptyHolds(virtualOffset, physicalOffset);
    } else {
      var n := |sections| - 1;
      SectionsAreLaid(sections[..n], virtualOffset, physicalOffset);
      assert sections == sections[..n] + [sections[n]];
      PlaceKeeps(LaidOut(sections[..n], virtualOffset, physicalOffset).value, sections[..n], sections[n],
                 virtualOffset, physicalOffset);
    }
  }

  // ---------------------------------------------------------------------------
  // Padding, header and checksum
  // ---------------------------------------------------------------------------

  // A file can be finished when it reaches at least as far as the length says.
  ghost predicate Reaches(file: seq<Byte>, physicalOffset: nat, length: Natural32) {
    && (file == [] ==> length == HEADER_LENGTH)
    && (file != [] ==> |file| >= physicalOffset + length)
  }

  // The last padding byte would be written in front of the file.
  predicate PadsBeforeFile(physicalOffset: nat, length: Natural32) {
    length % BLOCK_SIZE > 0 && physicalOffset + BlockLength(length) == 0
  }

  function WithHeader(file: seq<Byte>, physicalOffset: nat, length: Natural32, jump: Natural32): (r: seq<Byte>)
    requires Reaches(file, physicalOffset, length) && !PadsBeforeFile(physicalOffset, length)
    ensures |r| >= physicalOffset + HEADER_LENGTH && |r| >= physicalOffset + BlockLength(length)
  {
    WithTrailingZero(WriteAt(file, physicalOffset, Header(jump, CHECK_SUM_SEED, BlockLength(length))),
                     physicalOffset, length)
  }

  function WithTrailingZero(file: seq<Byte>, physicalOffset: nat, length: Natural32): (r: seq<Byte>)
    requires !PadsBeforeFile(physicalOffset, length)
    ensures |r| >= |file|
    ensures length % BLOCK_SIZE > 0 ==> |r| >= physicalOffset + BlockLength(length)
  {
    if length % BLOCK_SIZE > 0 then WriteAt(file, physicalOffset + BlockLength(length) - 1, [0]) else file
  }

  function WithSum(file: seq<Byte>, physicalOffset: nat, words: nat): seq<Byte>
    requires |file| >= physicalOffset + 4 * words
  {
    WriteAt(file, physicalOffset + 12, LittleBytes32(Sum(Image(file, physicalOffset), words)))
  }

  function Finished(file: seq<Byte>, physicalOffset: nat, length: Natural32, jump: Natural32): seq<Byte>
    requires Reaches(file, physicalOffset, length) && !PadsBeforeFile(physicalOffset, length)
  {
    WithSum(WithHeader(file, physicalOffset, length, jump), physicalOffset, BlockLength(length) / 4)
  }

  lemma LayoutReaches(sections: seq<Section>, virtualOffset: nat, physicalOffset: nat)
    requires LaidOut(sections, virtualOffset, physicalOffset).Some?
    ensures var l := LaidOut(sections, virtualOffset, physicalOffset).value;
            Reaches(l.file, physicalOffset, l.payloadLength)
  {
    SectionsAreLaid(sections, virtualOffset, physicalOffset);
    hide LaidOut, Laid;
  }

  // The finished file, or None where the tool gives up.
  function BuiltFile(sections: seq<Section>, virtualOffset: nat, physicalOffset: nat, entryPoint: nat, a32: bool)
    : Option<seq<Byte>>
  {
    var l := LaidOut(sections, virtualOffset, physicalOffset);
    var entry := EntryIndex(entryPoint, virtualOffset);
    if l.None? || entry > LAST_ENTRY_INDEX || PadsBeforeFile(physicalOffset, l.value.payloadLength) then None
    else
      LayoutReaches(sections, virtualOffset, physicalOffset);
      Some(Finished(l.value.file, physicalOffset, l.value.payloadLength, JumpInstruction(a32, entry)))
  }

  method Build(sections: seq<Section>, virtualOffset: nat, physicalOffset: nat, entryPoint: nat, a32: bool)
    returns (r: Option<seq<Byte>>)
    ensures r == BuiltFile(sections, virtualOffset, physicalOffset, entryPoint, a32)
  {
    hide JumpInstruction, LaidOut;
    var l := LayOut(sections, virtualOffset, physicalOffset);
    var entry := EntryIndex(entryPoint, virtualOffset);
    if l.None? || entry > LAST_ENTRY_INDEX || PadsBeforeFile(physicalOffset, l.value.payloadLength) {
      return None;
    }
    LayoutReaches(sections, virtualOffset, physicalOffset);
    var payloadLength := BlockLength(l.value.payloadLength);
    var file := AddHeader(l.value.file, physicalOffset, l.value.payloadLength, JumpInstruction(a32, entry));
    var checkSum := SumFile(file, physicalOffset, payloadLength / 4);
    file := WriteAt(file, physicalOffset + 12, LittleBytes32(checkSum));
    r := Some(file);
  }

  method AddHeader(file: seq<Byte>, physicalOffset: nat, length: Natural32, jump: Natural32) returns (r: seq<Byte>)
    requires Reaches(file, physicalOffset, length) && !PadsBeforeFile(physicalOffset, length)
    ensures r == WithHeader(file, physicalOffset, length, jump)
  {
    var payloadLength := BlockLength(length);
    r := WriteAt(file, physicalOffset, Header(jump, CHECK_SUM_SEED, payloadLength));
    if length % BLOCK_SIZE > 0 {
      r := WriteAt(r, physicalOffset + payloadLength - 1, [0]);
    }
  }

  method SumFile(file: seq<Byte>, physicalOffset: nat, words: nat) returns (checkSum: Natural32)
    requires |file| >= physicalOffset + 4 * words
    ensures checkSum == Sum(Image(file, physicalOffset), words)
  {
    checkSum := 0;
    for i := 0 to words
      invariant checkSum == Sum(Image(file, physicalOffset), i)
    {
      var word := ReadWord(file, physicalOffset, i);
      checkSum := Add32(checkSum, word);
    }
  }

  method ReadWord(file: seq<Byte>, physicalOffset: nat, i: nat) returns (word: Natural32)
    requires |file| >= physicalOffset + 4 * i + 4
    ensures word == Word(Image(file, physicalOffset), i)
  {
    var at := physicalOffset + 4 * i;
    word := LittleWord32(file[at], file[at + 1], file[at + 2], file[at + 3]);
  }

  lemma HeaderInPlace(image: seq<Byte>, jump: Natural32, checkSum: Natural32, payloadLength: Natural32)
    requires |image| >= HEADER_LENGTH && image[..HEADER_LENGTH] == Header(jump, checkSum, payloadLength)
    ensures Word(image, 0) == jump && CheckSum(image) == checkSum && PayloadLength(image) == payloadLength
    ensures image[4..12] == MAGIC
  {
    var h := Header(jump, checkSum, payloadLength);
    assert forall i | 0 <= i < HEADER_LENGTH :: image[i] == h[i];
    assert image[4..12] == h[4..12];
  }

  function Padded(image: seq<Byte>, length: Natural32, header: seq<Byte>): seq<Byte> {
    WithLastZero(WriteAt(image, 0, header), length)
  }

  function WithLastZero(image: seq<Byte>, length: Natural32): seq<Byte> {
    if length % BLOCK_SIZE > 0 && BlockLength(length) > 0
    then WriteAt(image, BlockLength(length) - 1, [0]) else image
  }

  lemma TrailingZeroImage(file: seq<Byte>, physicalOffset: nat, length: Natural32)
    requires !PadsBeforeFile(physicalOffset, length) && |file| >= physicalOffset
    ensures Image(WithTrailingZero(file, physicalOffset, length), physicalOffset) ==
            WithLastZero(Image(file, physicalOffset), length)
  {
    hide WriteAt, BlockLength, Image;
    if length % BLOCK_SIZE > 0 {
      if BlockLength(length) > 0 {
        ImageOfWrite(file, physicalOffset, BlockLength(length) - 1, [0]);
      } else {
        WriteBeforeImage(file, physicalOffset);
      }
    }
  }

  lemma WithHeaderImage(file: seq<Byte>, physicalOffset: nat, length: Natural32, jump: Natural32)
    requires Reaches(file, physicalOffset, length) && !PadsBeforeFile(physicalOffset, length)
    ensures Image(WithHeader(file, physicalOffset, length, jump), physicalOffset) ==
            Padded(Image(file, physicalOffset), length, Header(jump, CHECK_SUM_SEED, BlockLength(length)))
  {
    hide WriteAt, Image, Header, BlockLength, WithTrailingZero, WithLastZero;
    var header := Header(jump, CHECK_SUM_SEED, BlockLength(length));
    ImageOfWrite(file, physicalOffset, 0, header);
    TrailingZeroImage(WriteAt(file, physicalOffset, header), physicalOffset, length);
  }

  lemma WriteBeforeImage(file: seq<Byte>, physicalOffset: nat)
    requires 0 < physicalOffset <= |file|
    ensures Image(WriteAt(file, physicalOffset - 1, [0]), physicalOffset) == Image(file, physicalOffset)
  {
    WrittenBytes(file, physicalOffset - 1, [0]);
  }

  lemma PaddedHeader(image: seq<Byte>, length: Natural32, header: seq<Byte>)
    requires |header| == HEADER_LENGTH
    ensures |Padded(image, length, header)| >= HEADER_LENGTH
    ensures Padded(image, length, header)[..HEADER_LENGTH] == header
  {
    var p := Padded(image, length, header);
    WrittenBytes(image, 0, header);
    WrittenBytes(WriteAt(image, 0, header), if BlockLength(length) > 0 then BlockLength(length) - 1 else 0, [0]);
    hide WriteAt;
    assert forall i | 0 <= i < HEADER_LENGTH :: p[i] == header[i];
  }

  lemma SummedIsValid(image: seq<Byte>, jump: Natural32, payloadLength: Natural32)
    requires |image| >= HEADER_LENGTH && |image| >= payloadLength && payloadLength % BLOCK_SIZE == 0
    requires image[..HEADER_LENGTH] == Header(jump, CHECK_SUM_SEED, payloadLength)
    ensures var final := WithCheckSum(image, Sum(image, payloadLength / 4));
            && PayloadLength(final) == payloadLength && Word(final, 0) == jump
            && (Validates(final) <==> payloadLength != 0)
  {
    HeaderInPlace(image, jump, CHECK_SUM_SEED, payloadLength);
    var final := WithCheckSum(image, Sum(image, payloadLength / 4));
    assert final[4..12] == image[4..12];
    assert WithCheckSum(final, CHECK_SUM_SEED) == image;
  }

  lemma WithSumImage(file: seq<Byte>, physicalOffset: nat, words: nat)
    requires |file| >= physicalOffset + 4 * words && |file| >= physicalOffset + HEADER_LENGTH
    ensures Image(WithSum(file, physicalOffset, words), physicalOffset) ==
            WithCheckSum(Image(file, physicalOffset), Sum(Image(file, physicalOffset), words))
  {
    ImageOfWrite(file, physicalOffset, 12, LittleBytes32(Sum(Image(file, physicalOffset), words)));
  }

  lemma BuiltIsFinished(sections: seq<Section>, virtualOffset: nat, physicalOffset: nat, entryPoint: nat,
                        a32: bool, file: seq<Byte>) returns (l: Layout, jump: Natural32)
    requires BuiltFile(sections, virtualOffset, physicalOffset, entryPoint, a32) == Some(file)
    ensures LaidOut(sections, virtualOffset, physicalOffset) == Some(l)
    ensures HoldsSections(l, sections, virtualOffset, physicalOffset)
    ensures EntryIndex(entryPoint, virtualOffset) <= LAST_ENTRY_INDEX
    ensures jump == JumpInstruction(a32, EntryIndex(entryPoint, virtualOffset))
    ensures Reaches(l.file, physicalOffset, l.payloadLength) && !PadsBeforeFile(physicalOffset, l.payloadLength)
    ensures file == Finished(l.file, physicalOffset, l.payloadLength, jump)
  {
    hide LaidOut, Finished, JumpInstruction, EntryIndex, HoldsSections, Reaches, PadsBeforeFile;
    SectionsAreLaid(sections, virtualOffset, physicalOffset);
    LayoutReaches(sections, virtualOffset, physicalOffset);
    l := LaidOut(sections, virtualOffset, physicalOffset).value;
    jump := JumpInstruction(a32, EntryIndex(entryPoint, virtualOffset));
  }

  /** Build then validate: the loader accepts every image the tool completes,
      unless its length in whole blocks wraps to zero in 32 bits. */
  lemma {:induction false} BuiltImageValidates(sections: seq<Section>, virtualOffset: nat, physicalOffset: nat,
                                               entryPoint: nat, a32: bool, file: seq<Byte>)
    requires BuiltFile(sections, virtualOffset, physicalOffset, entryPoint, a32) == Some(file)
    ensures var image := Image(file, physicalOffset);
            var end := LaidOut(sections, virtualOffset, physicalOffset).value.virtualAddress;
            && |image| >= HEADER_LENGTH
            && PayloadLength(image) == BlockLength(Low32(end - virtualOffset)) <= |image|
            && Word(image, 0) == JumpInstruction(a32, EntryIndex(entryPoint, virtualOffset))
            && (Validates(image) <==> BlockLength(Low32(end - virtualOffset)) != 0)
  {
    hide BuiltFile, Finished, LaidOut, Low32, JumpInstruction, EntryIndex, BlockLength, Word, Validates, Image, Laid,
         Reaches, PadsBeforeFile;
    var l, jump := BuiltIsFinished(sections, virtualOffset, physicalOffset, entryPoint, a32, file);
    FinishedImage(l.file, physicalOffset, l.payloadLength, jump);
  }

  lemma FinishedImage(file: seq<Byte>, physicalOffset: nat, length: Natural32, jump: Natural32)
    requires Reaches(file, physicalOffset, length) && !PadsBeforeFile(physicalOffset, length)
    ensures var image := Image(Finished(file, physicalOffset, length, jump), physicalOffset);
            && |image| >= HEADER_LENGTH
            && PayloadLength(image) == BlockLength(length) <= |image|
            && Word(image, 0) == jump
            && (Validates(image) <==> BlockLength(length) != 0)
  {
    var payloadLength := BlockLength(length);
    var headed := WithHeader(file, physicalOffset, length, jump);
    WithHeaderImage(file, physicalOffset, length, jump);
    PaddedHeader(Image(file, physicalOffset), length, Header(jump, CHECK_SUM_SEED, payloadLength));
    WithSumImage(headed, physicalOffset, payloadLength / 4);
    SummedIsValid(Image(headed, physicalOffset), jump, payloadLength);
  }

  lemma LaidAlike(image: seq<Byte>, other: seq<Byte>, sections: seq<Section>, virtualOffset: nat)
    requires |image| == |other| && forall i | HEADER_LENGTH <= i < |image| :: image[i] == other[i]
    requires Laid(image, sections, virtualOffset, HEADER_LENGTH)
    ensures Laid(other, sections, virtualOffset, HEADER_LENGTH)
  {
  }

  lemma CheckSumKeepsLaid(image: seq<Byte>, checkSum: Natural32, sections: seq<Section>, virtualOffset: nat)
    requires |image| >= HEADER_LENGTH
    ensures Laid(WithCheckSum(image, checkSum), sections, virtualOffset, HEADER_LENGTH) <==>
            Laid(image, sections, virtualOffset, HEADER_LENGTH)
  {
    var other := WithCheckSum(image, checkSum);
    hide Laid;
    if Laid(image, sections, virtualOffset, HEADER_LENGTH) {
      LaidAlike(image, other, sections, virtualOffset);
    }
    if Laid(other, sections, virtualOffset, HEADER_LENGTH) {
      LaidAlike(other, image, sections, virtualOffset);
    }
  }

  // The length in whole blocks is computed without a wrap, or there is nothing to pad.
  predicate FitsBlocks(n: nat) {
    n + 511 < LIMIT_32 || n % BLOCK_SIZE == 0
  }

  // Where the trailing zero is written inside an image of n bytes; one that fits is padded behind its end.
  function PaddingInside(n: nat): Option<nat> {
    var payloadLength := BlockLength(Low32(n));
    if FitsBlocks(n) || payloadLength == 0 then None else Some(payloadLength - 1)
  }

  // The trailing zero overwrites a byte of a section that is not zero.
  ghost predicate PaddingHits(sections: seq<Section>, virtualOffset: nat, n: nat) {
    PaddingInside(n).Some?
    && exists k ::
         && 0 <= k < |sections| && Covers(sections[k], virtualOffset, PaddingInside(n).value)
         && sections[k].data[PaddingInside(n).value - (sections[k].addr - virtualOffset)] != 0
  }

  // Padding keeps what is laid exactly when the trailing zero hits nothing.
  lemma LaidPadded(prior: seq<Byte>, image: seq<Byte>, sections: seq<Section>, virtualOffset: nat, n: nat)
    requires Laid(prior, sections, virtualOffset, HEADER_LENGTH)
    requires |image| >= |prior| && (PaddingInside(n).Some? ==> PaddingInside(n).value < |prior|)
    requires forall i | HEADER_LENGTH <= i < |image| ::
               image[i] == if i < |prior| && PaddingInside(n) != Some(i) then prior[i] else 0
    ensures Laid(image, sections, virtualOffset, HEADER_LENGTH) <==> !PaddingHits(sections, virtualOffset, n)
  {
    hide PaddingInside;
  }

  // The prior image of an image of n bytes.
  ghost predicate ReachesTo(prior: seq<Byte>, n: nat) {
    HEADER_LENGTH <= n && (|prior| == n || (prior == [] && n == HEADER_LENGTH))
  }

  lemma PaddingStaysInside(n: nat)
    requires n + 511 >= LIMIT_32
    ensures BlockLength(Low32(n)) <= n
    ensures n < LIMIT_32 ==> BlockLength(Low32(n)) == 0 || n % BLOCK_SIZE == 0
    ensures n % BLOCK_SIZE == Low32(n) % BLOCK_SIZE
  {
    Low32Blocks(n);
    if n < LIMIT_32 {
      Low32OfSmall(n);
      hide Low32;
    } else {
      hide Low32, BlockLength;
    }
  }

  // A block divides 2^32.
  lemma Low32Blocks(n: nat)
    ensures n % BLOCK_SIZE == Low32(n) % BLOCK_SIZE
  {
    var k, r := n / LIMIT_32 * 0x80_0000, Low32(n);
    assert n == BLOCK_SIZE * k + r;
    hide Low32;
    BlocksLeave(k, r);
  }

  lemma BlocksLeave(k: nat, r: nat)
    ensures (BLOCK_SIZE * k + r) % BLOCK_SIZE == r % BLOCK_SIZE
  {
  }

  lemma PaddedBytes(prior: seq<Byte>, n: nat, header: seq<Byte>)
    requires |header| == HEADER_LENGTH && ReachesTo(prior, n)
    ensures var p := Padded(prior, Low32(n), header);
            && |p| == (if n + 511 < LIMIT_32 then BlockLength(n) else n)
            && (PaddingInside(n).Some? ==> PaddingInside(n).value < |prior|)
            && forall i | HEADER_LENGTH <= i < |p| ::
                 p[i] == if i < |prior| && PaddingInside(n) != Some(i) then prior[i] else 0
  {
    WrittenBytes(prior, 0, header);
    if n + 511 < LIMIT_32 {
      Low32OfSmall(n);
    } else {
      PaddingStaysInside(n);
    }
    hide Low32;
    var B := BlockLength(Low32(n));
    if B > 0 {
      WrittenBytes(WriteAt(prior, 0, header), B - 1, [0]);
    }
    hide WriteAt, BlockLength;
  }

  lemma FinishedLayout(file: seq<Byte>, n: nat, sections: seq<Section>, virtualOffset: nat,
                       physicalOffset: nat, jump: Natural32)
    requires ReachesTo(Image(file, physicalOffset), n)
    requires Laid(Image(file, physicalOffset), sections, virtualOffset, HEADER_LENGTH)
    requires Reaches(file, physicalOffset, Low32(n)) && !PadsBeforeFile(physicalOffset, Low32(n))
    ensures var image := Image(Finished(file, physicalOffset, Low32(n), jump), physicalOffset);
            && |image| == (if n + 511 < LIMIT_32 then BlockLength(n) else n)
            && (Laid(image, sections, virtualOffset, HEADER_LENGTH) <==> !PaddingHits(sections, virtualOffset, n))
  {
    hide WriteAt, Image, Header, BlockLength, Padded, Laid, Sum, WithCheckSum, Finished, Reaches, PadsBeforeFile,
         Low32, FitsBlocks, ReachesTo, PaddingHits;
    var length := Low32(n);
    var prior, header := Image(file, physicalOffset), Header(jump, CHECK_SUM_SEED, BlockLength(length));
    FinishedIsPadded(file, physicalOffset, length, jump);
    PaddedLayout(prior, n, header, sections, virtualOffset);
    var padded := Padded(prior, length, header);
    CheckSumKeepsLaid(padded, Sum(padded, BlockLength(length) / 4), sections, virtualOffset);
  }

  lemma PaddedLayout(prior: seq<Byte>, n: nat, header: seq<Byte>, sections: seq<Section>, virtualOffset: nat)
    requires |header| == HEADER_LENGTH && ReachesTo(prior, n)
    requires Laid(prior, sections, virtualOffset, HEADER_LENGTH)
    ensures |Padded(prior, Low32(n), header)| == (if n + 511 < LIMIT_32 then BlockLength(n) else n)
    ensures Laid(Padded(prior, Low32(n), header), sections, virtualOffset, HEADER_LENGTH) <==>
            !PaddingHits(sections, virtualOffset, n)
  {
    hide Padded, Laid, BlockLength, Low32, PaddingHits, PaddingInside;
    PaddedBytes(prior, n, header);
    LaidPadded(prior, Padded(prior, Low32(n), header), sections, virtualOffset, n);
  }

  lemma FinishedIsPadded(file: seq<Byte>, physicalOffset: nat, length: Natural32, jump: Natural32)
    requires Reaches(file, physicalOffset, length) && !PadsBeforeFile(physicalOffset, length)
    ensures var padded := Padded(Image(file, physicalOffset), length, Header(jump, CHECK_SUM_SEED, BlockLength(length)));
            && |padded| >= HEADER_LENGTH && |padded| >= BlockLength(length)
            && Image(Finished(file, physicalOffset, length, jump), physicalOffset) ==
               WithCheckSum(padded, Sum(padded, BlockLength(length) / 4))
  {
    hide WriteAt, Image, Header, BlockLength, WithHeader, Padded, Sum, WithSum, WithCheckSum;
    WithHeaderImage(file, physicalOffset, length, jump);
    WithSumImage(WithHeader(file, physicalOffset, length, jump), physicalOffset, BlockLength(length) / 4);
  }

  lemma Low32OfSmall(x: Natural32)
    ensures Low32(x) == x
  {
  }

  // The shortest image of whole blocks that holds n bytes.
  predicate WholeBlocks(image: seq<Byte>, n: nat) {
    |image| % BLOCK_SIZE == 0 && n <= |image| < n + BLOCK_SIZE
  }

  /** Image layout: the finished image is the shortest one of whole blocks if and only if its length rounds up
      within 32 bits or needs no rounding; and it holds every section at its address and zeros between them if
      and only if the trailing zero does not hit a section, which it cannot while the length fits in 32 bits. */
  lemma {:induction false} BuiltImageLayout(sections: seq<Section>, virtualOffset: nat, physicalOffset: nat,
                                            entryPoint: nat, a32: bool, file: seq<Byte>)
    requires BuiltFile(sections, virtualOffset, physicalOffset, entryPoint, a32) == Some(file)
    ensures var image := Image(file, physicalOffset);
            var length := LaidOut(sections, virtualOffset, physicalOffset).value.virtualAddress - virtualOffset;
            && length <= |image|
            && (WholeBlocks(image, length) <==> FitsBlocks(length))
            && (Laid(image, sections, virtualOffset, HEADER_LENGTH) <==> !PaddingHits(sections, virtualOffset, length))
            && (length < LIMIT_32 ==> !PaddingHits(sections, virtualOffset, length))
  {
    hide BuiltFile, Finished, LaidOut, Low32, JumpInstruction, EntryIndex, BlockLength, Image, Laid,
         Reaches, PadsBeforeFile;
    var l, jump := BuiltIsFinished(sections, virtualOffset, physicalOffset, entryPoint, a32, file);
    FinishedLayout(l.file, l.virtualAddress - virtualOffset, sections, virtualOffset, physicalOffset, jump);
    ShortIsNotPaddedInside(l.virtualAddress - virtualOffset);
  }

  lemma ShortIsNotPaddedInside(n: nat)
    ensures n < LIMIT_32 ==> PaddingInside(n).None?
  {
    if n + 511 >= LIMIT_32 {
      PaddingStaysInside(n);
    }
    hide Low32, BlockLength;
  }

  /** An image built for the start of the file that can be sent in one stream has a length that fits. */
  lemma {:induction false} SentImageFits(sections: seq<Section>, virtualOffset: nat, entryPoint: nat, a32: bool,
                                         file: seq<Byte>)
    requires BuiltFile(sections, virtualOffset, 0, entryPoint, a32) == Some(file)
    requires |file| < LIMIT_32
    ensures LaidOut(sections, virtualOffset, 0).value.virtualAddress - virtualOffset + 511 < LIMIT_32
  {
    hide BuiltFile, Finished, LaidOut, Low32, JumpInstruction, EntryIndex, BlockLength, Laid, Reaches, PadsBeforeFile,
         FitsBlocks, WholeBlocks;
    BuiltImageLayout(sections, virtualOffset, 0, entryPoint, a32, file);
    var l, jump := BuiltIsFinished(sections, virtualOffset, 0, entryPoint, a32, file);
    NotPaddedFits(l.virtualAddress - virtualOffset);
  }

  lemma NotPaddedFits(n: nat)
    requires n < LIMIT_32 && !PadsBeforeFile(0, Low32(n))
    ensures n + 511 < LIMIT_32
  {
    Low32OfSmall(n);
    if n + 511 >= LIMIT_32 {
      PaddingStaysInside(n);
    }
  }

  lemma FittingLengthIsPositive(length: nat)
    requires 0 < length && length + 511 < LIMIT_32
    ensures BlockLength(Low32(length)) != 0
  {
    Low32OfSmall(length);
  }

  lemma BuiltFitsValidates(sections: seq<Section>, virtualOffset: nat, physicalOffset: nat, entryPoint: nat,
                           a32: bool, file: seq<Byte>)
    requires BuiltFile(sections, virtualOffset, physicalOffset, entryPoint, a32) == Some(file)
    requires LaidOut(sections, virtualOffset, physicalOffset).value.virtualAddress - virtualOffset + 511 < LIMIT_32
    ensures var image := Image(file, physicalOffset);
            |image| >= HEADER_LENGTH && |image| >= PayloadLength(image) && Validates(image)
  {
    hide BuiltFile, Finished, LaidOut, Low32, JumpInstruction, EntryIndex, BlockLength, Word, Validates, Image, Laid,
         Reaches, PadsBeforeFile, PayloadLength;
    var l, _ := BuiltIsFinished(sections, virtualOffset, physicalOffset, entryPoint, a32, file);
    FittingLengthIsPositive(l.virtualAddress - virtualOffset);
    BuiltImageValidates(sections, virtualOffset, physicalOffset, entryPoint, a32, file);
  }

  // ---------------------------------------------------------------------------
  // The jump to the entry point
  // ---------------------------------------------------------------------------

  function SignExtended(x: nat, bits: nat): int {
    if x < bits / 2 then x else x - bits
  }

  // Where a branch at the start of the image goes, in words from there: A32 B with its 24-bit offset
  // from two words ahead, A64 B with its 26-bit offset.
  function BranchTarget(a32: bool, instruction: Natural32): Option<int> {
    if a32 then
      if instruction / 0x100_0000 == 0xEA then Some(2 + SignExtended(instruction % 0x100_0000, 0x100_0000)) else None
    else
      if instruction / 0x400_0000 == 5 then Some(SignExtended(instruction % 0x400_0000, 0x400_0000)) else None
  }

  /** Of the entry points the tool admits, the jump reaches exactly those that a signed branch offset can. */
  lemma {:induction false} JumpReachesEntry(a32: bool, entry: nat)
    requires entry <= LAST_ENTRY_INDEX
    ensures BranchTarget(a32, JumpInstruction(a32, entry)) == Some(entry) <==> (a32 ==> 2 <= entry < 0x80_0002)
  {
  }
}

/**
 The header and checksum of a boot image, and the loader's check of them.
 */
module BootImage {
  import opened Bytes

  const MAGIC: seq<Byte> := [0x65, 0x47, 0x4F, 0x4E, 0x2E, 0x42, 0x54, 0x30] // eGON.BT0
  const CHECK_SUM_SEED: Natural32 := 0x5F0A6C39
  const BLOCK_SIZE: nat := 512
  const HEADER_LENGTH: nat := 20

  function Word(bs: seq<Byte>, i: nat): Natural32
    requires 4 * i + 4 <= |bs|
  {
    LittleWord32(bs[4 * i], bs[4 * i + 1], bs[4 * i + 2], bs[4 * i + 3])
  }

  // Wrapping sum of the first n words.
  function Sum(bs: seq<Byte>, n: nat): Natural32
    requires 4 * n <= |bs|
  {
    if n == 0 then 0 else Add32(Sum(bs, n - 1), Word(bs, n - 1))
  }

  function CheckSum(image: seq<Byte>): Natural32
    requires |image| >= HEADER_LENGTH
  {
    Word(image, 3)
  }

  function PayloadLength(image: seq<Byte>): Natural32
    requires |image| >= HEADER_LENGTH
  {
    Word(image, 4)
  }

  function WithCheckSum(image: seq<Byte>, checkSum: Natural32): (r: seq<Byte>)
    requires |image| >= HEADER_LENGTH
    ensures |r| == |image|
    ensures forall i | 0 <= i < |image| && !(12 <= i < 16) :: r[i] == image[i]
    ensures CheckSum(r) == checkSum
  {
    image[..12] + LittleBytes32(checkSum) + image[16..]
  }

  predicate WellFormedHeader(image: seq<Byte>)
    requires |image| >= HEADER_LENGTH
  {
    PayloadLength(image) != 0 && PayloadLength(image) % BLOCK_SIZE == 0 && image[4..12] == MAGIC
  }

  // The stored checksum is the wrapping sum of all words with the seed in its place.
  predicate Validates(image: seq<Byte>)
    requires |image| >= HEADER_LENGTH && |image| >= PayloadLength(image)
  {
    && WellFormedHeader(image)
    && CheckSum(image) == Sum(WithCheckSum(image, CHECK_SUM_SEED), PayloadLength(image) / 4)
  }

  /** The loader's check.  It leaves the seed in place of the checksum. */
  method Validate(memory: array<Byte>) returns (valid: bool)
    requires memory.Length >= HEADER_LENGTH && memory.Length >= PayloadLength(memory[..])
    modifies memory
    ensures valid == Validates(old(memory[..]))
    ensures memory[..] == if WellFormedHeader(old(memory[..]))
                          then WithCheckSum(old(memory[..]), CHECK_SUM_SEED) else old(memory[..])
  {
    ghost var image := memory[..];
    var payloadLength := Word(memory[..], 4);
    if payloadLength == 0 || payloadLength % BLOCK_SIZE != 0 || memory[4..12] != MAGIC {
      assert image[4..12] == memory[4..12];
      return false;
    }
    assert image[4..12] == memory[4..12];
    var checkSumA := Word(memory[..], 3);
    SetCheckSum(memory, CHECK_SUM_SEED);
    var checkSumB := SumWords(memory, payloadLength / 4);
    valid := checkSumA == checkSumB;
  }

  method SetCheckSum(memory: array<Byte>, checkSum: Natural32)
    requires memory.Length >= HEADER_LENGTH
    modifies memory
    ensures memory[..] == WithCheckSum(old(memory[..]), checkSum)
  {
    var bytes := LittleBytes32(checkSum);
    memory[12], memory[13], memory[14], memory[15] := bytes[0], bytes[1], bytes[2], bytes[3];
  }

  method SumWords(memory: array<Byte>, n: nat) returns (sum: Natural32)
    requires 4 * n <= memory.Length
    ensures sum == Sum(memory[..], n)
  {
    sum := 0;
    for i := 0 to n
      invariant sum == Sum(memory[..], i)
    {
      sum := Add32(sum, Word(memory[..], i));
    }
  }

  // The sum of the first n words, without a bound.
  function Total(bs: seq<Byte>, n: nat): nat
    requires 4 * n <= |bs|
  {
    if n == 0 then 0 else Total(bs, n - 1) + Word(bs, n - 1)
  }

  lemma {:induction false} SumIsTotal(bs: seq<Byte>, n: nat)
    requires 4 * n <= |bs|
    ensures Sum(bs, n) == Total(bs, n) % LIMIT_32
  {
    hide Word;
    if n > 0 {
      SumIsTotal(bs, n - 1);
      AddModulo(Total(bs, n - 1), Word(bs, n - 1));
    }
  }

  lemma {:induction false} TotalWithCheckSum(image: seq<Byte>, checkSum: Natural32, n: nat)
    requires HEADER_LENGTH <= |image| && 4 * n <= |image|
    ensures Total(WithCheckSum(image, checkSum), n) + (if n < 4 then 0 else CheckSum(image))
            == Total(image, n) + if n < 4 then 0 else checkSum
  {
    hide WithCheckSum, LittleWord32;
    if n > 0 {
      TotalWithCheckSum(image, checkSum, n - 1);
    }
  }

  lemma SameRemainder(a: Natural32, seeded: nat, total: nat, seed: Natural32)
    requires seeded + a == total + seed
    ensures a == seeded % LIMIT_32 <==> (total + seed) % LIMIT_32 == 2 * a % LIMIT_32
  {
    var q := seeded / LIMIT_32;
    assert seeded == q * LIMIT_32 + seeded % LIMIT_32;
  }

  ghost predicate HasMagic(image: seq<Byte>) {
    |image| >= 12 && forall i | 0 <= i < 8 :: image[4 + i] as int == "eGON.BT0"[i] as int
  }

  /** The loader accepts an image if and only if it is whole 512-byte blocks and at least one of them, carries the
      eight letters, and all its words and the seed sum to twice its checksum, modulo 2^32. */
  lemma {:induction false} ValidatesIff(image: seq<Byte>)
    requires |image| >= HEADER_LENGTH && |image| >= PayloadLength(image)
    ensures Validates(image) <==>
            && HasMagic(image)
            && PayloadLength(image) >= 512 && PayloadLength(image) % 512 == 0
            && (Total(image, PayloadLength(image) / 4) + 0x5F0A6C39) % 0x1_0000_0000
               == 2 * CheckSum(image) % 0x1_0000_0000
  {
    hide Word, WithCheckSum, HasMagic, Sum, Total;
    MagicIff(image);
    var n := PayloadLength(image) / 4;
    if PayloadLength(image) >= 512 {
      var seeded := WithCheckSum(image, CHECK_SUM_SEED);
      SumIsTotal(seeded, n);
      TotalWithCheckSum(image, CHECK_SUM_SEED, n);
      SameRemainder(CheckSum(image), Total(seeded, n), Total(image, n), CHECK_SUM_SEED);
    }
  }

  lemma MagicIff(image: seq<Byte>)
    requires |image| >= HEADER_LENGTH
    ensures HasMagic(image) <==> image[4..12] == MAGIC
  {
    assert forall i | 0 <= i < 8 :: image[4..12][i] == image[4 + i];
    assert forall i | 0 <= i < 8 :: MAGIC[i] as int == "eGON.BT0"[i] as int;
  }

  /** A second check of the same memory succeeds only if the checksum happens to be the seed. */
  lemma {:induction false} ValidatesAgainIffSeed(image: seq<Byte>)
    requires |image| >= HEADER_LENGTH && |image| >= PayloadLength(image) && Validates(image)
    ensures PayloadLength(WithCheckSum(image, CHECK_SUM_SEED)) == PayloadLength(image)
    ensures Validates(WithCheckSum(image, CHECK_SUM_SEED)) <==> CheckSum(image) == CHECK_SUM_SEED
  {
    var seeded := WithCheckSum(image, CHECK_SUM_SEED);
    assert seeded[4..12] == image[4..12];
    assert WithCheckSum(seeded, CHECK_SUM_SEED) == seeded;
  }

  function WithWord(image: seq<Byte>, w: nat, value: Natural32): (r: seq<Byte>)
    requires 4 * w + 4 <= |image|
    ensures |r| == |image|
    ensures forall i | 0 <= i < |image| && !(4 * w <= i < 4 * w + 4) :: r[i] == image[i]
    ensures Word(r, w) == value
  {
    image[..4 * w] + LittleBytes32(value) + image[4 * w + 4..]
  }

  lemma OtherWords(image: seq<Byte>, w: nat, value: Natural32, i: nat)
    requires 4 * w + 4 <= |image| && 4 * i + 4 <= |image| && i != w
    ensures Word(WithWord(image, w, value), i) == Word(image, i)
  {
  }

  lemma {:induction false} SumOfUntouched(image: seq<Byte>, w: nat, value: Natural32, n: nat)
    requires n <= w && 4 * w + 4 <= |image|
    ensures Sum(WithWord(image, w, value), n) == Sum(image, n)
  {
    if n > 0 {
      SumOfUntouched(image, w, value, n - 1);
      OtherWords(image, w, value, n - 1);
    }
  }

  // Replacing one word shifts the sum by the difference, up to k carries out of 32 bits.
  lemma {:induction false} SumOfReplaced(image: seq<Byte>, w: nat, value: Natural32, n: nat) returns (k: int)
    requires w < n && 4 * n <= |image|
    ensures Sum(WithWord(image, w, value), n) + Word(image, w) == Sum(image, n) + value + LIMIT_32 * k
  {
    hide Word;
    if n == w + 1 {
      SumOfUntouched(image, w, value, w);
      k := Carry(Sum(image, w), Word(image, w)) - Carry(Sum(image, w), value);
    } else {
      k := SumOfReplaced(image, w, value, n - 1);
      OtherWords(image, w, value, n - 1);
      var word := Word(image, n - 1);
      k := k + Carry(Sum(image, n - 1), word) - Carry(Sum(WithWord(image, w, value), n - 1), word);
    }
  }

  function Carry(a: Natural32, b: Natural32): int {
    if a + b < LIMIT_32 then 0 else 1
  }

  lemma OnlyMultiple(p: Natural32, q: Natural32, k: int)
    requires p == q + LIMIT_32 * k
    ensures p == q
  {
  }

  /** Changing any one word after the header of a valid image is detected. */
  lemma {:induction false} ChangedWordIsDetected(image: seq<Byte>, w: nat, value: Natural32)
    requires |image| >= HEADER_LENGTH && |image| >= PayloadLength(image) && Validates(image)
    requires HEADER_LENGTH <= 4 * w && w < PayloadLength(image) / 4 && value != Word(image, w)
    ensures PayloadLength(WithWord(image, w, value)) == PayloadLength(image)
    ensures !Validates(WithWord(image, w, value))
  {
    var changed := WithWord(image, w, value);
    OtherWords(image, w, value, 4);
    OtherWords(image, w, value, 3);
    hide LittleWord32, Sum;
    if Validates(changed) {
      var seeded := WithCheckSum(image, CHECK_SUM_SEED);
      var n := PayloadLength(image) / 4;
      assert WithCheckSum(changed, CHECK_SUM_SEED) == WithWord(seeded, w, value);
      assert Word(seeded, w) == Word(image, w);
      var k := SumOfReplaced(seeded, w, value, n);
      OnlyMultiple(Word(image, w), value, k);
    }
  }
}

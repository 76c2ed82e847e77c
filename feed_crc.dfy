/** The nibble-at-a-time CRC that a feed compartment computes over its
    EEPROM record (FeedCompart.h, generateCrc), and a bit-at-a-time
    reference for the reflected CRC-32 polynomial its table comes from. */
module FeedCrc {

  /** The reflected IEEE 802.3 CRC-32 polynomial. */
  const Poly: bv32 := 0xEDB8_8320

  /** The sixteen-entry table of generateCrc. */
  const CrcTable: seq<bv32> := [
    0x0000_0000, 0x1db7_1064, 0x3b6e_20c8, 0x26d9_30ac,
    0x76dc_4190, 0x6b6b_51f4, 0x4db2_6158, 0x5005_713c,
    0xedb8_8320, 0xf00f_9344, 0xd6d6_a3e8, 0xcb61_b38c,
    0x9b64_c2b0, 0x86d3_d2d4, 0xa00a_e278, 0xbdbd_f21c
  ]

  /** The value `crc` starts from: all ones (`~0L`). */
  const Seed: bv32 := 0xFFFF_FFFF

  /** A table index: the low four bits of a word. */
  type Nibble = k: bv32 | k < 16

  /** The table index of a step: `(crc ^ x) & 0x0f`. */
  function Index(crc: bv32, x: bv32): Nibble
  {
    (crc ^ x) & 0x0F
  }

  /** The table entry `crc_table[k]`. */
  function Entry(k: Nibble): bv32
  {
    CrcTable[k as int]
  }

  /** One table step: fold the low four bits of `x` into `crc`. */
  function NibbleStep(crc: bv32, x: bv32): bv32
  {
    Entry(Index(crc, x)) ^ (crc >> 4)
  }

  /** One iteration of the loop of generateCrc: the low nibble of the byte,
      then its high nibble, then the complement that the loop applies after
      every byte. */
  function ByteStep(crc: bv32, b: bv8): bv32
  {
    var c := NibbleStep(crc, b as bv32);
    !NibbleStep(c, (b >> 4) as bv32)
  }

  /** ByteStep spelled out as the loop body writes it. */
  lemma ByteStepIsTwoNibbles(crc: bv32, b: bv8)
    ensures !NibbleStep(NibbleStep(crc, b as bv32), (b >> 4) as bv32) == ByteStep(crc, b)
  {
  }

  /** A left fold of `step` over the bytes `e[lo..hi]`, starting from `seed`. */
  function Fold(step: (bv32, bv8) -> bv32, seed: bv32, e: seq<bv8>, lo: nat, hi: nat): bv32
    requires hi <= |e|
    decreases hi
  {
    if hi <= lo then seed else step(Fold(step, seed, e, lo, hi - 1), e[hi - 1])
  }

  /** A fold reads only the bytes inside its range, whatever its step. */
  lemma {:induction false} FoldReadsOnlyRange(step: (bv32, bv8) -> bv32, seed: bv32, e1: seq<bv8>, e2: seq<bv8>, lo: nat, hi: nat)
    requires hi <= |e1| && hi <= |e2|
    requires forall i :: lo <= i < hi ==> e1[i] == e2[i]
    ensures Fold(step, seed, e1, lo, hi) == Fold(step, seed, e2, lo, hi)
    decreases hi
  {
    if lo < hi {
      FoldReadsOnlyRange(step, seed, e1, e2, lo, hi - 1);
    }
  }

  /** The CRC of the bytes `e[lo..hi]` as the loop of generateCrc computes it:
      the seed when the range is empty, one ByteStep per byte otherwise. */
  function CrcOver(e: seq<bv8>, lo: nat, hi: nat): bv32
    requires hi <= |e|
  {
    Fold(ByteStep, Seed, e, lo, hi)
  }

  /** An empty range leaves the seed untouched. */
  lemma CrcOfEmptyRange(e: seq<bv8>, lo: nat, hi: nat)
    requires hi <= |e| && hi <= lo
    ensures CrcOver(e, lo, hi) == Seed
  {
  }

  /** The CRC reads only the bytes inside its range. */
  lemma CrcReadsOnlyRange(e1: seq<bv8>, e2: seq<bv8>, lo: nat, hi: nat)
    requires hi <= |e1| && hi <= |e2|
    requires forall i :: lo <= i < hi ==> e1[i] == e2[i]
    ensures CrcOver(e1, lo, hi) == CrcOver(e2, lo, hi)
  {
    FoldReadsOnlyRange(ByteStep, Seed, e1, e2, lo, hi);
  }

  /** The CRC of a range extended by one byte is one more ByteStep. */
  lemma CrcAppend(e: seq<bv8>, lo: nat, hi: nat)
    requires lo <= hi < |e|
    ensures CrcOver(e, lo, hi + 1) == ByteStep(CrcOver(e, lo, hi), e[hi])
  {
  }

  // ----- A bit-at-a-time reference -----

  /** One step of the reflected CRC-32 shift register. */
  function BitStep(c: bv32): bv32
  {
    if c & 1 == 1 then (c >> 1) ^ Poly else c >> 1
  }

  /** Four shift-register steps: what one table entry stands for. */
  function FourBits(c: bv32): bv32
  {
    BitStep(BitStep(BitStep(BitStep(c))))
  }

  /** Eight shift-register steps: one byte of the standard CRC-32. */
  function EightBits(c: bv32): bv32
  {
    FourBits(FourBits(c))
  }

  /** The standard CRC-32 of `bs` (seed all ones, one complement at the end),
      one bit at a time. */
  function StandardCrc32(bs: seq<bv8>): bv32
  {
    !Register(bs)
  }

  /** The shift register of the standard CRC-32 after `bs`, before the final
      complement. */
  function Register(bs: seq<bv8>): bv32
  {
    if bs == [] then Seed else EightBits(Register(bs[..|bs| - 1]) ^ (bs[|bs| - 1] as bv32))
  }

  /** Every entry of CrcTable is the polynomial's four-step reduction of its
      index: the table is the half-byte table of polynomial 0xEDB88320. */
  lemma TableIsNibbleTableOfPoly()
    ensures |CrcTable| == 16
    ensures forall n: bv32 :: n < 16 ==> CrcTable[n as int] == FourBits(n)
  {
  }

  /** On a single byte the loop agrees with the standard CRC-32: the byte
      0x00 gives 0xD202EF8D under both. */
  lemma OneByteMatchesStandard()
    ensures CrcOver([0x00], 0, 1) == StandardCrc32([0x00]) == 0xD202_EF8D
  {
  }

  /** Because the loop complements after every byte rather than once at the
      end, two bytes already give a value that is not the standard CRC-32:
      0x00 0x00 yields 0x6C24028D where CRC-32 is 0x41D912FF. */
  lemma TwoBytesDifferFromStandard()
    ensures CrcOver([0x00, 0x00], 0, 2) == 0x6C24_028D
    ensures StandardCrc32([0x00, 0x00]) == 0x41D9_12FF
  {
    var two: seq<bv8> := [0x00, 0x00];
    assert two[..1] == [0x00];
    assert Register([0x00]) == 0x2DFD_1072;
  }

  // ----- Error detection -----
  //
  // The lemmas below reason about a table step with an arbitrary lookup `t`
  // whose sixteen entries have distinct top nibbles; CrcTable is one.

  /** A table step with the lookup `t` in place of Entry. */
  function TableStep(t: Nibble -> bv32, crc: bv32, x: bv32): bv32
  {
    t(Index(crc, x)) ^ (crc >> 4)
  }

  /** Two table steps, with the nibbles `lo` and then `hi`, and the
      complement: a loop iteration of generateCrc with the lookup `t`. */
  function TwoSteps(t: Nibble -> bv32, crc: bv32, lo: bv32, hi: bv32): bv32
  {
    !TableStep(t, TableStep(t, crc, lo), hi)
  }

  lemma NibbleStepIsTableStep(crc: bv32, x: bv32)
    ensures NibbleStep(crc, x) == TableStep(Entry, crc, x)
  {
  }

  lemma TwoNibblesAreTwoSteps(crc: bv32, lo: bv32, hi: bv32)
    ensures !NibbleStep(NibbleStep(crc, lo), hi) == TwoSteps(Entry, crc, lo, hi)
  {
    NibbleStepIsTableStep(crc, lo);
    NibbleStepIsTableStep(NibbleStep(crc, lo), hi);
  }

  /** ByteStep as TwoSteps, with the byte's low and high nibbles `lo` and
      `hi`. */
  lemma ByteStepIsTwoSteps(crc: bv32, b: bv8, lo: bv32, hi: bv32)
    requires lo == b as bv32 && hi == (b >> 4) as bv32
    ensures ByteStep(crc, b) == TwoSteps(Entry, crc, lo, hi)
  {
    ByteStepIsTwoNibbles(crc, b);
    TwoNibblesAreTwoSteps(crc, lo, hi);
  }

  /** The top four bits of the entry `t(k)`. */
  function Top(t: Nibble -> bv32, k: Nibble): bv32
  {
    t(k) >> 28
  }

  /** No two of the sixteen entries of `t` share their top four bits. */
  ghost predicate TopsDistinct(t: Nibble -> bv32)
  {
    forall k1: Nibble, k2: Nibble :: Top(t, k1) == Top(t, k2) ==> k1 == k2
  }

  /** For each possible top nibble of an entry of CrcTable, the index of the
      one entry that has it. */
  const TopInverse: seq<bv32> := [0, 1, 3, 2, 6, 7, 5, 4, 13, 12, 14, 15, 11, 10, 8, 9]

  lemma TopInverseOfEntry(k: Nibble)
    ensures TopInverse[(Entry(k) >> 28) as int] == k
  {
    if k == 0 {} else if k == 1 {} else if k == 2 {} else if k == 3 {}
    else if k == 4 {} else if k == 5 {} else if k == 6 {} else if k == 7 {}
    else if k == 8 {} else if k == 9 {} else if k == 10 {} else if k == 11 {}
    else if k == 12 {} else if k == 13 {} else if k == 14 {} else {}
  }

  /** The sixteen entries of CrcTable differ in their top four bits. */
  lemma CrcTableTopsDistinct()
    ensures TopsDistinct(Entry)
  {
    forall k1: Nibble, k2: Nibble | Top(Entry, k1) == Top(Entry, k2)
      ensures k1 == k2
    {
      TopInverseOfEntry(k1);
      TopInverseOfEntry(k2);
    }
  }

  /** `crc >> 4` has clear top bits, so a table step's top nibble is that
      of its table entry. */
  lemma ShiftClearsTop(e: bv32, c: bv32)
    ensures (e ^ (c >> 4)) >> 28 == e >> 28
  {
  }

  lemma XorCancel(e: bv32, y1: bv32, y2: bv32)
    ensures e ^ y1 == e ^ y2 ==> y1 == y2
  {
  }

  lemma ComplementInjective(u: bv32, v: bv32)
    ensures !u == !v ==> u == v
  {
  }

  lemma TopOfShifted(a1: bv32, a2: bv32)
    ensures a1 >> 4 == a2 >> 4 ==> a1 >> 28 == a2 >> 28
  {
  }

  lemma WordFromParts(a1: bv32, a2: bv32, x: bv32)
    ensures Index(a1, x) == Index(a2, x) && a1 >> 4 == a2 >> 4 ==> a1 == a2
  {
  }

  /** A table step's top nibble is that of its table entry. */
  lemma StepTop(t: Nibble -> bv32, c: bv32, x: bv32)
    ensures TableStep(t, c, x) >> 28 == Top(t, Index(c, x))
  {
    ShiftClearsTop(t(Index(c, x)), c);
  }

  /** Two table steps with the same output used the same table index. */
  lemma StepSameIndex(t: Nibble -> bv32, a1: bv32, x1: bv32, a2: bv32, x2: bv32)
    ensures TopsDistinct(t) && TableStep(t, a1, x1) == TableStep(t, a2, x2) ==> Index(a1, x1) == Index(a2, x2)
  {
    StepTop(t, a1, x1);
    StepTop(t, a2, x2);
  }

  /** Two table steps with the same output started from registers that
      agree above their low four bits. */
  lemma StepSameHigh(t: Nibble -> bv32, a1: bv32, x1: bv32, a2: bv32, x2: bv32)
    ensures TopsDistinct(t) && TableStep(t, a1, x1) == TableStep(t, a2, x2) ==> a1 >> 4 == a2 >> 4
  {
    StepSameIndex(t, a1, x1, a2, x2);
    XorCancel(t(Index(a1, x1)), a1 >> 4, a2 >> 4);
  }

  /** For a fixed nibble, a table step loses nothing of the register. */
  lemma StepInjective(t: Nibble -> bv32, a1: bv32, a2: bv32, x: bv32)
    ensures TopsDistinct(t) && TableStep(t, a1, x) == TableStep(t, a2, x) ==> a1 == a2
  {
    StepSameIndex(t, a1, x, a2, x);
    StepSameHigh(t, a1, x, a2, x);
    WordFromParts(a1, a2, x);
  }

  /** For fixed nibbles, a loop iteration loses nothing of the register. */
  lemma TwoStepsInjectiveInRegister(t: Nibble -> bv32, c1: bv32, c2: bv32, lo: bv32, hi: bv32)
    ensures TopsDistinct(t) && TwoSteps(t, c1, lo, hi) == TwoSteps(t, c2, lo, hi) ==> c1 == c2
  {
    var n1, n2 := TableStep(t, c1, lo), TableStep(t, c2, lo);
    ComplementInjective(TableStep(t, n1, hi), TableStep(t, n2, hi));
    StepInjective(t, n1, n2, hi);
    StepInjective(t, c1, c2, lo);
  }

  /** Two loop iterations with the same result agree before the
      complement. */
  lemma TwoStepsInner(t: Nibble -> bv32, c1: bv32, lo1: bv32, hi1: bv32, c2: bv32, lo2: bv32, hi2: bv32)
    ensures TwoSteps(t, c1, lo1, hi1) == TwoSteps(t, c2, lo2, hi2)
        ==> TableStep(t, TableStep(t, c1, lo1), hi1) == TableStep(t, TableStep(t, c2, lo2), hi2)
  {
    ComplementInjective(TableStep(t, TableStep(t, c1, lo1), hi1), TableStep(t, TableStep(t, c2, lo2), hi2));
  }

  /** Two loop iterations with the same result agree, after their first
      step, above the low four bits. */
  lemma TwoStepsSameFirstHigh(t: Nibble -> bv32, c: bv32, lo1: bv32, hi1: bv32, lo2: bv32, hi2: bv32)
    ensures TopsDistinct(t) && TwoSteps(t, c, lo1, hi1) == TwoSteps(t, c, lo2, hi2)
        ==> TableStep(t, c, lo1) >> 4 == TableStep(t, c, lo2) >> 4
  {
    TwoStepsInner(t, c, lo1, hi1, c, lo2, hi2);
    StepSameHigh(t, TableStep(t, c, lo1), hi1, TableStep(t, c, lo2), hi2);
  }

  /** From one register, two loop iterations with the same result used the
      same index in their first step. */
  lemma TwoStepsSameFirstIndex(t: Nibble -> bv32, c: bv32, lo1: bv32, hi1: bv32, lo2: bv32, hi2: bv32)
    ensures TopsDistinct(t) && TwoSteps(t, c, lo1, hi1) == TwoSteps(t, c, lo2, hi2) ==> Index(c, lo1) == Index(c, lo2)
  {
    TwoStepsSameFirstHigh(t, c, lo1, hi1, lo2, hi2);
    TopOfShifted(TableStep(t, c, lo1), TableStep(t, c, lo2));
    StepTop(t, c, lo1);
    StepTop(t, c, lo2);
  }

  /** From one register, two loop iterations with the same result used the
      same index in their second step too. */
  lemma TwoStepsSameSecondIndex(t: Nibble -> bv32, c: bv32, lo1: bv32, hi1: bv32, lo2: bv32, hi2: bv32)
    ensures TopsDistinct(t) && TwoSteps(t, c, lo1, hi1) == TwoSteps(t, c, lo2, hi2)
        ==> Index(TableStep(t, c, lo1), hi1) == Index(TableStep(t, c, lo1), hi2)
  {
    var n1, n2 := TableStep(t, c, lo1), TableStep(t, c, lo2);
    TwoStepsSameFirstIndex(t, c, lo1, hi1, lo2, hi2);
    ComplementInjective(TableStep(t, n1, hi1), TableStep(t, n2, hi2));
    StepSameIndex(t, n1, hi1, n2, hi2);
  }

  /** The two table indices of a loop iteration, from a known register,
      give back the byte. */
  lemma NibblesDetermineByte(c: bv32, n: bv32, b1: bv8, lo1: bv32, hi1: bv32, b2: bv8, lo2: bv32, hi2: bv32)
    requires lo1 == b1 as bv32 && hi1 == (b1 >> 4) as bv32
    requires lo2 == b2 as bv32 && hi2 == (b2 >> 4) as bv32
    ensures Index(c, lo1) == Index(c, lo2) && Index(n, hi1) == Index(n, hi2) ==> b1 == b2
  {
  }

  /** A fold whose step loses nothing of the register or of the byte
      changes whenever exactly one byte of its range does. */
  lemma {:induction false} FoldDetectsOneByte(step: (bv32, bv8) -> bv32, seed: bv32, e1: seq<bv8>, e2: seq<bv8>, lo: nat, hi: nat, j: nat)
    requires forall c1, c2, b :: step(c1, b) == step(c2, b) ==> c1 == c2
    requires forall c, b1, b2 :: step(c, b1) == step(c, b2) ==> b1 == b2
    requires hi <= |e1| && hi <= |e2| && lo <= j < hi
    requires e1[j] != e2[j]
    requires forall i :: lo <= i < hi && i != j ==> e1[i] == e2[i]
    ensures Fold(step, seed, e1, lo, hi) != Fold(step, seed, e2, lo, hi)
    decreases hi
  {
    if j == hi - 1 {
      FoldReadsOnlyRange(step, seed, e1, e2, lo, hi - 1);
    } else {
      FoldDetectsOneByte(step, seed, e1, e2, lo, hi - 1, j);
    }
  }

  /** For a fixed byte, a loop iteration of generateCrc loses nothing of
      the register. */
  lemma ByteStepInjectiveInRegister(c1: bv32, c2: bv32, b: bv8)
    requires ByteStep(c1, b) == ByteStep(c2, b)
    ensures c1 == c2
  {
    var lo, hi := b as bv32, (b >> 4) as bv32;
    ByteStepIsTwoSteps(c1, b, lo, hi);
    ByteStepIsTwoSteps(c2, b, lo, hi);
    CrcTableTopsDistinct();
    TwoStepsInjectiveInRegister(Entry, c1, c2, lo, hi);
  }

  /** For a fixed register, a loop iteration of generateCrc loses nothing of
      the byte. */
  lemma ByteStepInjectiveInByte(c: bv32, b1: bv8, b2: bv8)
    requires ByteStep(c, b1) == ByteStep(c, b2)
    ensures b1 == b2
  {
    var lo1, hi1, lo2, hi2 := b1 as bv32, (b1 >> 4) as bv32, b2 as bv32, (b2 >> 4) as bv32;
    ByteStepIsTwoSteps(c, b1, lo1, hi1);
    ByteStepIsTwoSteps(c, b2, lo2, hi2);
    CrcTableTopsDistinct();
    TwoStepsSameFirstIndex(Entry, c, lo1, hi1, lo2, hi2);
    TwoStepsSameSecondIndex(Entry, c, lo1, hi1, lo2, hi2);
    NibblesDetermineByte(c, TableStep(Entry, c, lo1), b1, lo1, hi1, b2, lo2, hi2);
  }

  /** Changing one byte inside the range always changes the CRC. */
  lemma CrcDetectsOneByte(e1: seq<bv8>, e2: seq<bv8>, lo: nat, hi: nat, j: nat)
    requires hi <= |e1| && hi <= |e2| && lo <= j < hi
    requires e1[j] != e2[j]
    requires forall i :: lo <= i < hi && i != j ==> e1[i] == e2[i]
    ensures CrcOver(e1, lo, hi) != CrcOver(e2, lo, hi)
  {
    forall c1, c2, b | ByteStep(c1, b) == ByteStep(c2, b)
      ensures c1 == c2
    {
      ByteStepInjectiveInRegister(c1, c2, b);
    }
    forall c, b1, b2 | ByteStep(c, b1) == ByteStep(c, b2)
      ensures b1 == b2
    {
      ByteStepInjectiveInByte(c, b1, b2);
    }
    FoldDetectsOneByte(ByteStep, Seed, e1, e2, lo, hi, j);
  }
}

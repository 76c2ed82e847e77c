/** Byte-level helpers shared by the EEPROM records: the little-endian
    layout the AVR compiler gives to multi-byte fields, and the effect of
    copying a record into a range of the EEPROM. */
module Bytes {

  /** Bytes of a 32-bit unsigned field, least significant first. */
  function Le32(x: bv32): (b: seq<bv8>)
    ensures |b| == 4
  {
    [(x & 0xFF) as bv8, ((x >> 8) & 0xFF) as bv8,
     ((x >> 16) & 0xFF) as bv8, ((x >> 24) & 0xFF) as bv8]
  }

  /** The 32-bit unsigned value stored in four little-endian bytes. */
  function FromLe32(b: seq<bv8>): bv32
    requires |b| == 4
  {
    Word(b[0], b[1], b[2], b[3])
  }

  function Word(b0: bv8, b1: bv8, b2: bv8, b3: bv8): bv32
  {
    (b0 as bv32) | ((b1 as bv32) << 8) | ((b2 as bv32) << 16) | ((b3 as bv32) << 24)
  }

  lemma Le32RoundTrip(x: bv32)
    ensures FromLe32(Le32(x)) == x
  {
  }

  lemma FromLe32RoundTrip(b: seq<bv8>)
    requires |b| == 4
    ensures Le32(FromLe32(b)) == b
  {
    BytesOfWord(b[0], b[1], b[2], b[3]);
  }

  /** Each byte of a word assembled from four bytes is recovered by shifting and masking. */
  lemma BytesOfWord(b0: bv8, b1: bv8, b2: bv8, b3: bv8)
    ensures var x := Word(b0, b1, b2, b3);
      && (x & 0xFF) as bv8 == b0 && ((x >> 8) & 0xFF) as bv8 == b1
      && ((x >> 16) & 0xFF) as bv8 == b2 && ((x >> 24) & 0xFF) as bv8 == b3
  {
  }

  /** Range of a 16-bit two's-complement `int` on the AVR. */
  predicate IsInt16(v: int) { -0x8000 <= v < 0x8000 }

  /** The 16-bit `int` whose two's-complement bit pattern is `u`. */
  function Int16Of(u: bv16): (v: int)
    ensures IsInt16(v)
    ensures v == u as int || v == u as int - 0x1_0000
  {
    var n := u as int;
    if n < 0x8000 then n else n - 0x1_0000
  }

  /** Bytes of a 16-bit field, least significant first. */
  function Le16(u: bv16): (b: seq<bv8>)
    ensures |b| == 2
  {
    [(u & 0xFF) as bv8, (u >> 8) as bv8]
  }

  /** The 16-bit field stored in two little-endian bytes. */
  function FromLe16(b: seq<bv8>): bv16
    requires |b| == 2
  {
    HalfWord(b[0], b[1])
  }

  function HalfWord(b0: bv8, b1: bv8): bv16
  {
    (b0 as bv16) | ((b1 as bv16) << 8)
  }

  lemma Le16RoundTrip(u: bv16)
    ensures FromLe16(Le16(u)) == u
  {
  }

  lemma FromLe16RoundTrip(b: seq<bv8>)
    requires |b| == 2
    ensures Le16(FromLe16(b)) == b
  {
    BytesOfHalfWord(b[0], b[1]);
  }

  /** Each byte of a half-word assembled from two bytes is recovered by shifting and masking. */
  lemma BytesOfHalfWord(b0: bv8, b1: bv8)
    ensures var u := HalfWord(b0, b1); (u & 0xFF) as bv8 == b0 && (u >> 8) as bv8 == b1
  {
  }

  /** The EEPROM contents `e` after `rec` has been written at offset `loc`. */
  function Splice(e: seq<bv8>, loc: nat, rec: seq<bv8>): (r: seq<bv8>)
    requires loc + |rec| <= |e|
    ensures |r| == |e|
    ensures forall i :: 0 <= i < |e| && !(loc <= i < loc + |rec|) ==> r[i] == e[i]
    ensures forall i :: 0 <= i < |rec| ==> r[loc + i] == rec[i]
  {
    e[..loc] + rec + e[loc + |rec|..]
  }

  /** A sequence that agrees with `e` outside the written range and with
      `rec` inside it is the spliced image. */
  lemma SpliceByIndex(e: seq<bv8>, loc: nat, rec: seq<bv8>, r: seq<bv8>)
    requires loc + |rec| <= |e| && |r| == |e|
    requires forall j :: 0 <= j < |e| ==> r[j] == if loc <= j < loc + |rec| then rec[j - loc] else e[j]
    ensures r == Splice(e, loc, rec)
  {
    var sp := Splice(e, loc, rec);
    forall j | 0 <= j < |e|
      ensures r[j] == sp[j]
    {
      if loc <= j < loc + |rec| {
        assert sp[loc + (j - loc)] == rec[j - loc];
      }
    }
  }
}

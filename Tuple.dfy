// Level pairs and triples, and the hash functions the uncovered-tuple sets
// are keyed by.

module Tuple {
  import opened CommonDef

  /** T2_TUPLE: an ordered pair of levels; equality is componentwise. */
  datatype T2 = T2(a: LevelT, b: LevelT)

  /** T3_TUPLE: an ordered triple of levels; equality is componentwise. */
  datatype T3 = T3(a: LevelT, b: LevelT, c: LevelT)

  const TWO_POW_16: int := 0x1_0000
  const TWO_POW_31: int := 0x8000_0000
  const TWO_POW_32: int := 0x1_0000_0000
  const TWO_POW_64: int := 0x1_0000_0000_0000_0000

  /** T2_TUPLE_HASH: (a << 16) | b. The shift is done on a (32-bit, signed)
      int, so for a >= 2^15 the result lands on the sign bit and reads as
      negative; the conversion to a 64-bit size_t then sign-extends it.
      The low 16 bits of a << 16 are zero, so "| b" adds b. */
  function T2Hash(t: T2): (h: int)
    ensures 0 <= h < TWO_POW_64
  {
    var shifted := t.a * TWO_POW_16;
    var signed := if shifted >= TWO_POW_31 then shifted - TWO_POW_32 else shifted;
    (signed + t.b) % TWO_POW_64
  }

  /** For a below 2^15 the hash is the plain 32-bit packing of a and b;
      from 2^15 on it carries the sign extension into the upper word. */
  lemma T2HashValue(t: T2)
    ensures t.a < 0x8000 ==> T2Hash(t) == t.a * TWO_POW_16 + t.b
    ensures t.a >= 0x8000 ==> T2Hash(t) == t.a * TWO_POW_16 + t.b + (TWO_POW_64 - TWO_POW_32)
  {
  }

  /** Distinct pairs hash differently. */
  lemma T2HashInjective(s: T2, t: T2)
    requires T2Hash(s) == T2Hash(t)
    ensures s == t
  {
    T2HashValue(s);
    T2HashValue(t);
  }

  /** T3_TUPLE_HASH: (c << 16) ^ (b << 8) ^ a, on 64-bit size_t. */
  function T3Hash(t: T3): bv64
  {
    ((t.c as bv64) << 16) ^ ((t.b as bv64) << 8) ^ (t.a as bv64)
  }

  /** The T3 hash stays below 2^32 for 16-bit levels. */
  lemma T3HashBound(t: T3)
    ensures T3Hash(t) < 0x1_0000_0000
  {
    var a, b, c := t.a as bv64, t.b as bv64, t.c as bv64;
    assert a < 0x1_0000 && b < 0x1_0000 && c < 0x1_0000;
    BitsBound(a, b, c);
  }

  lemma BitsBound(a: bv64, b: bv64, c: bv64)
    requires a < 0x1_0000 && b < 0x1_0000 && c < 0x1_0000
    ensures (c << 16) ^ (b << 8) ^ a < 0x1_0000_0000
  {
  }

  /** The T3 hash is not injective: (256, 0, 0) and (0, 1, 0) collide, so
      the sets keyed by it rest on tuple equality, not on the hash. */
  lemma T3HashCollides()
    ensures T3(256, 0, 0) != T3(0, 1, 0)
    ensures T3Hash(T3(256, 0, 0)) == T3Hash(T3(0, 1, 0)) == 256
  {
  }
}

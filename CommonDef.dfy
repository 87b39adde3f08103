// Common type definitions: 16-bit level and factor values and their
// "invalid" sentinels.

module CommonDef {

  /** An unsigned 16-bit value (the source's WORD). */
  type Word = x: int | 0 <= x < 0x1_0000

  /** Level and factor values are both 16-bit unsigned. */
  type LevelT = Word
  type FactorT = Word

  /** The largest 16-bit value. */
  const WORD_MAX: Word := 0xFFFF

  /** The sentinel meaning "no level": the maximum of the level type. */
  const LEVEL_INVALID: LevelT := WORD_MAX

  /** The sentinel meaning "no factor": the maximum of the factor type. */
  const FACTOR_INVALID: FactorT := WORD_MAX

  /** A level is valid exactly when it is not the sentinel. */
  predicate IsValidLevel(level: LevelT)
  {
    level != LEVEL_INVALID
  }

  /** A factor is valid exactly when it is not the sentinel. */
  predicate IsValidFactor(factor: FactorT)
  {
    factor != FACTOR_INVALID
  }

  /** Both sentinels are the maximum of their type, so every other value of
      the type is a valid level (resp. factor). */
  lemma SentinelsAreTypeMaximum(v: Word)
    ensures v <= LEVEL_INVALID && v <= FACTOR_INVALID
    ensures IsValidLevel(v) <==> v < LEVEL_INVALID
    ensures IsValidFactor(v) <==> v < FACTOR_INVALID
    ensures LEVEL_INVALID == FACTOR_INVALID == 65535
  {
  }
}

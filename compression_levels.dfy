/** How addEntry coerces the requested compression level before it asks the
    library for a new entry: deflate accepts only zlib's four named levels,
    bzip2 clamps into 1..9. Invalid levels are replaced, never rejected. */
module CompressionLevels {

  // zlib's named compression levels
  const Z_NO_COMPRESSION: int := 0
  const Z_BEST_SPEED: int := 1
  const Z_BEST_COMPRESSION: int := 9
  const Z_DEFAULT_COMPRESSION: int := -1

  // bounds of a bzip2 block-size level
  const BZIP2_MIN_LEVEL: int := 1
  const BZIP2_MAX_LEVEL: int := 9

  /** One of the four levels the deflate branch passes through unchanged. */
  predicate IsNamedDeflateLevel(level: int) {
    level == Z_NO_COMPRESSION || level == Z_BEST_SPEED ||
    level == Z_BEST_COMPRESSION || level == Z_DEFAULT_COMPRESSION
  }

  /** The level handed to the library for a deflate entry. */
  function DeflateLevel(compressionLevel: int): (r: int)
    ensures IsNamedDeflateLevel(r)
    ensures IsNamedDeflateLevel(compressionLevel) ==> r == compressionLevel
    ensures !IsNamedDeflateLevel(compressionLevel) ==> r == Z_DEFAULT_COMPRESSION
  {
    if compressionLevel != Z_NO_COMPRESSION &&
       compressionLevel != Z_BEST_SPEED &&
       compressionLevel != Z_BEST_COMPRESSION &&
       compressionLevel != Z_DEFAULT_COMPRESSION
    then Z_DEFAULT_COMPRESSION
    else compressionLevel
  }

  /** The level handed to the library for a bzip2 entry: first capped at 9,
      then raised to 1. */
  function Bzip2Level(compressionLevel: int): (r: int)
    ensures BZIP2_MIN_LEVEL <= r <= BZIP2_MAX_LEVEL
    ensures BZIP2_MIN_LEVEL <= compressionLevel <= BZIP2_MAX_LEVEL ==> r == compressionLevel
    ensures compressionLevel > BZIP2_MAX_LEVEL ==> r == BZIP2_MAX_LEVEL
    ensures compressionLevel < BZIP2_MIN_LEVEL ==> r == BZIP2_MIN_LEVEL
  {
    var capped := if compressionLevel > BZIP2_MAX_LEVEL then BZIP2_MAX_LEVEL else compressionLevel;
    if capped < BZIP2_MIN_LEVEL then BZIP2_MIN_LEVEL else capped
  }

  function Min(a: int, b: int): int { if a <= b then a else b }
  function Max(a: int, b: int): int { if a >= b then a else b }

  /** The two sequential tests of the bzip2 branch amount to max(1, min(9, level)). */
  lemma Bzip2LevelIsClamp(compressionLevel: int)
    ensures Bzip2Level(compressionLevel) == Max(BZIP2_MIN_LEVEL, Min(BZIP2_MAX_LEVEL, compressionLevel))
  {
  }

  /** The intermediate deflate levels 2..8 are not kept: they become the default. */
  lemma DeflateDropsIntermediateLevels(compressionLevel: int)
    requires 2 <= compressionLevel <= 8
    ensures DeflateLevel(compressionLevel) == Z_DEFAULT_COMPRESSION
  {
  }

  /** Coercing a coerced deflate level changes nothing. */
  lemma DeflateLevelIdempotent(compressionLevel: int)
    ensures DeflateLevel(DeflateLevel(compressionLevel)) == DeflateLevel(compressionLevel)
  {
  }

  /** Coercing a coerced bzip2 level changes nothing. */
  lemma Bzip2LevelIdempotent(compressionLevel: int)
    ensures Bzip2Level(Bzip2Level(compressionLevel)) == Bzip2Level(compressionLevel)
  {
  }
}

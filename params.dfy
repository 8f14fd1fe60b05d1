/** The codec's configuration record, its derived constants and the default
    configuration. */
module Lz77Params {
  import opened Bitwise

  /** The user-tunable configuration (`LZ77Params`). */
  datatype Params = Params(
    greedy: int,          // `codicia`: 0 selects the lazy parse, anything else the greedy parse
    maxComparisons: int,  // `max_comparaciones`: chain links followed per match search
    charBits: int,        // `bits_caracter`: width of a literal field
    threshold: int,       // `umbral`: matches of at most this length are sent as literals
    lengthBits: int,      // `bits_coincidencia`: width of a match-length field
    dictBits: int,        // `bits_diccionario`: window address width (also the distance field width)
    hashBits: int,        // `bits_hash`: hash-table address width
    sectorBits: int       // `bit_sector`: sector address width
  )

  /** The constants computed once per configuration (`DerivedParams`). */
  datatype Derived = Derived(
    maxMatch: nat,    // `max_coincidencia`
    dictSize: nat,    // `tam_diccionario`
    hashSize: nat,    // `tam_hash`
    hashShift: nat,   // `bits_desplazamiento`
    sectorSize: nat,  // `tam_sector`
    sectorMask: nat   // `mascara_sector`
  )

  /** The field ranges under which `calculate_derived_params` is defined: every shift
      amount is non-negative and the window bits below the 16 bits of `0xFFFF`. */
  predicate Derivable(p: Params) {
    0 <= p.lengthBits <= 16 && 0 <= p.threshold && 0 <= p.dictBits <= 15 &&
    0 <= p.hashBits <= 16 && 0 <= p.sectorBits <= 15
  }

  /** `calculate_derived_params`; the sector mask keeps exactly the bits above
      a sector offset. */
  function Derive(p: Params): (d: Derived)
    requires Derivable(p)
    ensures d.sectorMask == 0x10000 - d.sectorSize
  {
    SectorMaskValue(p.sectorBits);
    Derived(
      Pow2(p.lengthBits) + p.threshold - 1,
      Pow2(p.dictBits),
      Pow2(p.hashBits),
      (p.hashBits + p.threshold) / (p.threshold + 1),
      Pow2(p.sectorBits),
      BitAnd(0xFFFF * Pow2(p.sectorBits), 0xFFFF))
  }

  /** The conditions the codec relies on without checking them:
      - every field width is at most 16, since the read mask table has 17 entries;
      - the window bits are at most 15, so no window position equals the 0xFFFF
        "no entry" marker;
      - the hash width is at least the literal width, so the rolling hash stays a
        valid bucket index;
      - a sector is at most the window, so the window cursor hits the window size exactly;
      - the longest match fits in the window, for the mirror copy;
      - the threshold is at least 1 and at least one comparison is made per search. */
  predicate Valid(p: Params) {
    Derivable(p) &&
    1 <= p.charBits <= 16 && 1 <= p.lengthBits && 1 <= p.threshold &&
    1 <= p.dictBits && p.charBits <= p.hashBits &&
    p.sectorBits <= p.dictBits &&
    Pow2(p.lengthBits) + p.threshold - 1 <= Pow2(p.dictBits) &&
    p.maxComparisons >= 1
  }

  /** The buffer sizes the caller allocates for configuration p, with derived
      constants d: the window plus room for a match running off its end, one
      head per bucket and one link per window slot. */
  predicate Allocated(p: Params, d: Derived, dictLen: nat, hashLen: nat, linksLen: nat) {
    Valid(p) && d == Derive(p) &&
    dictLen == d.dictSize + d.maxMatch && hashLen == d.hashSize && linksLen == d.dictSize
  }

  /** `default_params`. */
  const DefaultParams := Params(0, 75, 8, 2, 4, 13, 10, 10)

  /** The sector mask `(0xFFFF << s) & 0xFFFF` keeps bits s..15: it is 2^16 - 2^s. */
  lemma SectorMaskValue(s: nat)
    requires s <= 16
    ensures BitAnd(0xFFFF * Pow2(s), 0xFFFF) == 0x10000 - Pow2(s)
  {
    var m := Pow2(s);
    var x := 0xFFFF * m;
    Pow2Table();
    AndLowMask(x, 16);
    Pow2Monotone(s, 16);
    assert x == 0x10000 * (m - 1) + (0x10000 - m);
    DivModUnique(x, 0x10000, m - 1, 0x10000 - m);
  }

  /** What a valid configuration guarantees about its derived constants. */
  lemma DerivedFacts(p: Params)
    requires Valid(p)
    ensures var d := Derive(p);
      p.threshold < d.maxMatch <= d.dictSize <= 0x8000 &&
      d.sectorSize <= d.dictSize && d.dictSize % d.sectorSize == 0 &&
      d.sectorMask == 0x10000 - d.sectorSize &&
      Pow2(p.charBits) <= d.hashSize <= 0x10000
  {
    var d := Derive(p);
    SectorMaskValue(p.sectorBits);
    Pow2Table();
    Pow2Monotone(1, p.lengthBits);
    Pow2Monotone(p.dictBits, 15);
    Pow2Monotone(p.sectorBits, p.dictBits);
    Pow2Add(p.sectorBits, p.dictBits - p.sectorBits);
    DivModUnique(d.dictSize, d.sectorSize, Pow2(p.dictBits - p.sectorBits), 0);
    Pow2Monotone(p.charBits, p.hashBits);
    Pow2Monotone(p.hashBits, 16);
  }

  /** A window slot never equals 0xFFFF: the window has at most 2^15 slots. */
  lemma WindowBound(p: Params)
    requires Valid(p)
    ensures Derive(p).dictSize <= 0x8000
  {
    Pow2Monotone(p.dictBits, 15);
    Pow2Table();
  }

  /** The default configuration is valid and derives the documented constants. */
  lemma DefaultDerived()
    ensures Valid(DefaultParams)
    ensures Derive(DefaultParams) == Derived(17, 8192, 1024, 4, 1024, 0xFC00)
  {
    Pow2Table();
    SectorMaskValue(10);
  }
}

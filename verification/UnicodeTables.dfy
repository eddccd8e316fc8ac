/** The generated property tables, as functions, and the lookups that qchar.cpp makes in them. */
module UnicodeTables {
  import opened Units

  const HANGUL_S_BASE: Unit := 0xac00
  const HANGUL_L_BASE: Unit := 0x1100
  const HANGUL_V_BASE: Unit := 0x1161
  const HANGUL_T_BASE: Unit := 0x11a7
  const HANGUL_S_COUNT := 11172
  const HANGUL_L_COUNT := 19
  const HANGUL_V_COUNT := 21
  const HANGUL_T_COUNT := 28
  const HANGUL_N_COUNT := 21 * 28

  const LAST_UNICODE_CHAR := 0x10_ffff

  /** The decomposition tag of canonical mappings; every other tag is a compatibility tag. */
  const CANONICAL: nat := 1

  datatype Mapping = Mapping(tag: nat, units: seq<Unit>)

  /**
   * `combining` and `version` are columns of the property table, `mapping` is the decomposition
   * map and `pair` the ligature map, which yields 0 for two units that do not combine.
   */
  datatype UnicodeData = UnicodeData(
    combining: int -> nat,
    version: int -> nat,
    mapping: int -> Option<Mapping>,
    pair: (int, int) -> Unit)
  {
    /** The combining class, where characters newer than `version` count as starters. */
    function Class(version: nat, u: int): nat {
      if this.version(u) > version then 0 else combining(u)
    }

    function Classes(version: nat): int -> nat {
      (u: int) => Class(version, u)
    }

    /** Hangul syllables decompose by arithmetic, everything else by table. */
    function DecompositionHelper(ucs4: int): Option<Mapping> {
      if ucs4 > LAST_UNICODE_CHAR then None
      else if IsSyllable(ucs4) then Some(Mapping(CANONICAL, Jamo(ucs4)))
      else mapping(ucs4)
    }

    /** What replaces a code point during decomposition, if anything does. */
    function ReplacementOf(ucs4: int, canonical: bool, version: nat): Option<seq<Unit>> {
      if this.version(ucs4) > version then None
      else
        match DecompositionHelper(ucs4)
        case None => None
        case Some(m) => if canonical && m.tag != CANONICAL then None else Some(m.units)
    }

    function Replacement(canonical: bool, version: nat): int -> Option<seq<Unit>> {
      (ucs4: int) => ReplacementOf(ucs4, canonical, version)
    }

    /** The unit that `u1` and `u2` combine to, or 0. */
    function LigatureHelper(u1: Unit, u2: Unit): Unit {
      if IsLeading(u1) && IsVowel(u2) then
        HANGUL_S_BASE + ((u1 - HANGUL_L_BASE) * HANGUL_V_COUNT + (u2 - HANGUL_V_BASE)) * HANGUL_T_COUNT
      else if IsOpenSyllable(u1) && 0 <= u2 - HANGUL_T_BASE <= HANGUL_T_COUNT then
        u1 + (u2 - HANGUL_T_BASE)
      else if u2 < 0x3100 then pair(u1, u2)
      else 0
    }

    /** The same for code points; a supplementary one does not combine. */
    function Ligature(c1: int, c2: int): Unit {
      if 0 <= c1 < 0x1_0000 && 0 <= c2 < 0x1_0000 then LigatureHelper(c1, c2) else 0
    }
  }

  predicate IsLeading(u: int) {
    HANGUL_L_BASE <= u < HANGUL_L_BASE + HANGUL_L_COUNT
  }

  predicate IsVowel(u: int) {
    HANGUL_V_BASE <= u < HANGUL_V_BASE + HANGUL_V_COUNT
  }

  /** A trailing consonant proper: the base itself, U+11A7, is not one, nor is U+11C3. */
  predicate IsTrailing(u: int) {
    HANGUL_T_BASE < u < HANGUL_T_BASE + HANGUL_T_COUNT
  }

  predicate IsSyllable(u: int) {
    HANGUL_S_BASE <= u < HANGUL_S_BASE + HANGUL_S_COUNT
  }

  /** A syllable without a trailing consonant. */
  predicate IsOpenSyllable(u: int) {
    IsSyllable(u) && (u - HANGUL_S_BASE) % HANGUL_T_COUNT == 0
  }

  /** The leading consonant, vowel and, unless the syllable is open, trailing consonant. */
  function Jamo(syllable: int): (jamo: seq<Unit>)
    requires IsSyllable(syllable)
    ensures |jamo| == if IsOpenSyllable(syllable) then 2 else 3
    ensures IsLeading(jamo[0]) && IsVowel(jamo[1]) && (|jamo| == 3 ==> IsTrailing(jamo[2]))
  {
    var index := syllable - HANGUL_S_BASE;
    var l := HANGUL_L_BASE + index / HANGUL_N_COUNT;
    var v := HANGUL_V_BASE + index % HANGUL_N_COUNT / HANGUL_T_COUNT;
    var t := HANGUL_T_BASE + index % HANGUL_T_COUNT;
    if t == HANGUL_T_BASE then [l, v] else [l, v, t]
  }
}

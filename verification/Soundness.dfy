/**
 * What the tables must satisfy for composition to be undone, and how ligatures decompose under
 * that condition.
 */
module Soundness {
  import opened Units
  import opened UnicodeTables
  import opened Utf16Text
  import opened CanonicalOrderLoop
  import opened Decompose
  import opened Compose

  /** The tables, the settings of one normalization call, and a measure on decompositions. */
  datatype Setting = Setting(data: UnicodeData, canonical: bool, version: nat, rank: int -> nat) {

    function Rep(): Replacements {
      data.Replacement(canonical, version)
    }

    function Cls(): int -> nat {
      data.Classes(version)
    }

    /** The full decomposition of one code point, and of several. */
    ghost function Full(c: int): seq<int>
      requires WellFounded(Rep(), rank)
    {
      Expand(c, Rep(), rank).points
    }

    ghost function Dec(cs: seq<int>): seq<int>
      requires WellFounded(Rep(), rank)
    {
      ExpandAll(cs, Rep(), rank).points
    }

    predicate Knows(c: int) {
      data.version(c) <= version
    }

    /** What the tables must satisfy. */
    ghost predicate Sound() {
      && WellFounded(Rep(), rank) && WellFormed(Rep()) && Tidy(Rep()) && NoneEmpty(Rep())
      && SurrogatesArePlain(data) && SoundHangul(data) && ComposingTables(data) && PairsDecompose(data)
    }

    /** The version knows the parts of every table ligature that it knows. */
    ghost predicate KnowsParts() {
      forall a: Unit, b: Unit :: data.pair(a, b) != 0 && Knows(data.pair(a, b)) ==> Knows(a) && Knows(b)
    }
  }

  /** Surrogates without their partners are neither marks nor decomposed. */
  ghost predicate SurrogatesArePlain(data: UnicodeData) {
    SurrogatesAreStarters(data) && forall u :: IsHigh(u) || IsLow(u) ==> data.mapping(u).None?
  }

  /** A table ligature is canonically decomposed to the two units that combine to it. */
  ghost predicate PairsDecompose(data: UnicodeData) {
    forall a: Unit, b: Unit :: data.pair(a, b) != 0 ==>
      data.DecompositionHelper(data.pair(a, b)) == Some(Mapping(CANONICAL, [a, b]))
  }

  /**
   * Jamo and syllables are starters, jamo do not decompose, all syllables came with one version, and
   * no table ligature ends in a leading consonant.
   */
  ghost predicate SoundHangul(data: UnicodeData) {
    && (forall u :: 0x1100 <= u < 0x1200 ==> data.combining(u) == 0 && data.mapping(u).None?)
    && (forall u :: HANGUL_S_BASE <= u <= HANGUL_S_BASE + HANGUL_S_COUNT ==> data.combining(u) == 0)
    && data.mapping(HANGUL_S_BASE + HANGUL_S_COUNT).None?
    && (forall u :: IsSyllable(u) ==> data.version(u) == data.version(HANGUL_S_BASE))
    && (forall a: Unit, u: Unit :: IsLeading(u) ==> data.pair(a, u) == 0)
  }

  // ---------- Hangul ----------

  lemma JamoOfLV(l: int, v: int)
    requires IsLeading(l) && IsVowel(v)
    ensures var s := HANGUL_S_BASE + ((l - HANGUL_L_BASE) * HANGUL_V_COUNT + (v - HANGUL_V_BASE)) * HANGUL_T_COUNT;
      IsOpenSyllable(s) && Jamo(s) == [l, v]
  {}

  lemma JamoOfLVT(s: int, t: int)
    requires IsOpenSyllable(s) && IsTrailing(t)
    ensures var s' := s + (t - HANGUL_T_BASE); IsSyllable(s') && Jamo(s') == Jamo(s) + [t]
  {
    IndexOfLVT(s - HANGUL_S_BASE, t - HANGUL_T_BASE);
  }

  lemma IndexOfLVT(index: nat, k: nat)
    requires index < HANGUL_S_COUNT && index % HANGUL_T_COUNT == 0 && k < HANGUL_T_COUNT
    ensures index + k < HANGUL_S_COUNT && (index + k) / HANGUL_N_COUNT == index / HANGUL_N_COUNT
    ensures (index + k) % HANGUL_N_COUNT / HANGUL_T_COUNT == index % HANGUL_N_COUNT / HANGUL_T_COUNT
    ensures (index + k) % HANGUL_T_COUNT == k
  {
    var l, v := index / HANGUL_N_COUNT, index % HANGUL_N_COUNT / HANGUL_T_COUNT;
    assert index == HANGUL_N_COUNT * l + HANGUL_T_COUNT * v && v <= 20;
  }

  /** The two units behind an open syllable that the loop wrongly takes for trailing consonants. */
  predicate IsStray(u: int) {
    u == HANGUL_T_BASE || u == HANGUL_T_BASE + HANGUL_T_COUNT
  }

  lemma FullOfPlain(x: Setting, u: int)
    requires WellFounded(x.Rep(), x.rank) && x.Rep()(u).None?
    ensures x.Full(u) == [u] && x.Dec([u]) == [u]
  {
    ExpandFull(u, x.Rep(), x.rank);
  }

  lemma JamoArePlain(x: Setting, u: int)
    requires x.Sound() && 0x1100 <= u < 0x1200
    ensures x.Rep()(u).None? && x.Full(u) == [u]
  {
    FullOfPlain(x, u);
  }

  lemma FullOfSyllable(x: Setting, s: int)
    requires x.Sound() && IsSyllable(s) && x.Knows(s)
    ensures x.Rep()(s) == Some(Jamo(s)) && x.Full(s) == Jamo(s)
  {
    var jamo := Jamo(s);
    assert x.Rep()(s) == Some(jamo);
    forall i | 0 <= i < |jamo|
      ensures x.Rep()(jamo[i]).None?
    {
      JamoArePlain(x, jamo[i]);
    }
    CodePointsOfUnits(jamo);
    FullyDecomposedStays(jamo, x.Rep(), x.rank);
  }

  /** A ligature that the version knows is replaced by the two units it was made of, or by jamo. */
  lemma LigatureReplaced(x: Setting, a: int, b: int)
    requires x.Sound() && x.data.Ligature(a, b) != 0 && x.Rep()(x.data.Ligature(a, b)).Some?
    ensures var c := x.data.Ligature(a, b);
      if IsSyllable(c) then x.Rep()(c) == Some(Jamo(c)) && x.Knows(c) else x.Rep()(c) == Some([a, b]) && x.Knows(c)
    ensures !IsSyllable(x.data.Ligature(a, b)) ==> x.data.pair(a, b) == x.data.Ligature(a, b)
  {
    var c := x.data.Ligature(a, b);
    if IsLeading(a) && IsVowel(b) {
      JamoOfLV(a, b);
    } else if !(IsOpenSyllable(a) && 0 <= b - HANGUL_T_BASE <= HANGUL_T_COUNT) {
      assert x.data.pair(a, b) == c;
    }
  }

  /** Apart from the stray case, a ligature that the version knows decomposes to its parts. */
  lemma LigatureDecomposes(x: Setting, a: int, b: int)
    requires x.Sound() && x.data.Ligature(a, b) != 0 && !(IsOpenSyllable(a) && IsStray(b))
    requires x.Rep()(x.data.Ligature(a, b)).Some?
    ensures x.Full(x.data.Ligature(a, b)) == x.Full(a) + x.Full(b)
  {
    var c := x.data.Ligature(a, b);
    LigatureReplaced(x, a, b);
    if IsLeading(a) && IsVowel(b) {
      JamoOfLV(a, b);
      FullOfSyllable(x, c);
      JamoArePlain(x, a);
      JamoArePlain(x, b);
    } else if IsOpenSyllable(a) && IsTrailing(b) {
      JamoOfLVT(a, b);
      FullOfSyllable(x, c);
      FullOfSyllable(x, a);
      JamoArePlain(x, b);
    } else {
      PairDecomposes(x, a, b);
    }
  }

  lemma PairDecomposes(x: Setting, a: int, b: int)
    requires x.Sound() && 0 <= a < 0x1_0000 && 0 <= b < 0x1_0000 && x.data.pair(a, b) != 0
    requires x.Rep()(x.data.pair(a, b)).Some?
    ensures x.Full(x.data.pair(a, b)) == x.Full(a) + x.Full(b)
  {
    var d: seq<Unit> := [a, b];
    assert x.Rep()(x.data.pair(a, b)) == Some(d);
    PairIsPoints(a, b, x.data);
    assert CodePoints(d) == [a] + [b];
    ExpandAllConcat([a], [b], x.Rep(), x.rank);
    ExpandOne(a, x.Rep(), x.rank);
    ExpandOne(b, x.Rep(), x.rank);
  }

  lemma PairIsPoints(a: Unit, b: Unit, data: UnicodeData)
    requires ComposingTables(data) && data.pair(a, b) != 0
    ensures CodePoints([a, b]) == [a, b]
  {
    UnitsAreCodePoints([a, b]);
  }

  /** In the stray case the decomposition comes out too short. */
  lemma StrayLigatureLoses(x: Setting, a: int, b: int)
    requires x.Sound() && IsOpenSyllable(a) && IsStray(b) && x.Knows(a)
    ensures x.data.Ligature(a, b) != 0
    ensures |Text(x.Full(x.data.Ligature(a, b)))| <= 2 == |Text(x.Full(a))|
  {
    StrayLigature(x.data, a, b);
    FullOfSyllable(x, a);
    TextOfUnits(Jamo(a));
    if IsSyllable(x.data.Ligature(a, b)) {
      FullOfSyllable(x, x.data.Ligature(a, b));
      TextOfUnits(Jamo(x.data.Ligature(a, b)));
    } else {
      FullOfPlain(x, x.data.Ligature(a, b));
      TextOfOne(x.data.Ligature(a, b));
    }
  }

  lemma StrayLigature(data: UnicodeData, a: int, b: int)
    requires IsOpenSyllable(a) && IsStray(b)
    ensures var c := data.Ligature(a, b); c != 0 && (IsOpenSyllable(c) || c == HANGUL_S_BASE + HANGUL_S_COUNT)
  {}

  lemma FullIsNotEmpty(x: Setting, c: int)
    requires x.Sound() && IsScalar(c)
    ensures |Text(x.Full(c))| >= 1
  {
    ExpandIsNotEmpty(c, x.Rep(), x.rank);
    ExpandIsWellFormed(c, x.Rep(), x.rank);
    FirstOfText(x.Full(c));
  }

  /** A ligature that the version does not know is not decomposed. */
  lemma NewerLigatureLoses(x: Setting, a: int, b: int)
    requires x.Sound() && x.data.Ligature(a, b) != 0 && x.Rep()(x.data.Ligature(a, b)).None?
    ensures |Text(x.Full(x.data.Ligature(a, b)))| == 1 <= |Text(x.Full(a))|
  {
    FullOfPlain(x, x.data.Ligature(a, b));
    TextOfOne(x.data.Ligature(a, b));
    LigatureIsScalar(a, b, x.data);
    FullIsNotEmpty(x, a);
  }
}

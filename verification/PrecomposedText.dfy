/**
 * Composition makes the ligatures of the table: which code points combine, to what, and which
 * precomposed text comes back when its recursive decomposition is composed.
 */
module PrecomposedText {
  import opened Units
  import opened UnicodeTables
  import opened Utf16Text
  import opened Decompose
  import opened Compose
  import opened Soundness
  import opened Recomposition
  import opened HangulText

  // ---------- What combines ----------

  /** Two jamo, or an open syllable and one of the units that the loop takes for trailing consonants. */
  predicate CombinesByArithmetic(a: int, b: int) {
    || (0x1100 <= a <= 0x1112 && 0x1161 <= b <= 0x1175)
    || (0xac00 <= a <= 0xd7a3 && (a - 0xac00) % 28 == 0 && 0x11a7 <= b <= 0x11c3)
  }

  /** No table ligature lies beyond the last block that the loop looks in, or where the arithmetic comes first. */
  ghost predicate PairsAreReached(data: UnicodeData) {
    forall a: Unit, b: Unit :: data.pair(a, b) != 0 ==> b < 0x3100 && !CombinesByArithmetic(a, b)
  }

  /** What combines is what the arithmetic or the table combines, and to what they say. */
  lemma LigatureExactly(data: UnicodeData, a: Unit, b: Unit)
    requires PairsAreReached(data)
    ensures data.Ligature(a, b) != 0 <==> CombinesByArithmetic(a, b) || data.pair(a, b) != 0
    ensures !CombinesByArithmetic(a, b) ==> data.Ligature(a, b) == data.pair(a, b)
    ensures CombinesByArithmetic(a, b) ==>
      data.Ligature(a, b) == if a < 0x1200 then 0xac00 + ((a - 0x1100) * 21 + (b - 0x1161)) * 28 else a + (b - 0x11a7)
  {}

  /** The parts of a syllable, by the formula of section 3.12 of the Unicode Standard. */
  lemma SyllableExactly(s: int)
    requires 0xac00 <= s <= 0xd7a3
    ensures var jamo := Jamo(s);
      && 0x1100 <= jamo[0] <= 0x1112 && 0x1161 <= jamo[1] <= 0x1175
      && (|jamo| == 3 ==> 0x11a8 <= jamo[2] <= 0x11c2)
      && s == 0xac00 + ((jamo[0] - 0x1100) * 21 + (jamo[1] - 0x1161)) * 28
              + (if |jamo| == 3 then jamo[2] - 0x11a7 else 0)
  {
    TrailingIndex(s - 0xac00);
  }

  /** The example of that section. */
  lemma SyllableExample()
    ensures Jamo(0xd4db) == [0x1111, 0x1171, 0x11b6]
  {}

  /** Two basic code points that the table combines are composed to its ligature. */
  lemma PairIsComposed(data: UnicodeData, a: Unit, b: Unit)
    requires ComposingTables(data) && PairsAreReached(data) && data.pair(a, b) != 0
    ensures Composed([a, b], data) == [data.pair(a, b)]
  {
    var c := data.pair(a, b);
    LigatureExactly(data, a, b);
    TwoRunToOne(data, a, b, c);
    TwoUnits(data, a, b);
    TextOfOne(c);
    ComposedUnits([a, b], [c], data);
  }

  lemma TwoUnits(data: UnicodeData, a: Unit, b: Unit)
    requires ComposingTables(data) && PairsAreReached(data) && data.pair(a, b) != 0
    ensures CodePoints([a, b]) == [a, b] && NoHigh([a, b])
  {
    LigatureExactly(data, a, b);
    LigatureIsScalar(a, b, data);
    PairIsPoints(a, b, data);
  }

  lemma TwoRunToOne(data: UnicodeData, a: int, b: int, c: int)
    requires ComposingTables(data) && data.Ligature(a, b) == c != 0
    ensures Run([a, b], data).done == [c]
  {
    RunOfOne([a], data);
    RunNext([a], b, data);
    assert [a] + [b] == [a, b] && [a][0 := c] == [c];
  }

  // ---------- Ligatures of ligatures ----------

  /** `c` is decomposed to `a` and `b`, which the table combines to it, and `b` no further. */
  ghost predicate IsPairOf(x: Setting, c: int, a: Unit, b: Unit) {
    x.data.pair(a, b) == c != 0 && x.Rep()(c) == Some([a, b]) && CodePoints([a, b]) == [a, b] && x.Rep()(b).None?
  }

  /** `c` is not decomposed, or is a syllable, or a ligature of something of the kind and a mark that is not. */
  ghost predicate Rebuilt(x: Setting, c: int)
    requires WellFounded(x.Rep(), x.rank)
    decreases x.rank(c)
  {
    || x.Rep()(c).None? || IsSyllable(c)
    || exists a: Unit, b: Unit ::
         IsPairOf(x, c, a, b) && (assert x.rank(CodePoints(x.Rep()(c).value)[0]) < x.rank(c); Rebuilt(x, a))
  }

  lemma FullOfPair(x: Setting, c: int, a: Unit, b: Unit)
    requires x.Sound() && IsPairOf(x, c, a, b)
    ensures x.Full(c) == x.Full(a) + [b] && x.rank(a) < x.rank(c)
  {
    PairDecomposes(x, a, b);
    FullOfPlain(x, b);
    assert CodePoints(x.Rep()(c).value)[0] == a;
  }

  /** What can be rebuilt is, behind any text that it does not combine with. */
  lemma {:induction false} RebuiltRuns(x: Setting, before: seq<int>, done: seq<int>, c: int)
    requires x.Sound() && PairsAreReached(x.data) && Rebuilt(x, c) && Stands(x, c)
    requires Run(before, x.data) == State(done, if done == [] then 0 else |done| - 1, 0)
    ensures Run(before + x.Full(c), x.data) == State(done + [c], |done|, 0)
    decreases x.rank(c)
  {
    if x.Rep()(c).None? {
      FullOfPlain(x, c);
      RunNext(before, c, x.data);
      assert !Combines(Run(before, x.data), c, x.data);
    } else if IsSyllable(c) {
      FullOfSyllable(x, c);
      SyllableComposes(x, before, done, c);
    } else {
      var a: Unit, b: Unit :| IsPairOf(x, c, a, b) && Rebuilt(x, a);
      FullOfPair(x, c, a, b);
      StandsInPart(x, c, a, b);
      RebuiltRuns(x, before, done, a);
      LigatureExactly(x.data, a, b);
      ThirdJamoComposes(x, before + x.Full(a), done, a, b);
      Regroup(before, x.Full(a), [b]);
    }
  }

  /** What `c` is decomposed to begins with a starter that combines with nothing in front of it. */
  ghost predicate Stands(x: Setting, c: int)
    requires WellFounded(x.Rep(), x.rank)
  {
    && x.Full(c) != [] && x.data.combining(x.Full(c)[0]) == 0
    && forall e: Unit :: x.data.Ligature(e, x.Full(c)[0]) == 0
  }

  lemma StandsInPart(x: Setting, c: int, a: Unit, b: Unit)
    requires x.Sound() && IsPairOf(x, c, a, b) && Stands(x, c)
    ensures Stands(x, a)
  {
    FullOfPair(x, c, a, b);
    PairIsPoints(a, b, x.data);
    ExpandIsNotEmpty(a, x.Rep(), x.rank);
  }

  /** Text of code points that can be rebuilt and stand alone comes back from its recursive decomposition. */
  lemma {:induction false} PointsComeBack(x: Setting, cs: seq<int>)
    requires x.Sound() && PairsAreReached(x.data) && forall i :: 0 <= i < |cs| ==> Rebuilt(x, cs[i]) && Stands(x, cs[i])
    ensures Run(x.Dec(cs), x.data) == State(cs, if cs == [] then 0 else |cs| - 1, 0)
  {
    if cs != [] {
      var init, c := cs[..|cs| - 1], cs[|cs| - 1];
      PointsComeBack(x, init);
      SplitLast(cs);
      DecConcat(x, init, [c]);
      DecOfOne(x, c);
      RebuiltRuns(x, x.Dec(init), init, c);
    }
  }

  lemma PrecomposedRoundTrip(x: Setting, s: seq<Unit>)
    requires x.Sound() && PairsAreReached(x.data) && AllScalar(CodePoints(s))
    requires var cs := CodePoints(s); forall i :: 0 <= i < |cs| ==> Rebuilt(x, cs[i]) && Stands(x, cs[i])
    ensures Composed(Decomposed(s, x.Rep(), x.rank), x.data) == s
  {
    var cs := CodePoints(s);
    PointsOfDecomposed(s, x.Rep(), x.rank);
    ExpandAllIsWellFormed(cs, x.Rep(), x.rank);
    PointsComeBack(x, cs);
    ComposedAsPoints(Decomposed(s, x.Rep(), x.rank), x.data);
    TextOfCodePoints(s);
  }

  // ---------- One code point ----------

  lemma OnePlain(x: Setting, c: int)
    requires x.Sound() && x.Rep()(c).None?
    ensures x.Full(c) == [c] && Run(x.Full(c), x.data).done == [c]
  {
    FullOfPlain(x, c);
    assert [c][..0] == [] && Run([c][..0], x.data) == State([], 0, 0);
  }

  lemma {:induction false} RebuiltAlone(x: Setting, c: int)
    requires x.Sound() && PairsAreReached(x.data) && Rebuilt(x, c)
    ensures Run(x.Full(c), x.data).done == [c]
    decreases x.rank(c)
  {
    if x.Rep()(c).None? {
      OnePlain(x, c);
    } else if IsSyllable(c) {
      SyllableAlone(x, c);
    } else {
      var a: Unit, b: Unit :| IsPairOf(x, c, a, b) && Rebuilt(x, a);
      FullOfPair(x, c, a, b);
      RebuiltAlone(x, a);
      OneMoreRunsTo(x, x.Full(a), a, b);
    }
  }

  lemma SyllableAlone(x: Setting, c: int)
    requires x.Sound() && IsSyllable(c) && x.Rep()(c).Some?
    ensures Run(x.Full(c), x.data).done == [c]
  {
    FullOfSyllable(x, c);
    SyllableComposes(x, [], [], c);
    assert [] + Jamo(c) == Jamo(c);
  }

  lemma OneMoreRunsTo(x: Setting, before: seq<int>, a: Unit, b: Unit)
    requires PairsAreReached(x.data) && x.data.pair(a, b) != 0 && Run(before, x.data).done == [a]
    ensures Run(before + [b], x.data).done == [x.data.pair(a, b)]
  {
    LigatureExactly(x.data, a, b);
    RunNext(before, b, x.data);
  }

  /** Only a ligature replaces all that has been read. */
  lemma MadeOfTwo(x: Setting, init: seq<int>, u: int, c: int)
    requires x.Sound() && x.Rep()(u).None? && x.Rep()(c).Some? && Run(init + [u], x.data).done == [c]
    ensures exists a: int :: Run(init, x.data).done == [a] && x.data.Ligature(a, u) == c != 0
  {
    var st := Run(init, x.data);
    RunNext(init, u, x.data);
    assert (st.done + [u])[|st.done|] == u;
    if Combines(st, u, x.data) {
      CombinesWithSomething(st, u, x.data);
      var lig := x.data.Ligature(Base(st, u), u);
      assert st.done[st.starter := lig] == [c] && st.done[st.starter := lig][st.starter] == lig;
      assert |st.done| == 1 && st.done == [st.done[0]];
    }
  }

  lemma PartsOf(x: Setting, c: int, a: int, u: int)
    requires x.Sound() && x.Rep()(c).Some? && !IsSyllable(c) && x.Rep()(u).None? && x.data.Ligature(a, u) == c != 0
    ensures 0 <= a < 0x1_0000 && 0 <= u < 0x1_0000 && IsPairOf(x, c, a, u)
  {
    LigatureReplaced(x, a, u);
    PairIsPoints(a, u, x.data);
  }

  lemma {:induction false} OnlyRebuilt(x: Setting, c: int)
    requires x.Sound() && Run(x.Full(c), x.data).done == [c]
    ensures Rebuilt(x, c)
    decreases x.rank(c)
  {
    if x.Rep()(c).Some? && !IsSyllable(c) {
      var f := x.Full(c);
      ExpandIsNotEmpty(c, x.Rep(), x.rank);
      ExpandIsFull(c, x.Rep(), x.rank);
      var init, u := f[..|f| - 1], f[|f| - 1];
      SplitLast(f);
      MadeOfTwo(x, init, u, c);
      var a :| Run(init, x.data).done == [a] && x.data.Ligature(a, u) == c != 0;
      PartsOf(x, c, a, u);
      FullOfPair(x, c, a, u);
      assert init == x.Full(a);
      OnlyRebuilt(x, a);
    }
  }

  /** A code point comes back from its recursive decomposition exactly when it can be rebuilt. */
  lemma ComesBackExactly(x: Setting, c: int)
    requires x.Sound() && PairsAreReached(x.data) && IsScalar(c)
    ensures Composed(Decomposed(Encode(c), x.Rep(), x.rank), x.data) == Encode(c) <==> Rebuilt(x, c)
  {
    ComposedOfOne(x, c);
    if Rebuilt(x, c) {
      RebuiltAlone(x, c);
    } else if Run(x.Full(c), x.data).done == [c] {
      OnlyRebuilt(x, c);
    }
  }

  lemma DecomposedOfOne(x: Setting, c: int)
    requires x.Sound() && IsScalar(c)
    ensures Decomposed(Encode(c), x.Rep(), x.rank) == Text(x.Full(c))
    ensures CodePoints(Text(x.Full(c))) == x.Full(c) && AllScalar(x.Full(c))
  {
    CodePointsOfOne(c);
    DecOfOne(x, c);
    ExpandIsWellFormed(c, x.Rep(), x.rank);
    CodePointsOfText(x.Full(c));
  }

  lemma ComposedOfOne(x: Setting, c: int)
    requires x.Sound() && IsScalar(c)
    ensures Composed(Decomposed(Encode(c), x.Rep(), x.rank), x.data) == Encode(c)
      <==> Run(x.Full(c), x.data).done == [c]
  {
    DecomposedOfOne(x, c);
    ComposedAsPoints(Text(x.Full(c)), x.data);
    IsTextOfOne(Run(x.Full(c), x.data).done, c);
  }

  lemma IsTextOfOne(cs: seq<int>, c: int)
    requires NoHigh(cs) && IsScalar(c)
    ensures Text(cs) == Encode(c) <==> cs == [c]
  {
    CodePointsOfText(cs);
    CodePointsOfOne(c);
    TextOfOne(c);
  }

  /** The parts of a table ligature are not canonically decomposed, save that the first may be a table ligature. */
  ghost predicate PartsCompose(data: UnicodeData) {
    forall a: Unit, b: Unit :: data.pair(a, b) != 0 ==>
      && !IsSyllable(a) && !IsSyllable(b) && !IsCanonical(data.mapping(b))
      && (IsCanonical(data.mapping(a)) ==> IsTableLigature(data, a))
  }

  ghost predicate IsTableLigature(data: UnicodeData, c: int) {
    exists a: Unit, b: Unit :: data.pair(a, b) == c != 0
  }

  predicate IsCanonical(m: Option<Mapping>) {
    m.Some? && m.value.tag == CANONICAL
  }

  lemma {:induction false} LigatureIsRebuilt(x: Setting, a: Unit, b: Unit)
    requires x.Sound() && x.canonical && PartsCompose(x.data) && x.data.pair(a, b) != 0
    ensures Rebuilt(x, x.data.pair(a, b))
    decreases x.rank(x.data.pair(a, b))
  {
    var c := x.data.pair(a, b);
    if x.Rep()(c).Some? && !IsSyllable(c) {
      TableParts(x, a, b);
      FullOfPair(x, c, a, b);
      if x.Rep()(a).Some? {
        var a': Unit, b': Unit :| x.data.pair(a', b') == a != 0;
        LigatureIsRebuilt(x, a', b');
      }
    }
  }

  lemma TableParts(x: Setting, a: Unit, b: Unit)
    requires x.Sound() && x.canonical && PartsCompose(x.data) && x.data.pair(a, b) != 0
    requires x.Rep()(x.data.pair(a, b)).Some? && !IsSyllable(x.data.pair(a, b))
    ensures IsPairOf(x, x.data.pair(a, b), a, b)
    ensures x.Rep()(a).Some? ==> IsTableLigature(x.data, a)
  {
    PairIsPoints(a, b, x.data);
    OnlyCanonical(x, a);
    OnlyCanonical(x, b);
    LigatureIsPair(x, a, b);
  }

  lemma OnlyCanonical(x: Setting, c: int)
    requires x.canonical && !IsSyllable(c)
    ensures x.Rep()(c).Some? ==> IsCanonical(x.data.mapping(c))
  {}

  lemma LigatureIsPair(x: Setting, a: Unit, b: Unit)
    requires x.Sound() && x.data.pair(a, b) != 0 && x.Rep()(x.data.pair(a, b)).Some?
    ensures x.Rep()(x.data.pair(a, b)) == Some([a, b])
  {}

  /** In forms D and C, and in every version, every ligature of the table comes back. */
  lemma LigaturesComeBack(x: Setting, a: Unit, b: Unit)
    requires x.Sound() && x.canonical && PairsAreReached(x.data) && PartsCompose(x.data) && x.data.pair(a, b) != 0
    ensures Composed(Decomposed([x.data.pair(a, b)], x.Rep(), x.rank), x.data) == [x.data.pair(a, b)]
  {
    var c := x.data.pair(a, b);
    LigatureIsRebuilt(x, a, b);
    LigatureExactly(x.data, a, b);
    LigatureIsScalar(a, b, x.data);
    ComesBackExactly(x, c);
  }

  /** What the tables say of U+304B, U+3099 and U+304C. */
  ghost predicate KanaTables(x: Setting) {
    x.data.pair(0x304b, 0x3099) == 0x304c && x.Rep()(0x304b).None? && x.Rep()(0x3099).None? && x.Knows(0x304c)
  }

  /** U+304B U+3099 is what U+304C decomposes to, and is composed to it. */
  lemma KanaExample(x: Setting)
    requires x.Sound() && PairsAreReached(x.data) && KanaTables(x)
    ensures x.data.Ligature(0x304b, 0x3099) == 0x304c && Composed([0x304b, 0x3099], x.data) == [0x304c]
    ensures x.Full(0x304c) == [0x304b, 0x3099]
  {
    PairIsComposed(x.data, 0x304b, 0x3099);
    LigatureExactly(x.data, 0x304b, 0x3099);
    PlainPair(x, 0x304b, 0x3099);
  }

  lemma PlainPair(x: Setting, a: Unit, b: Unit)
    requires x.Sound() && x.data.pair(a, b) != 0 && x.Knows(x.data.pair(a, b)) && x.Rep()(a).None? && x.Rep()(b).None?
    requires !IsSyllable(x.data.pair(a, b))
    ensures x.Full(x.data.pair(a, b)) == [a, b]
  {
    PairIsPoints(a, b, x.data);
    FullOfPair(x, x.data.pair(a, b), a, b);
    FullOfPlain(x, a);
  }

  /** What the tables say in forms KD and KC of U+1E9B and of U+017F, the first of its two parts. */
  ghost predicate LongSTables(x: Setting) {
    x.Rep()(0x1e9b) == Some([0x17f, 0x307]) && x.Rep()(0x17f) == Some([0x73])
  }

  /** U+1E9B does not come back there, because U+017F does not. */
  lemma LongSExample(x: Setting)
    requires x.Sound() && PairsAreReached(x.data) && LongSTables(x)
    ensures Composed(Decomposed([0x1e9b], x.Rep(), x.rank), x.data) != [0x1e9b]
  {
    NotRebuilt(x, 0x1e9b, 0x17f, 0x307, 0x73);
    ComesBackExactly(x, 0x1e9b);
  }

  /** A ligature whose first part is replaced by something else alone. */
  lemma NotRebuilt(x: Setting, c: Unit, a: Unit, b: Unit, other: Unit)
    requires x.Sound() && !IsSyllable(c) && !IsSyllable(a)
    requires x.Rep()(c) == Some([a, b]) && x.Rep()(a) == Some([other])
    ensures !Rebuilt(x, c)
  {
    NoPair(x, a, other);
    assert forall a': Unit, b': Unit :: IsPairOf(x, c, a', b') ==> [a', b'] == [a, b] && [a', b'][0] == [a, b][0];
  }

  lemma NoPair(x: Setting, a: Unit, other: Unit)
    requires x.Sound() && !IsSyllable(a) && x.Rep()(a) == Some([other])
    ensures !Rebuilt(x, a)
  {
    assert forall a': Unit, b': Unit :: IsPairOf(x, a, a', b') ==> |[a', b']| == |[other]|;
  }
}

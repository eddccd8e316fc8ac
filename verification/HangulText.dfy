/** Hangul: syllables and their jamo. */
module HangulText {
  import opened Units
  import opened UnicodeTables
  import opened Utf16Text
  import opened Decompose
  import opened Compose
  import opened Soundness
  import opened Recomposition
  import opened CompositionLoss

  /** The jamo of a syllable combine back to it. */
  lemma SyllableOfJamo(s: int, data: UnicodeData)
    requires IsSyllable(s)
    ensures var jamo := Jamo(s);
      var open := data.Ligature(jamo[0], jamo[1]);
      && IsOpenSyllable(open)
      && (if |jamo| == 2 then open == s else open != 0 && data.Ligature(open, jamo[2]) == s)
  {
    var jamo, index := Jamo(s), s - HANGUL_S_BASE;
    JamoOfLV(jamo[0], jamo[1]);
    TrailingIndex(index);
  }

  lemma TrailingIndex(index: nat)
    ensures index % HANGUL_N_COUNT % HANGUL_T_COUNT == index % HANGUL_T_COUNT
  {
    var n, r := index / HANGUL_N_COUNT, index % HANGUL_N_COUNT;
    RemainderIs(index, HANGUL_V_COUNT * n + r / HANGUL_T_COUNT, r % HANGUL_T_COUNT);
  }

  lemma RemainderIs(a: nat, q: nat, r: nat)
    requires a == HANGUL_T_COUNT * q + r && r < HANGUL_T_COUNT
    ensures a % HANGUL_T_COUNT == r
  {}

  /** Whatever a unit combines with at the end of the text is replaced by the ligature. */
  lemma LastCombines(st: State, a: int, u: int, data: UnicodeData)
    requires st.done != [] && st == State(st.done, |st.done| - 1, 0) && st.done[|st.done| - 1] == a
    requires data.Ligature(a, u) != 0
    ensures Step(st, u, data) == State(st.done[..|st.done| - 1] + [data.Ligature(a, u)], |st.done| - 1, 0)
  {}

  lemma SyllableComposes(x: Setting, before: seq<int>, done: seq<int>, s: int)
    requires x.Sound() && IsSyllable(s)
    requires Run(before, x.data) == State(done, if done == [] then 0 else |done| - 1, 0)
    ensures Run(before + Jamo(s), x.data) == State(done + [s], |done|, 0)
  {
    var jamo := Jamo(s);
    SyllableOfJamo(s, x.data);
    TwoJamoCompose(x, before, done, jamo[0], jamo[1]);
    if |jamo| == 2 {
      assert before + jamo == before + [jamo[0]] + [jamo[1]];
    } else {
      ThirdJamoComposes(x, before + [jamo[0]] + [jamo[1]], done, x.data.Ligature(jamo[0], jamo[1]), jamo[2]);
      assert before + jamo == before + [jamo[0]] + [jamo[1]] + [jamo[2]];
    }
  }

  lemma TwoJamoCompose(x: Setting, before: seq<int>, done: seq<int>, l: int, v: int)
    requires x.Sound() && IsLeading(l) && IsVowel(v)
    requires Run(before, x.data) == State(done, if done == [] then 0 else |done| - 1, 0)
    ensures Run(before + [l] + [v], x.data) == State(done + [x.data.Ligature(l, v)], |done|, 0)
  {
    RunNext(before, l, x.data);
    RunNext(before + [l], v, x.data);
    OpenSyllableComposes(x, Run(before, x.data), l, v);
  }

  lemma ThirdJamoComposes(x: Setting, before: seq<int>, done: seq<int>, open: int, t: int)
    requires Run(before, x.data) == State(done + [open], |done|, 0) && x.data.Ligature(open, t) != 0
    ensures Run(before + [t], x.data) == State(done + [x.data.Ligature(open, t)], |done|, 0)
  {
    RunNext(before, t, x.data);
    LastCombines(State(done + [open], |done|, 0), open, t, x.data);
    assert (done + [open])[..|done|] == done;
  }

  /** Whatever stray unit follows the jamo of an open syllable, they become one code point. */
  lemma StraySwallowed(x: Setting, s: int, u: int)
    requires x.Sound() && IsOpenSyllable(s) && IsStray(u)
    ensures Run(Jamo(s) + [u], x.data).done == [s + (u - HANGUL_T_BASE)]
  {
    assert [] + Jamo(s) == Jamo(s);
    SyllableComposes(x, [], [], s);
    RunNext(Jamo(s), u, x.data);
    LigatureWithStray(s, u, x.data);
    LastCombines(State([s], 0, 0), s, u, x.data);
  }

  /** The shortest failures of the round trip: U+11A7 is swallowed. */
  lemma StrayExample(x: Setting, s: int)
    requires x.Sound() && IsOpenSyllable(s) && x.Knows(s)
    ensures var cs := Jamo(s) + [HANGUL_T_BASE];
      HasStray(cs) && x.Dec(Run(cs, x.data).done) == Jamo(s)
  {
    StraySwallowed(x, s, HANGUL_T_BASE);
    DecOfOne(x, s);
    FullOfSyllable(x, s);
    assert StrayAt(Jamo(s) + [HANGUL_T_BASE], 0);
  }

  predicate AllSyllables(s: seq<int>) {
    forall i :: 0 <= i < |s| ==> IsSyllable(s[i])
  }

  /** Decomposing precomposed syllables and composing the jamo again is the identity, in every version. */
  lemma HangulRoundTrip(x: Setting, s: seq<Unit>)
    requires x.Sound() && AllSyllables(s)
    ensures Composed(Decomposed(s, x.Rep(), x.rank), x.data) == s
  {
    SyllablesAreUnits(s);
    PointsOfDecomposed(s, x.Rep(), x.rank);
    ExpandAllIsWellFormed(s, x.Rep(), x.rank);
    SyllablesComeBack(x, s);
    ComposedAsPoints(Decomposed(s, x.Rep(), x.rank), x.data);
  }

  lemma SyllablesAreUnits(s: seq<Unit>)
    requires AllSyllables(s)
    ensures CodePoints(s) == s && Text(s) == s && AllScalar(s)
  {
    CodePointsOfUnits(s);
    TextOfUnits(s);
  }

  lemma SyllablesComeBack(x: Setting, s: seq<int>)
    requires x.Sound() && AllSyllables(s)
    ensures Run(x.Dec(s), x.data).done == s
  {
    if x.Knows(HANGUL_S_BASE) {
      SyllablesCompose(x, s);
    } else {
      DecOfFull(x, s);
      SyllablesStay(x, s);
    }
  }

  lemma {:induction false} SyllablesCompose(x: Setting, s: seq<int>)
    requires x.Sound() && AllSyllables(s) && x.Knows(HANGUL_S_BASE)
    ensures Run(x.Dec(s), x.data) == State(s, if s == [] then 0 else |s| - 1, 0)
  {
    if s == [] {
      DecOfFull(x, s);
    } else {
      var init, last := s[..|s| - 1], s[|s| - 1];
      SyllablesCompose(x, init);
      SplitLast(s);
      DecConcat(x, init, [last]);
      DecOfOne(x, last);
      assert x.data.version(last) == x.data.version(HANGUL_S_BASE);
      FullOfSyllable(x, last);
      SyllableComposes(x, x.Dec(init), init, last);
    }
  }

  /** Syllables do not combine with one another. */
  lemma {:induction false} SyllablesStay(x: Setting, s: seq<int>)
    requires x.Sound() && AllSyllables(s)
    ensures Run(s, x.data).done == s
  {
    if s != [] {
      SyllablesStay(x, s[..|s| - 1]);
      SplitLast(s);
    }
  }
}

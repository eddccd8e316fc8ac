/**
 * When the loops undo composition, said of the text that is composed: hardly anything in it may
 * combine, and only at its very end.
 */
module CallUndone {
  import opened Units
  import opened UnicodeTables
  import opened Utf16Text
  import opened CanonicalOrderLoop
  import opened Decompose
  import opened DecompositionLoss
  import opened LoopResult
  import opened Compose
  import opened Soundness
  import opened Recomposition
  import opened CompositionLoss
  import opened HangulText
  import opened TailLoss
  import opened Normalize
  import opened NormalizationCall
  import opened CallRoundTrip

  // ---------- What combines first ----------

  /** With nothing in front of it combined, the code point at `k` combines with the last starter before it. */
  predicate Meets(cs: seq<int>, k: int, data: UnicodeData) {
    && 0 <= k < |cs|
    && match LastStarter(cs[..k], data)
       case None => false
       case Some(i) =>
         data.Ligature(cs[i], cs[k]) != 0 && (i == k - 1 || data.combining(cs[k]) > data.combining(cs[k - 1]))
  }

  /** Nothing combines among the first `n` code points. */
  predicate FreeUpTo(cs: seq<int>, n: nat, data: UnicodeData) {
    forall k :: 0 <= k < n ==> !Meets(cs, k, data)
  }

  /** The state when nothing has combined. */
  ghost predicate AtRest(st: State, cs: seq<int>, data: UnicodeData) {
    && st.done == cs && st.last == (if cs == [] then 0 else data.combining(cs[|cs| - 1]))
    && st.starter == match LastStarter(cs, data)
                     case None => 0
                     case Some(i) => i
  }

  lemma RestMeets(st: State, cs: seq<int>, k: nat, data: UnicodeData)
    requires ComposingTables(data) && k < |cs| && AtRest(st, cs[..k], data)
    ensures st.Valid() && (Combines(st, cs[k], data) <==> Meets(cs, k, data))
  {
    if LastStarter(cs[..k], data).None? && k > 0 {
      assert data.combining(cs[..k][0]) != 0;
    }
  }

  lemma RestNext(st: State, cs: seq<int>, k: nat, data: UnicodeData)
    requires st.Valid() && k < |cs| && AtRest(st, cs[..k], data) && !Combines(st, cs[k], data)
    ensures AtRest(Step(st, cs[k], data), cs[..k + 1], data)
  {
    assert cs[..k + 1] == cs[..k] + [cs[k]];
    assert (cs[..k] + [cs[k]])[..k] == cs[..k];
  }

  lemma {:induction false} FreeRun(cs: seq<int>, n: nat, data: UnicodeData)
    requires ComposingTables(data) && n <= |cs| && FreeUpTo(cs, n, data)
    ensures AtRest(Run(cs[..n], data), cs[..n], data)
  {
    if n == 0 {
      assert cs[..n] == [];
    } else {
      FreeRun(cs, n - 1, data);
      RunSnoc(cs, n, data);
      RestMeets(Run(cs[..n - 1], data), cs, n - 1, data);
      RestNext(Run(cs[..n - 1], data), cs, n - 1, data);
    }
  }

  /** The first code point that combines meets a starter. */
  lemma FirstMeets(cs: seq<int>, k: nat, data: UnicodeData)
    requires ComposingTables(data) && k < |cs| && FreeUpTo(cs, k, data)
    ensures Combines(Run(cs[..k], data), cs[k], data) <==> Meets(cs, k, data)
  {
    FreeRun(cs, k, data);
    RestMeets(Run(cs[..k], data), cs, k, data);
  }

  // ---------- Text that comes back ----------

  /** The last two code points, nothing else, combine to what the version decomposes. */
  ghost predicate LastTwoCombine(x: Setting, cs: seq<int>) {
    var n := |cs|;
    && n >= 2 && FreeUpTo(cs, n - 1, x.data) && x.data.Ligature(cs[n - 2], cs[n - 1]) != 0
    && x.Rep()(x.data.Ligature(cs[n - 2], cs[n - 1])).Some?
  }

  /** The text ends in the jamo of a syllable that the version knows, and nothing else combines. */
  ghost predicate EndsInSyllable(x: Setting, cs: seq<int>) {
    var n := |cs|;
    && n >= 3 && FreeUpTo(cs, n - 2, x.data) && x.Knows(HANGUL_S_BASE)
    && IsLeading(cs[n - 3]) && IsVowel(cs[n - 2]) && IsTrailing(cs[n - 1])
  }

  ghost predicate ComesBack(x: Setting, cs: seq<int>) {
    FreeUpTo(cs, |cs|, x.data) || LastTwoCombine(x, cs) || EndsInSyllable(x, cs)
  }

  lemma FullOfReplaced(x: Setting, c: int, d: seq<Unit>)
    requires x.Sound() && x.Rep()(c) == Some(d) && CodePoints(d) == d && FullyDecomposed(d, x.Rep())
    ensures x.Full(c) == d && Length(c, x.Rep(), x.rank) == |d|
  {
    FullyDecomposedStays(d, x.Rep(), x.rank);
    TextOfUnits(d);
  }

  lemma FitsReplacedByPlain(x: Setting, c: int, d: seq<Unit>)
    requires x.Sound() && x.Rep()(c) == Some(d) && CodePoints(d) == d && FullyDecomposed(d, x.Rep())
    requires 0 <= c < 0x1_0000
    ensures FitsInside(c, x.Rep(), x.rank) && Length(c, x.Rep(), x.rank) >= Width(c)
  {
    FullOfReplaced(x, c, d);
    PlainFit(d, x.Rep(), x.rank);
    assert d != [];
  }

  /** A text that only at its end has something to decompose fits. */
  lemma FitsAtEnd(x: Setting, init: seq<int>, lig: int, d: seq<Unit>)
    requires x.Sound() && AllPlain(init, x.Rep()) && 0 <= lig < 0x1_0000
    requires x.Rep()(lig) == Some(d) && CodePoints(d) == d && FullyDecomposed(d, x.Rep())
    ensures Fits(init + [lig], 0, true, x.Rep(), x.rank)
  {
    FitsReplacedByPlain(x, lig, d);
    PlainFit(init, x.Rep(), x.rank);
    FitsSnoc(init, lig, 0, true, x.Rep(), x.rank);
  }

  lemma DecomposedAtEnd(x: Setting, init: seq<int>, lig: int, d: seq<Unit>)
    requires x.Sound() && FullyDecomposed(init, x.Rep())
    requires x.Rep()(lig) == Some(d) && CodePoints(d) == d && FullyDecomposed(d, x.Rep())
    ensures x.Dec(init + [lig]) == init + d
  {
    FullOfReplaced(x, lig, d);
    DecOfFull(x, init);
    DecConcat(x, init, [lig]);
    DecOfOne(x, lig);
  }

  lemma PlainFit(cs: seq<int>, rep: Replacements, rank: int -> nat)
    requires WellFounded(rep, rank) && FullyDecomposed(cs, rep) && forall i :: 0 <= i < |cs| ==> 0 <= cs[i] < 0x11_0000
    ensures AllFit(cs, rep, rank)
  {
    forall i | 0 <= i < |cs|
      ensures Length(cs[i], rep, rank) == Width(cs[i])
    {
      LengthOfPlain(cs[i], rep, rank);
    }
  }

  lemma EndComesBack(x: Setting, s: seq<Unit>, init: seq<int>, lig: int, d: seq<Unit>)
    requires x.Sound() && AllPlain(CodePoints(s), x.Rep()) && LoopOrder(CodePoints(s), x.Cls()) == CodePoints(s)
    requires Run(CodePoints(s), x.data).done == init + [lig] && CodePoints(s) == init + d
    requires 0 <= lig < 0x1_0000 && x.Rep()(lig) == Some(d) && CodePoints(d) == d
    ensures CallD(x, Composed(s, x.data)) == s
  {
    PlainSplit(init, d, x.Rep());
    ComposedPoints(x, s);
    FitsAtEnd(x, init, lig, d);
    CallIsForm(x, Composed(s, x.data));
    DecomposedAtEnd(x, init, lig, d);
    FormOfPoints(x, Composed(s, x.data), s);
  }

  lemma FormOfPoints(x: Setting, t: seq<Unit>, s: seq<Unit>)
    requires x.Sound() && x.Dec(CodePoints(t)) == CodePoints(s) && LoopOrder(CodePoints(s), x.Cls()) == CodePoints(s)
    ensures FormD(x, t) == s
  {
    TextOfCodePoints(s);
  }

  lemma PlainSplit(a: seq<int>, b: seq<int>, rep: Replacements)
    requires AllPlain(a + b, rep)
    ensures AllPlain(a, rep) && AllPlain(b, rep)
  {
    var all := a + b;
    assert forall i :: 0 <= i < |a| ==> all[i] == a[i];
    assert forall i :: 0 <= i < |b| ==> b[i] == all[|a| + i];
  }

  lemma FreeComesBack(x: Setting, s: seq<Unit>)
    requires x.Sound() && AllPlain(CodePoints(s), x.Rep()) && LoopOrder(CodePoints(s), x.Cls()) == CodePoints(s)
    requires FreeUpTo(CodePoints(s), |CodePoints(s)|, x.data)
    ensures CallD(x, Composed(s, x.data)) == s
  {
    var cs := CodePoints(s);
    FreeRun(cs, |cs|, x.data);
    assert cs[..|cs|] == cs;
    ComposedAsPoints(s, x.data);
    TextOfCodePoints(s);
    PlainCall(x, s);
  }

  /** Two decomposed code points are what their ligature is replaced by. */
  lemma ReplacedByBoth(x: Setting, a: int, u: int)
    requires x.Sound() && x.data.Ligature(a, u) != 0 && x.Rep()(a).None? && x.Rep()(x.data.Ligature(a, u)).Some?
    ensures 0 <= a < 0x1_0000 && 0 <= u < 0x1_0000 && x.Rep()(x.data.Ligature(a, u)) == Some([a, u])
    ensures CodePoints([a, u]) == [a, u]
  {
    LigatureReplaced(x, a, u);
    if x.data.pair(a, u) == x.data.Ligature(a, u) && !IsSyllable(x.data.pair(a, u)) {
      PairIsPoints(a, u, x.data);
    } else {
      SyllableOfTwo(x, a, u);
      JamoOfLV(a, u);
      UnitsAreCodePoints([a, u]);
    }
  }

  lemma SyllableOfTwo(x: Setting, a: int, u: int)
    requires x.Sound() && x.data.Ligature(a, u) != 0 && IsSyllable(x.data.Ligature(a, u))
    requires x.Knows(x.data.Ligature(a, u)) && x.Rep()(a).None?
    ensures IsLeading(a) && IsVowel(u)
  {
    assert IsOpenSyllable(a) ==> x.Knows(a);
    if x.data.Ligature(a, u) == x.data.pair(a, u) && !(IsLeading(a) && IsVowel(u)) {
      PairForSyllable(x.data, a, u);
    }
  }

  lemma FreeInPrefix(a: seq<int>, b: seq<int>, n: nat, data: UnicodeData)
    requires n <= |a|
    ensures FreeUpTo(a + b, n, data) <==> FreeUpTo(a, n, data)
  {
    forall k | 0 <= k < n
      ensures Meets(a + b, k, data) == Meets(a, k, data)
    {
      assert (a + b)[..k] == a[..k];
    }
  }

  /** What combines with the code point right in front of it takes its place. */
  lemma TwoRun(x: Setting, init: seq<int>, a: int, u: int)
    requires x.Sound() && FreeUpTo(init + [a], |init| + 1, x.data) && x.data.Ligature(a, u) != 0
    ensures Run((init + [a]) + [u], x.data) == State(init + [x.data.Ligature(a, u)], |init|, 0)
  {
    var cs := init + [a];
    assert cs[..|cs|] == cs;
    FreeRun(cs, |cs|, x.data);
    LastStarterIs(cs, |init|, x.data);
    RunNext(cs, u, x.data);
    OverLast(init, a, x.data.Ligature(a, u));
  }

  lemma OverLast(a: seq<int>, c: int, d: int)
    ensures (a + [c])[|a| := d] == a + [d] && (a + [c])[|a|] == c
  {}

  lemma TwoComeBack(x: Setting, s: seq<Unit>, init: seq<int>, a: int, u: int)
    requires x.Sound() && AllPlain(CodePoints(s), x.Rep()) && LoopOrder(CodePoints(s), x.Cls()) == CodePoints(s)
    requires CodePoints(s) == (init + [a]) + [u] && FreeUpTo(init + [a], |init| + 1, x.data)
    requires x.data.Ligature(a, u) != 0 && x.Rep()(x.data.Ligature(a, u)).Some? && x.Rep()(a).None?
    ensures CallD(x, Composed(s, x.data)) == s
  {
    TwoRun(x, init, a, u);
    ReplacedByBoth(x, a, u);
    assert (init + [a]) + [u] == init + [a, u];
    EndComesBack(x, s, init, x.data.Ligature(a, u), [a, u]);
  }

  lemma LastTwo(x: Setting, s: seq<Unit>)
    requires x.Sound() && AllPlain(CodePoints(s), x.Rep()) && LoopOrder(CodePoints(s), x.Cls()) == CodePoints(s)
    requires LastTwoCombine(x, CodePoints(s))
    ensures CallD(x, Composed(s, x.data)) == s
  {
    var cs, n := CodePoints(s), |CodePoints(s)|;
    var init, a, u := cs[..n - 2], cs[n - 2], cs[n - 1];
    assert cs == (init + [a]) + [u];
    FreeInPrefix(init + [a], [u], n - 1, x.data);
    TwoComeBack(x, s, init, a, u);
  }

  lemma TrailingLigature(data: UnicodeData, open: int, t: int)
    requires IsOpenSyllable(open) && IsTrailing(t)
    ensures data.Ligature(open, t) == open + (t - HANGUL_T_BASE) != 0
  {}

  lemma ReplacedByThree(x: Setting, l: int, v: int, t: int)
    requires x.Sound() && x.Knows(HANGUL_S_BASE) && IsLeading(l) && IsVowel(v) && IsTrailing(t)
    ensures var open := x.data.Ligature(l, v);
      open != 0 && x.data.Ligature(open, t) != 0 && x.Rep()(x.data.Ligature(open, t)) == Some([l, v, t])
    ensures CodePoints([l, v, t]) == [l, v, t]
  {
    var open := x.data.Ligature(l, v);
    JamoOfLV(l, v);
    JamoOfLVT(open, t);
    TrailingLigature(x.data, open, t);
    assert Jamo(open) + [t] == [l, v, t];
    assert x.Knows(open + (t - HANGUL_T_BASE));
    UnitsAreCodePoints([l, v, t]);
  }

  /** The jamo of a final syllable combine to it. */
  lemma SyllableRun(x: Setting, init: seq<int>, l: int, v: int, t: int, open: int)
    requires x.Sound() && FreeUpTo(init + [l], |init| + 1, x.data)
    requires x.data.Ligature(l, v) == open != 0 && x.data.Ligature(open, t) != 0
    ensures Run(((init + [l]) + [v]) + [t], x.data).done == init + [x.data.Ligature(open, t)]
  {
    TwoRun(x, init, l, v);
    ThirdJamoComposes(x, (init + [l]) + [v], init, open, t);
  }

  lemma SyllableComesBack(x: Setting, s: seq<Unit>, init: seq<int>, l: int, v: int, t: int)
    requires x.Sound() && AllPlain(CodePoints(s), x.Rep()) && LoopOrder(CodePoints(s), x.Cls()) == CodePoints(s)
    requires CodePoints(s) == ((init + [l]) + [v]) + [t] && FreeUpTo(init + [l], |init| + 1, x.data)
    requires x.Knows(HANGUL_S_BASE) && IsLeading(l) && IsVowel(v) && IsTrailing(t)
    ensures CallD(x, Composed(s, x.data)) == s
  {
    var open := x.data.Ligature(l, v);
    var d: seq<Unit> := [l, v, t];
    ReplacedByThree(x, l, v, t);
    SyllableRun(x, init, l, v, t, open);
    Three(init, l, v, t);
    EndComesBack(x, s, init, x.data.Ligature(open, t), d);
  }

  lemma Three(init: seq<int>, l: int, v: int, t: int)
    ensures ((init + [l]) + [v]) + [t] == init + [l, v, t]
  {}

  lemma LastSyllable(x: Setting, s: seq<Unit>)
    requires x.Sound() && AllPlain(CodePoints(s), x.Rep()) && LoopOrder(CodePoints(s), x.Cls()) == CodePoints(s)
    requires EndsInSyllable(x, CodePoints(s))
    ensures CallD(x, Composed(s, x.data)) == s
  {
    var cs, n := CodePoints(s), |CodePoints(s)|;
    var init, l, v, t := cs[..n - 3], cs[n - 3], cs[n - 2], cs[n - 1];
    assert cs == ((init + [l]) + [v]) + [t] && cs == (init + [l]) + [v, t];
    FreeInPrefix(init + [l], [v, t], n - 2, x.data);
    SyllableComesBack(x, s, init, l, v, t);
  }

  // ---------- Text that does not ----------

  /** At index `i` stands a unit that decomposes to more than one. */
  ghost predicate LongAt(x: Setting, done: seq<int>, i: int)
    requires WellFounded(x.Rep(), x.rank)
  {
    0 <= i < |done| && 0 <= done[i] < 0x1_0000 && Length(done[i], x.Rep(), x.rank) >= 2
  }

  /** A ligature without loss is long, and others stay as they are. */
  lemma StepKeepsLong(x: Setting, st: State, u: int, i: int)
    requires x.Sound() && st.Valid() && x.Rep()(u).None? && !Loses(x, st, u)
    ensures |st.done| <= |Step(st, u, x.data).done| <= |st.done| + 1
    ensures LongAt(x, st.done, i) ==> LongAt(x, Step(st, u, x.data).done, i)
    ensures Combines(st, u, x.data) ==>
      && LongAt(x, Step(st, u, x.data).done, st.starter) && |Step(st, u, x.data).done| == |st.done|
      && Step(st, u, x.data).starter == st.starter
  {
    if Combines(st, u, x.data) {
      CombinesWithSomething(st, u, x.data);
      LigatureLength(x, Base(st, u), u);
      LigatureIsScalar(Base(st, u), u, x.data);
      FullIsNotEmpty(x, Base(st, u));
    }
  }

  lemma AllCombineNext(cs: seq<int>, u: int, from: nat, data: UnicodeData)
    requires from <= |cs|
    ensures AllCombine(cs + [u], from, data) <==> AllCombine(cs, from, data) && Combines(Run(cs, data), u, data)
  {
    var all := cs + [u];
    assert all[..|cs|] == cs && all[|cs|] == u;
    forall k | from <= k < |cs|
      ensures Combines(Run(all[..k], data), all[k], data) == Combines(Run(cs[..k], data), cs[k], data)
    {
      assert all[..k] == cs[..k] && all[k] == cs[k];
    }
    if AllCombine(all, from, data) {
      assert Combines(Run(all[..|cs|], data), all[|cs|], data);
    }
  }

  /** A long code point stays, and if nothing comes behind it, all that follows combines. */
  lemma {:induction false} LongStays(x: Setting, cs: seq<int>, q: nat, i: int)
    requires x.Sound() && FullyDecomposed(cs, x.Rep()) && !LosesSome(x, cs) && q <= |cs|
    requires LongAt(x, Run(cs[..q], x.data).done, i)
    ensures LongAt(x, Run(cs, x.data).done, i) && |Run(cs[..q], x.data).done| <= |Run(cs, x.data).done|
    ensures |Run(cs[..q], x.data).done| == |Run(cs, x.data).done| ==> AllCombine(cs, q, x.data)
    decreases |cs|
  {
    if q == |cs| {
      assert cs[..q] == cs;
    } else {
      var init, u := cs[..|cs| - 1], cs[|cs| - 1];
      SplitLast(cs);
      assert init[..q] == cs[..q];
      LosesNext(x, init, u);
      LongStays(x, init, q, i);
      StepKeepsLong(x, Run(init, x.data), u, i);
      AllCombineNext(init, u, q, x.data);
    }
  }

  /** Where everything fits, only the last code point is long. */
  lemma LongIsLast(x: Setting, done: seq<int>, i: int)
    requires x.Sound() && Fits(done, 0, true, x.Rep(), x.rank) && LongAt(x, done, i)
    ensures i == |done| - 1 && FitsInside(done[|done| - 1], x.Rep(), x.rank)
  {
    var init := done[..|done| - 1];
    assert forall k :: 0 <= k < |init| ==> init[k] == done[k];
  }

  /** The first `k` code points do not combine; all that follow do, with the last of these. */
  ghost predicate Chain(x: Setting, cs: seq<int>, k: int) {
    && 0 < k < |cs| && FullyDecomposed(cs, x.Rep()) && !LosesSome(x, cs) && FreeUpTo(cs, k, x.data)
    && LastStarter(cs[..k], x.data) == Some(k - 1) && AllCombine(cs, k, x.data)
  }

  /** Then only one code point is written over, and all that is written is long. */
  lemma {:induction false} ChainRun(x: Setting, cs: seq<int>, k: nat)
    requires x.Sound() && Chain(x, cs, k)
    ensures var st := Run(cs, x.data); |st.done| == k && st.starter == k - 1 && LongAt(x, st.done, k - 1)
    decreases |cs|
  {
    var init := cs[..|cs| - 1];
    if |cs| == k + 1 {
      FreeRun(cs, k, x.data);
      assert cs[..k] == init;
    } else {
      ChainInit(x, cs, k);
      ChainRun(x, init, k);
    }
    ChainStep(x, cs, k);
  }

  lemma ChainStep(x: Setting, cs: seq<int>, k: nat)
    requires x.Sound() && Chain(x, cs, k)
    requires var st := Run(cs[..|cs| - 1], x.data); |st.done| == k && st.starter == k - 1
    ensures var st := Run(cs, x.data); |st.done| == k && st.starter == k - 1 && LongAt(x, st.done, k - 1)
  {
    var init, u := cs[..|cs| - 1], cs[|cs| - 1];
    SplitLast(cs);
    LosesNext(x, init, u);
    AllCombineNext(init, u, k, x.data);
    StepIsLong(x, Run(init, x.data), u);
  }

  lemma ChainInit(x: Setting, cs: seq<int>, k: nat)
    requires Chain(x, cs, k) && |cs| > k + 1
    ensures Chain(x, cs[..|cs| - 1], k)
  {
    var init, u := cs[..|cs| - 1], cs[|cs| - 1];
    SplitLast(cs);
    LosesNext(x, init, u);
    AllCombineNext(init, u, k, x.data);
    FreeInPrefix(init, [u], k, x.data);
    assert init[..k] == cs[..k];
  }

  /** What a chain writes last. */
  lemma ChainEnd(x: Setting, cs: seq<int>, k: nat)
    requires x.Sound() && Chain(x, cs, k)
    ensures var st, u := Run(cs[..|cs| - 1], x.data), cs[|cs| - 1];
      && st.starter == k - 1 < |st.done| && Combines(st, u, x.data) && !Loses(x, st, u)
      && Run(cs, x.data).done[k - 1] == x.data.Ligature(st.done[k - 1], u)
      && (if |cs| == k + 1 then st.done[k - 1] == cs[k - 1] else LongAt(x, st.done, k - 1))
  {
    var init, u := cs[..|cs| - 1], cs[|cs| - 1];
    SplitLast(cs);
    LosesNext(x, init, u);
    AllCombineNext(init, u, k, x.data);
    ChainRun(x, cs, k);
    if |cs| == k + 1 {
      FreeRun(cs, k, x.data);
      assert cs[..k] == init;
    } else {
      ChainInit(x, cs, k);
      ChainRun(x, init, k);
    }
  }

  // ---------- What a long chain is ----------

  lemma JamoIsShort(x: Setting, u: int)
    requires x.Sound() && 0x1100 <= u < 0x1200
    ensures Length(u, x.Rep(), x.rank) == 1
  {
    LengthOfPlain(u, x.Rep(), x.rank);
  }

  lemma FrontOfPairIsShort(x: Setting, c: int, a: Unit, u: Unit)
    requires x.Sound() && x.data.pair(a, u) != 0 && x.Rep()(c) == Some([a, u]) && FitsInside(c, x.Rep(), x.rank)
    ensures Length(a, x.Rep(), x.rank) == 1
  {
    PairIsPoints(a, u, x.data);
    FitsInsideIs(c, [a, u], x.Rep(), x.rank);
    assert [a, u][..1] == [a] && [a][0] == a;
    LigatureIsScalarPair(x.data, a, u);
  }

  lemma LigatureIsScalarPair(data: UnicodeData, a: Unit, u: Unit)
    requires ComposingTables(data) && data.pair(a, u) != 0
    ensures Width(a) == 1
  {}

  /** Of table ligatures, only those of jamo could be syllables. */
  lemma SyllablePair(data: UnicodeData, a: Unit, u: Unit)
    requires SoundHangul(data) && PairsDecompose(data) && data.pair(a, u) != 0
    ensures IsSyllable(data.pair(a, u)) ==> IsLeading(a) && IsVowel(u)
  {
    if IsSyllable(data.pair(a, u)) {
      PairForSyllable(data, a, u);
    }
  }

  /** Only a syllable can be made of something long and still fit. */
  lemma LongBase(x: Setting, base: int, u: int)
    requires x.Sound() && 0 <= base < 0x1_0000 && Length(base, x.Rep(), x.rank) >= 2
    requires x.data.Ligature(base, u) != 0 && x.Rep()(x.data.Ligature(base, u)).Some?
    requires !(IsOpenSyllable(base) && IsStray(u)) && FitsInside(x.data.Ligature(base, u), x.Rep(), x.rank)
    ensures IsOpenSyllable(base) && IsTrailing(u) && x.Knows(HANGUL_S_BASE)
  {
    var c := x.data.Ligature(base, u);
    LigatureReplaced(x, base, u);
    if IsLeading(base) {
      JamoIsShort(x, base);
    } else if x.data.pair(base, u) == c {
      SyllablePair(x.data, base, u);
      FrontOfPairIsShort(x, c, base, u);
    }
  }

  /** An open syllable is made of a leading consonant and a vowel. */
  lemma OpenMadeOf(x: Setting, a: int, v: int)
    requires x.Sound() && x.data.Ligature(a, v) != 0 && IsOpenSyllable(x.data.Ligature(a, v))
    requires !(IsOpenSyllable(a) && IsStray(v))
    ensures IsLeading(a) && IsVowel(v)
  {
    if IsOpenSyllable(a) && IsTrailing(v) {
      JamoOfLVT(a, v);
    } else if x.data.pair(a, v) == x.data.Ligature(a, v) {
      SyllablePair(x.data, a, v);
    }
  }

  /** The last code point of the composed text fits inside. */
  ghost predicate EndFitsInside(x: Setting, cs: seq<int>)
    requires WellFounded(x.Rep(), x.rank)
  {
    var done := Run(cs, x.data).done;
    done != [] && FitsInside(done[|done| - 1], x.Rep(), x.rank)
  }

  /** A chain that makes an open syllable is one of a leading consonant and a vowel. */
  lemma OpenChain(x: Setting, cs: seq<int>, k: nat)
    requires x.Sound() && Chain(x, cs, k) && k <= |Run(cs, x.data).done| && IsOpenSyllable(Run(cs, x.data).done[k - 1])
    ensures |cs| == k + 1 && IsLeading(cs[k - 1]) && IsVowel(cs[k])
  {
    ChainEnd(x, cs, k);
    var base := Run(cs[..|cs| - 1], x.data).done[k - 1];
    OpenMadeOf(x, base, cs[|cs| - 1]);
    JamoIsShort(x, base);
  }

  /** So a chain that fits is a ligature of two code points or the jamo of a syllable. */
  lemma ChainComesBack(x: Setting, cs: seq<int>, k: nat)
    requires x.Sound() && Chain(x, cs, k) && EndFitsInside(x, cs)
    ensures LastTwoCombine(x, cs) || EndsInSyllable(x, cs)
  {
    ChainEnd(x, cs, k);
    if |cs| > k + 1 {
      SyllableChain(x, cs, k);
    }
  }

  /** The end of a longer chain is a trailing consonant behind an open syllable. */
  lemma LongChain(x: Setting, cs: seq<int>, k: nat)
    requires x.Sound() && Chain(x, cs, k) && |cs| > k + 1 && EndFitsInside(x, cs)
    ensures var done := Run(cs[..|cs| - 1], x.data).done;
      k == |done| && IsOpenSyllable(done[k - 1]) && IsTrailing(cs[|cs| - 1]) && x.Knows(HANGUL_S_BASE)
  {
    ChainRun(x, cs, k);
    ChainEnd(x, cs, k);
    ChainInit(x, cs, k);
    ChainRun(x, cs[..|cs| - 1], k);
    LongBase(x, Run(cs[..|cs| - 1], x.data).done[k - 1], cs[|cs| - 1]);
  }

  lemma SyllableChain(x: Setting, cs: seq<int>, k: nat)
    requires x.Sound() && Chain(x, cs, k) && |cs| > k + 1 && EndFitsInside(x, cs)
    ensures EndsInSyllable(x, cs)
  {
    LongChain(x, cs, k);
    FrontOfChain(x, cs, k);
    SyllableAtEnd(x, cs, k);
  }

  /** In front of it a leading consonant and a vowel have made that syllable. */
  lemma FrontOfChain(x: Setting, cs: seq<int>, k: nat)
    requires x.Sound() && Chain(x, cs, k) && |cs| > k + 1 && k <= |Run(cs[..|cs| - 1], x.data).done|
    requires IsOpenSyllable(Run(cs[..|cs| - 1], x.data).done[k - 1])
    ensures |cs| == k + 2 && IsLeading(cs[k - 1]) && IsVowel(cs[k])
  {
    ChainInit(x, cs, k);
    OpenChain(x, cs[..|cs| - 1], k);
  }

  lemma SyllableAtEnd(x: Setting, cs: seq<int>, k: nat)
    requires |cs| == k + 2 && k > 0 && FreeUpTo(cs, k, x.data) && x.Knows(HANGUL_S_BASE)
    requires IsLeading(cs[k - 1]) && IsVowel(cs[k]) && IsTrailing(cs[k + 1])
    ensures EndsInSyllable(x, cs)
  {}

  // ---------- The exact condition ----------

  lemma {:induction false} FirstMeeting(cs: seq<int>, n: nat, data: UnicodeData) returns (k: nat)
    requires !FreeUpTo(cs, n, data)
    ensures k < n && Meets(cs, k, data) && FreeUpTo(cs, k, data)
  {
    k := n - 1;
    if !FreeUpTo(cs, n - 1, data) {
      k := FirstMeeting(cs, n - 1, data);
    }
  }

  /** The state at the first ligature. */
  lemma FirstState(cs: seq<int>, k: nat, data: UnicodeData)
    requires ComposingTables(data) && k < |cs| && Meets(cs, k, data) && FreeUpTo(cs, k, data)
    ensures var st := Run(cs[..k], data);
      && st.Valid() && |st.done| == k && LastStarter(cs[..k], data) == Some(st.starter)
      && Combines(st, cs[k], data) && Run(cs[..k + 1], data) == Step(st, cs[k], data)
  {
    FreeRun(cs, k, data);
    FirstMeets(cs, k, data);
    RunSnoc(cs, k + 1, data);
  }

  /** The first ligature is long, and nothing has come behind the text in front of it. */
  lemma FirstIsLong(x: Setting, cs: seq<int>, k: nat)
    requires x.Sound() && FullyDecomposed(cs, x.Rep()) && !LosesSome(x, cs)
    requires Meets(cs, k, x.data) && FreeUpTo(cs, k, x.data)
    ensures var st := Run(cs[..k + 1], x.data);
      && Combines(Run(cs[..k], x.data), cs[k], x.data) && |st.done| == k
      && LastStarter(cs[..k], x.data) == Some(st.starter) && LongAt(x, st.done, st.starter)
  {
    var st := Run(cs[..k], x.data);
    FirstState(cs, k, x.data);
    assert !LosesAt(x, cs, k);
    StepIsLong(x, st, cs[k]);
  }

  lemma StepIsLong(x: Setting, st: State, u: int)
    requires x.Sound() && st.Valid() && x.Rep()(u).None? && !Loses(x, st, u) && Combines(st, u, x.data)
    ensures var st' := Step(st, u, x.data);
      LongAt(x, st'.done, st'.starter) && |st'.done| == |st.done| && st'.starter == st.starter
  {
    StepKeepsLong(x, st, u, st.starter);
  }

  lemma LongIsAtEnd(x: Setting, cs: seq<int>, done: seq<int>, i: int)
    requires x.Sound() && done == Run(cs, x.data).done && Fits(done, 0, true, x.Rep(), x.rank) && LongAt(x, done, i)
    ensures i == |done| - 1 && EndFitsInside(x, cs)
  {
    LongIsLast(x, done, i);
    EndIsInside(x, cs, done);
  }

  lemma EndIsInside(x: Setting, cs: seq<int>, done: seq<int>)
    requires WellFounded(x.Rep(), x.rank) && done == Run(cs, x.data).done != []
    requires FitsInside(done[|done| - 1], x.Rep(), x.rank)
    ensures EndFitsInside(x, cs)
  {}

  /** What is long behind the first ligature is long at the end. */
  lemma LongEnd(x: Setting, cs: seq<int>, k: nat)
    requires x.Sound() && FullyDecomposed(cs, x.Rep()) && !LosesSome(x, cs) && k < |cs|
    requires Fits(Run(cs, x.data).done, 0, true, x.Rep(), x.rank)
    requires var st := Run(cs[..k + 1], x.data); LongAt(x, st.done, st.starter)
    ensures var st, done := Run(cs[..k + 1], x.data), Run(cs, x.data).done;
      && |st.done| <= |done| == st.starter + 1 && (|st.done| == |done| ==> AllCombine(cs, k + 1, x.data))
    ensures EndFitsInside(x, cs)
  {
    var i := Run(cs[..k + 1], x.data).starter;
    LongStays(x, cs, k + 1, i);
    LongIsAtEnd(x, cs, Run(cs, x.data).done, i);
  }

  /** Where nothing is lost and everything fits, whatever combines does so in a chain at the end. */
  lemma FittingIsChain(x: Setting, cs: seq<int>, k: nat)
    requires x.Sound() && FullyDecomposed(cs, x.Rep()) && !LosesSome(x, cs)
    requires Fits(Run(cs, x.data).done, 0, true, x.Rep(), x.rank) && Meets(cs, k, x.data) && FreeUpTo(cs, k, x.data)
    ensures Chain(x, cs, k) && EndFitsInside(x, cs)
  {
    FirstIsLong(x, cs, k);
    LongEnd(x, cs, k);
    ChainIs(x, cs, k, Run(cs[..k + 1], x.data), Run(cs, x.data).done);
  }

  /** What a state behind the first ligature and the final text have to do with each other in a chain. */
  lemma ChainIs(x: Setting, cs: seq<int>, k: nat, st: State, done: seq<int>)
    requires k < |cs| && FullyDecomposed(cs, x.Rep()) && !LosesSome(x, cs) && FreeUpTo(cs, k, x.data)
    requires LastStarter(cs[..k], x.data) == Some(st.starter) && Combines(Run(cs[..k], x.data), cs[k], x.data)
    requires |st.done| == k <= |done| == st.starter + 1
    requires |st.done| == |done| ==> AllCombine(cs, k + 1, x.data)
    ensures Chain(x, cs, k) && k == |done| && st.starter == k - 1
  {
    AllCombineFrom(cs, k, x.data);
  }

  lemma AllCombineFrom(cs: seq<int>, k: nat, data: UnicodeData)
    requires k < |cs| && Combines(Run(cs[..k], data), cs[k], data) && AllCombine(cs, k + 1, data)
    ensures AllCombine(cs, k, data)
  {}

  /** If the loops give back what was composed, nothing has been lost, and what was composed fits. */
  lemma NothingLost(x: Setting, s: seq<Unit>)
    requires x.Sound() && AllPlain(CodePoints(s), x.Rep()) && CallD(x, Composed(s, x.data)) == s
    ensures !LosesSome(x, CodePoints(s)) && Fits(Run(CodePoints(s), x.data).done, 0, true, x.Rep(), x.rank)
  {
    var t := Composed(s, x.data);
    if !Fits(Run(CodePoints(s), x.data).done, 0, true, x.Rep(), x.rank) {
      ComposedMisfits(x, s);
    }
    ComposedPoints(x, s);
    CallIsForm(x, t);
    OrderingKeepsLength(Decomposed(t, x.Rep(), x.rank), x.Cls());
    RunLength(x, CodePoints(s));
    TextOfCodePoints(s);
  }

  /**
   * The loops give back what the composing loop was given exactly when it is decomposed, the ordering
   * loop leaves it alone, and nothing in it combines but the last two code points, or the jamo of a
   * last syllable, to something that the version decomposes.
   */
  lemma CallUndoesCompositionExactly(x: Setting, s: seq<Unit>)
    requires x.Sound() && NoHigh(CodePoints(s))
    ensures var cs := CodePoints(s);
      CallD(x, Composed(s, x.data)) == s
      <==> FullyDecomposed(cs, x.Rep()) && LoopOrder(cs, x.Cls()) == cs && ComesBack(x, cs)
  {
    var cs := CodePoints(s);
    ComposedAsPoints(s, x.data);
    CodePointsOfText(Run(cs, x.data).done);
    if CallD(x, Composed(s, x.data)) == s {
      CallPointsArePlain(x, Composed(s, x.data));
      OnlyEndsComeBack(x, s);
    } else if FullyDecomposed(cs, x.Rep()) && LoopOrder(cs, x.Cls()) == cs && ComesBack(x, cs) {
      EndsComeBack(x, s);
    }
  }

  lemma OnlyEndsComeBack(x: Setting, s: seq<Unit>)
    requires x.Sound() && AllPlain(CodePoints(s), x.Rep()) && CallD(x, Composed(s, x.data)) == s
    ensures ComesBack(x, CodePoints(s))
  {
    var cs := CodePoints(s);
    if !FreeUpTo(cs, |cs|, x.data) {
      var k := FirstMeeting(cs, |cs|, x.data);
      NothingLost(x, s);
      FittingIsChain(x, cs, k);
      ChainComesBack(x, cs, k);
    }
  }

  lemma EndsComeBack(x: Setting, s: seq<Unit>)
    requires x.Sound() && AllPlain(CodePoints(s), x.Rep()) && LoopOrder(CodePoints(s), x.Cls()) == CodePoints(s)
    requires ComesBack(x, CodePoints(s))
    ensures CallD(x, Composed(s, x.data)) == s
  {
    var cs := CodePoints(s);
    if FreeUpTo(cs, |cs|, x.data) {
      FreeComesBack(x, s);
    } else if LastTwoCombine(x, cs) {
      LastTwo(x, s);
    } else {
      LastSyllable(x, s);
    }
  }

  // ---------- The forms that the call returns ----------

  /** Decomposing a composed string gives what decomposing it at once does under the same condition. */
  lemma CallFormsExactly(x: Setting, s: seq<Unit>)
    requires x.Sound() && NoHigh(CodePoints(s))
    ensures CallD(x, CallC(x, s)) == CallD(x, s) <==> ComesBack(x, CallPoints(x, s))
  {
    CallPointsArePlain(x, s);
    CallUndoesCompositionExactly(x, CallD(x, s));
  }

  /** Strings that meet it have the same composed form exactly when they have the same decomposed form. */
  lemma CallsAgree(x: Setting, s: seq<Unit>, t: seq<Unit>)
    requires x.Sound() && NoHigh(CodePoints(s)) && NoHigh(CodePoints(t))
    requires ComesBack(x, CallPoints(x, s)) && ComesBack(x, CallPoints(x, t))
    ensures CallC(x, s) == CallC(x, t) <==> CallD(x, s) == CallD(x, t)
  {
    CallFormsExactly(x, s);
    CallFormsExactly(x, t);
  }
}

/**
 * The decomposed form by recursive decomposition, and when that and the ordering loop undo what the
 * composing loop has done.
 */
module Normalize {
  import opened Units
  import opened UnicodeTables
  import opened Utf16Text
  import opened CanonicalOrder
  import opened CanonicalOrderLoop
  import opened Decompose
  import opened Compose
  import opened Soundness
  import opened Recomposition
  import opened CompositionLoss
  import opened TailLoss

  // ---------- Decomposition and order ----------

  /**
   * The decomposed and the composed forms, with decomposition as it is meant; `canonical` selects D
   * and C or KD and KC.
   */
  ghost function FormD(x: Setting, s: seq<Unit>): seq<Unit>
    requires WellFounded(x.Rep(), x.rank)
  {
    Text(LoopOrder(CodePoints(Decomposed(s, x.Rep(), x.rank)), x.Cls()))
  }

  ghost function FormC(x: Setting, s: seq<Unit>): seq<Unit>
    requires WellFounded(x.Rep(), x.rank)
  {
    Composed(FormD(x, s), x.data)
  }

  /** The decomposed form as code points. */
  ghost function PointsD(x: Setting, cs: seq<int>): seq<int>
    requires WellFounded(x.Rep(), x.rank)
  {
    LoopOrder(x.Dec(cs), x.Cls())
  }

  lemma LoopOrderKeepsScalars(cs: seq<int>, cls: int -> nat)
    requires AllScalar(cs)
    ensures AllScalar(LoopOrder(cs, cls)) && |LoopOrder(cs, cls)| == |cs|
  {
    LoopOrderKeepsElements(cs, cls);
  }

  /** In well-formed text the decomposed form is a matter of code points. */
  lemma PointsOfFormD(x: Setting, s: seq<Unit>)
    requires WellFounded(x.Rep(), x.rank) && WellFormed(x.Rep()) && AllScalar(CodePoints(s))
    ensures var f := PointsD(x, CodePoints(s));
      AllScalar(f) && FormD(x, s) == Text(f) && CodePoints(FormD(x, s)) == f
  {
    var d := x.Dec(CodePoints(s));
    PointsOfDecomposed(s, x.Rep(), x.rank);
    ExpandAllIsWellFormed(CodePoints(s), x.Rep(), x.rank);
    LoopOrderKeepsScalars(d, x.Cls());
    RestoredPoints(LoopOrder(d, x.Cls()));
  }

  lemma RestoredPoints(cs: seq<int>)
    requires AllScalar(cs)
    ensures CodePoints(Text(cs)) == cs
  {
    CodePointsOfText(cs);
  }

  /** A decomposed form is fully decomposed, and the ordering loop leaves it alone. */
  lemma PointsDStay(x: Setting, cs: seq<int>)
    requires WellFounded(x.Rep(), x.rank)
    ensures var f := PointsD(x, cs);
      FullyDecomposed(f, x.Rep()) && LoopOrder(f, x.Cls()) == f && PointsD(x, f) == f
  {
    var d := x.Dec(cs);
    var f := LoopOrder(d, x.Cls());
    ExpandAllIsFull(cs, x.Rep(), x.rank);
    LoopOrderKeepsElements(d, x.Cls());
    LoopOrderStays(d, x.Cls());
    FullyDecomposedStays(f, x.Rep(), x.rank);
  }

  /** Decomposing and ordering twice is decomposing and ordering once, whatever the text begins with. */
  lemma FormDStays(x: Setting, s: seq<Unit>)
    requires WellFounded(x.Rep(), x.rank) && WellFormed(x.Rep()) && AllScalar(CodePoints(s))
    ensures FormD(x, FormD(x, s)) == FormD(x, s)
  {
    PointsOfFormD(x, s);
    PointsOfFormD(x, FormD(x, s));
    PointsDStay(x, CodePoints(s));
  }

  // ---------- The three loops on code points ----------

  /** What composing, decomposing and ordering make of a text. */
  ghost function Restored(x: Setting, cs: seq<int>): seq<int>
    requires WellFounded(x.Rep(), x.rank)
  {
    PointsD(x, Run(cs, x.data).done)
  }

  /** What the ordering loop can leave behind decomposition: in order, or with a skipped mark at the end. */
  ghost predicate FixedInput(x: Setting, cs: seq<int>) {
    AllScalar(cs) && FullyDecomposed(cs, x.Rep()) && LoopOrder(cs, x.Cls()) == cs && Begins(x, cs)
  }

  lemma FixedInputIs(x: Setting, cs: seq<int>)
    requires FixedInput(x, cs)
    ensures Input(x, cs) || (|cs| >= 2 && Input(x, cs[..|cs| - 1]) && Skips(cs[|cs| - 1], cs[|cs| - 2], x.Cls()))
  {
    FixedExactly(cs, x.Cls());
  }

  // ---------- What the decomposition of a composed text ends in ----------

  /** The decomposition of `done`, composed from `cs`, ends in the last mark of `done`, or else in that of `cs`. */
  ghost predicate EndsWell(x: Setting, done: seq<int>, cs: seq<int>)
    requires WellFounded(x.Rep(), x.rank) && cs != []
  {
    var d := x.Dec(done);
    && done != [] && d != []
    && d[|d| - 1] == if x.Cls()(done[|done| - 1]) != 0 then done[|done| - 1] else cs[|cs| - 1]
  }

  /** What the decomposition of a composed text ends in. */
  lemma LastOfDec(x: Setting, cs: seq<int>)
    requires x.Sound() && x.KnowsParts() && Input(x, cs) && !HasStray(cs) && !Outdated(x, cs)
    ensures EndsWell(x, Run(cs, x.data).done, cs)
  {
    var st := Run(cs, x.data);
    RunUndone(x, cs);
    if st.starter < |st.done| - 1 {
      TailEndsWell(x, cs);
    } else {
      LastOfStarter(x, cs);
      KnownClass(x, st.done[|st.done| - 1]);
    }
  }

  lemma TailEndsWell(x: Setting, cs: seq<int>)
    requires x.Sound() && cs != [] && !Outdated(x, cs)
    requires var st := Run(cs, x.data); Undone(x, st, cs[|cs| - 1]) && st.starter < |st.done| - 1
    ensures EndsWell(x, Run(cs, x.data).done, cs)
  {
    LastOfTail(x, Run(cs, x.data), cs[|cs| - 1]);
    LastIsLeft(x, cs);
  }

  /** If the last code point combines, nothing behind the starter is unknown. */
  lemma LastCombinesUntainted(x: Setting, cs: seq<int>)
    requires cs != [] && !Outdated(x, cs) && Combines(Run(cs[..|cs| - 1], x.data), cs[|cs| - 1], x.data)
    ensures !Tainted(x, Run(cs, x.data))
  {
    var st := Run(cs[..|cs| - 1], x.data);
    SplitLast(cs);
    OutdatedNext(x, cs[..|cs| - 1], cs[|cs| - 1]);
    assert !Tainted(x, st);
    if st.done != [] {
      CombineKeeps(st, cs[|cs| - 1], x.data);
    }
  }

  /** A code point behind the starter that the version takes for one is what was read last. */
  lemma LastIsLeft(x: Setting, cs: seq<int>)
    requires cs != [] && !Outdated(x, cs)
    requires var st := Run(cs, x.data); st.starter < |st.done| - 1
    ensures var done := Run(cs, x.data).done;
      x.Cls()(done[|done| - 1]) == 0 ==> done[|done| - 1] == cs[|cs| - 1]
  {
    if Combines(Run(cs[..|cs| - 1], x.data), cs[|cs| - 1], x.data) {
      LastCombinesUntainted(x, cs);
    }
  }

  /** A mark behind the starter is its own decomposition. */
  lemma LastOfTail(x: Setting, st: State, prev: int)
    requires x.Sound() && Undone(x, st, prev) && st.starter < |st.done| - 1
    ensures var d := x.Dec(st.done); d != [] && d[|d| - 1] == st.done[|st.done| - 1]
  {
    SplitLast(st.done);
    DecNext(x, st.done[..|st.done| - 1], st.done[|st.done| - 1]);
  }

  /** A starter at the end has just been written or overwritten. */
  lemma LastOfStarter(x: Setting, cs: seq<int>)
    requires x.Sound() && x.KnowsParts() && Input(x, cs) && !HasStray(cs) && !Outdated(x, cs)
    requires var st := Run(cs, x.data); st.starter == |st.done| - 1
    ensures var d := x.Dec(Run(cs, x.data).done); d != [] && d[|d| - 1] == cs[|cs| - 1]
  {
    if |cs| == 1 {
      RunOfOne(cs, x.data);
      DecOfFull(x, cs);
    } else {
      var init, u := cs[..|cs| - 1], cs[|cs| - 1];
      NoStrayInPrefix(cs);
      InputPrefix(x, cs);
      SplitLast(cs);
      OutdatedNext(x, init, u);
      RunUndone(x, init);
      RunReorders(x, init);
      LastOfStep(x, Run(init, x.data), cs[|cs| - 2], init, u);
    }
  }

  lemma LastOfStep(x: Setting, st: State, prev: int, init: seq<int>, u: int)
    requires x.Sound() && Undone(x, st, prev) && Reordering(x.Dec(st.done), init, x.Cls()) && x.Rep()(u).None?
    requires !Outdates(x, st, u) && !(|init| >= 2 && StrayAt(init + [u], |init| - 2))
    requires var st' := Step(st, u, x.data); st'.starter == |st'.done| - 1
    ensures var d := x.Dec(Step(st, u, x.data).done); d != [] && d[|d| - 1] == u
  {
    if !Combines(st, u, x.data) {
      DecNext(x, st.done, u);
    } else {
      if IsOpenSyllable(Base(st, u)) && IsStray(u) {
        StrayWasThere(x, st, prev, init, u);
        assert false;
      }
      LigatureDecomposes(x, Base(st, u), u);
      FullOfPlain(x, u);
      DecOfWritten(x, st.done, st.starter, u, x.data.Ligature(Base(st, u), u), []);
    }
  }

  /** Given that canonical order restores the text, the loop does so unless it skips the end. */
  lemma RestoredUnlessEndSkipped(x: Setting, cs: seq<int>)
    requires WellFounded(x.Rep(), x.rank) && cs != [] && EndsWell(x, Run(cs, x.data).done, cs)
    requires Canonical(x.Dec(Run(cs, x.data).done), x.Cls()) == cs
    ensures Restored(x, cs) == cs <==> !EndSkipped(x, cs)
  {
    var cls, done := x.Cls(), Run(cs, x.data).done;
    var d, last := x.Dec(done), done[|done| - 1];
    assert d[|d| - 1] == if cls(last) != 0 then last else cs[|cs| - 1];
    RestoredUnlessSkipped(d, cs, last, cls);
  }

  lemma RestoredUnlessSkipped(d: seq<int>, cs: seq<int>, last: int, cls: int -> nat)
    requires d != [] && Canonical(d, cls) == cs
    requires d[|d| - 1] == if cls(last) != 0 then last else cs[|cs| - 1]
    ensures LoopOrder(d, cls) == cs <==> !Skips(last, cs[|cs| - 1], cls)
  {
    LoopOrdersExactly(d, cls);
  }

  /** Ordered text is restored exactly when it has no stray, stays within the version, and its tail is not lost. */
  lemma OrderedRestoredExactly(x: Setting, cs: seq<int>)
    requires x.Sound() && x.KnowsParts() && Input(x, cs)
    ensures Restored(x, cs) == cs <==> !HasStray(cs) && !Outdated(x, cs) && !TailLost(x, cs)
  {
    LoopOrderKeepsLength(x.Dec(Run(cs, x.data).done), x.Cls());
    if HasStray(cs) {
      StrayShortens(x, cs);
    } else if Outdated(x, cs) {
      OutdatedShows(x, cs);
    } else {
      CompositionUndoneExactly(x, cs);
      LastOfDec(x, cs);
      RestoredUnlessEndSkipped(x, cs);
      TailLostExactly(x, cs);
    }
  }

  // ---------- Text with a skipped mark at the end ----------

  /** A skipped mark at the end does not combine. */
  lemma SkippedIsLeft(x: Setting, c: seq<int>, z: int)
    requires x.Sound() && Input(x, c) && Skips(z, c[|c| - 1], x.Cls())
    ensures !Combines(Run(c, x.data), z, x.data)
    ensures Run(c + [z], x.data).done == Run(c, x.data).done + [z]
  {
    KnownClass(x, z);
    KnownClass(x, c[|c| - 1]);
    RunNext(c, z, x.data);
    if !IsPair(z) {
      PairIsLeft(Run(c[..|c| - 1], x.data), c[|c| - 1], x.data);
      assert |c| > 1;
      RunNotEmpty(c, |c| - 1, x.data);
      LeftAt(c, |c| - 1, |c|, x.data);
      assert c[..|c|] == c;
    }
  }

  lemma SkippedHasNoTail(x: Setting, c: seq<int>, z: int)
    requires x.Sound() && Input(x, c) && Skips(z, c[|c| - 1], x.Cls())
    ensures !TailLost(x, c + [z])
  {
    SkippedIsLeft(x, c, z);
    var cs := c + [z];
    assert cs[..|c|] == c && cs[|c|] == z;
    assert !Combines(Run(cs[..|c|], x.data), cs[|c|], x.data);
  }

  lemma StrayNotAtSkipped(x: Setting, c: seq<int>, z: int)
    requires x.Sound() && x.data.combining(z) != 0
    ensures HasStray(c + [z]) <==> HasStray(c)
  {
    if HasStray(c) {
      var i :| 0 <= i < |c| && StrayAt(c, i);
      assert StrayAt(c + [z], i);
    }
    if HasStray(c + [z]) {
      var i :| 0 <= i < |c + [z]| && StrayAt(c + [z], i);
      assert StrayAt(c, i);
    }
  }

  lemma SkippedRestoredExactly(x: Setting, c: seq<int>, z: int)
    requires x.Sound() && x.KnowsParts() && Input(x, c) && Skips(z, c[|c| - 1], x.Cls()) && x.Rep()(z).None?
    ensures Restored(x, c + [z]) == c + [z]
       <==> !HasStray(c + [z]) && !Outdated(x, c + [z]) && !TailLost(x, c + [z])
  {
    var e := x.Dec(Run(c, x.data).done);
    SkippedIsLeft(x, c, z);
    SkippedHasNoTail(x, c, z);
    KnownClass(x, z);
    OutdatedNext(x, c, z);
    StrayNotAtSkipped(x, c, z);
    DecNext(x, Run(c, x.data).done, z);
    LoopOrderKeepsLength(e + [z], x.Cls());
    if HasStray(c) {
      StrayShortens(x, c);
      TextNext(e, z);
      TextNext(c, z);
    } else if Outdated(x, c) {
      DecOfComposed(x, c, z);
      OutdatedFull(x, c, z);
      OutdatedShows(x, c + [z]);
    } else {
      CompositionUndoneExactly(x, c);
      SkippedAgain(e, z, c, x.Cls());
    }
  }

  lemma OutdatedFull(x: Setting, c: seq<int>, z: int)
    requires Input(x, c) && x.Rep()(z).None?
    ensures FullyDecomposed(c + [z], x.Rep())
  {}

  lemma DecOfComposed(x: Setting, c: seq<int>, z: int)
    requires x.Sound() && Run(c + [z], x.data).done == Run(c, x.data).done + [z] && x.Rep()(z).None?
    ensures x.Dec(Run(c + [z], x.data).done) == x.Dec(Run(c, x.data).done) + [z]
  {
    DecNext(x, Run(c, x.data).done, z);
  }

  lemma SkippedAgain(e: seq<int>, z: int, c: seq<int>, cls: int -> nat)
    requires c != [] && Canonical(e, cls) == c && (IsPair(z) || IsPair(c[|c| - 1]))
    ensures LoopOrder(e + [z], cls) == c + [z]
  {
    assert (e + [z])[..|e|] == e;
  }

  // ---------- The main results ----------

  ghost predicate Restorable(x: Setting, cs: seq<int>) {
    && FullyDecomposed(cs, x.Rep()) && LoopOrder(cs, x.Cls()) == cs
    && !HasStray(cs) && !Outdated(x, cs) && !TailLost(x, cs)
  }

  lemma RestoredExactly(x: Setting, cs: seq<int>)
    requires x.Sound() && x.KnowsParts() && AllScalar(cs) && Begins(x, cs)
    ensures Restored(x, cs) == cs <==> Restorable(x, cs)
  {
    PointsDStay(x, Run(cs, x.data).done);
    if FixedInput(x, cs) {
      FixedInputIs(x, cs);
      if Input(x, cs) {
        OrderedRestoredExactly(x, cs);
      } else {
        var c, z := cs[..|cs| - 1], cs[|cs| - 1];
        assert cs == c + [z];
        SkippedRestoredExactly(x, c, z);
      }
    }
  }

  /**
   * For every well-formed text that does not begin with a mark: composition is undone by recursive
   * decomposition and the ordering loop exactly when the text is decomposed, is left alone by the
   * ordering loop, has no stray, stays within what the version knows, and loses no tail.
   */
  lemma CompositionUndoneByOrderingExactly(x: Setting, s: seq<Unit>)
    requires x.Sound() && x.KnowsParts() && AllScalar(CodePoints(s)) && Begins(x, CodePoints(s))
    ensures FormD(x, Composed(s, x.data)) == s <==> Restorable(x, CodePoints(s))
  {
    var cs, t := CodePoints(s), Composed(s, x.data);
    ComposedAsPoints(s, x.data);
    RestoredPoints(Run(cs, x.data).done);
    PointsOfFormD(x, t);
    TextOfCodePoints(s);
    RestoredExactly(x, cs);
  }

  /** No supplementary mark stands behind the last starter. */
  ghost predicate TailIsBasic(x: Setting, cs: seq<int>) {
    forall j :: 0 <= j < |cs| && IsPair(cs[j]) && x.data.combining(cs[j]) != 0 ==>
      exists k :: j < k < |cs| && x.data.combining(cs[k]) == 0
  }

  /** Then, as in all text of the Basic Multilingual Plane, no tail is lost. */
  lemma BasicTailIsKept(x: Setting, cs: seq<int>)
    requires Begins(x, cs) && TailIsBasic(x, cs)
    ensures !TailLost(x, cs)
  {
    if TailLost(x, cs) {
      var j :| LostAt(x, cs, j);
      KnownClass(x, cs[j]);
      var k :| j < k < |cs| && x.data.combining(cs[k]) == 0;
      LostTailHasNoStarter(x, cs, j, k);
    }
  }

  // ---------- Text that the version knows ----------

  ghost predicate AllKnown(x: Setting, cs: seq<int>) {
    forall i :: 0 <= i < |cs| ==> x.Knows(cs[i])
  }

  /** What is made of code points that the version knows is known to it, as it is from Unicode 3.0 on. */
  ghost predicate KnowsLigatures(x: Setting) {
    forall a: int, b: int :: x.Knows(a) && x.Knows(b) && x.data.Ligature(a, b) != 0 ==> x.Knows(x.data.Ligature(a, b))
  }

  lemma KnownLigatureDecomposes(x: Setting, a: int, u: int)
    requires x.Sound() && KnowsLigatures(x) && x.Knows(a) && x.Knows(u) && x.data.Ligature(a, u) != 0
    ensures x.Rep()(x.data.Ligature(a, u)).Some? || IsStrayOn(x, a, u)
  {
    var c := x.data.Ligature(a, u);
    assert x.Knows(c);
    if x.data.pair(a, u) == c {
      assert x.data.DecompositionHelper(c).Some?;
    }
  }

  /** Then composition does not go beyond the version. */
  lemma {:induction false} KnownStaysKnown(x: Setting, cs: seq<int>)
    requires x.Sound() && KnowsLigatures(x) && AllKnown(x, cs)
    ensures !Outdated(x, cs) && AllKnown(x, Run(cs, x.data).done)
    ensures forall k :: 0 < k < |Run(cs, x.data).done| && k > Run(cs, x.data).starter ==>
      x.data.combining(Run(cs, x.data).done[k]) != 0
  {
    if cs != [] {
      var init, u := cs[..|cs| - 1], cs[|cs| - 1];
      var st := Run(init, x.data);
      SplitLast(cs);
      KnownStaysKnown(x, init);
      OutdatedNext(x, init, u);
      if Combines(st, u, x.data) {
        CombinesWithSomething(st, u, x.data);
        KnownLigatureDecomposes(x, Base(st, u), u);
      }
    }
  }

  // ---------- An example ----------

  /** A starter, a supplementary mark and a mark of higher class that combines with the starter. */
  ghost predicate PassesPair(x: Setting, a: Unit, m: int, n: Unit, lig: Unit) {
    && x.Rep()(a).None? && x.Rep()(m).None? && x.Rep()(n).None? && x.Rep()(lig).Some?
    && x.data.combining(a) == 0 < x.data.combining(m) < x.data.combining(n) && x.Knows(m) && x.Knows(n)
    && x.data.Ligature(a, n) == lig != 0 && !IsStray(n)
    && IsPair(m) && AllScalar([a, m, n]) && AllScalar([lig, m])
  }

  lemma PutTogether(a: int, b: int, c: int, d: int)
    ensures [a] + [b] == [a, b] && [a, b] + [c] == [a, b, c] && [a, b][0 := d] == [d, b]
  {}

  lemma PassingRun(x: Setting, a: Unit, m: int, n: Unit, lig: Unit)
    requires x.Sound() && PassesPair(x, a, m, n, lig)
    ensures Run([a, m, n], x.data).done == [lig, m]
  {
    RunOfOne([a], x.data);
    RunNext([a], m, x.data);
    RunNext([a, m], n, x.data);
    PutTogether(a, m, n, lig);
  }

  lemma PassingDec(x: Setting, a: Unit, m: int, n: Unit, lig: Unit)
    requires x.Sound() && PassesPair(x, a, m, n, lig)
    ensures x.Dec([lig, m]) == [a, n, m]
    ensures x.Dec([a, m, n]) == [a, m, n]
  {
    DecOfFull(x, [a, m, n]);
    DecNext(x, [lig], m);
    DecOfOne(x, lig);
    LigatureDecomposes(x, a, n);
    FullOfPlain(x, a);
    FullOfPlain(x, n);
    PutTogether(lig, m, 0, 0);
    PutTogether(a, n, m, 0);
  }

  lemma PassingOrders(x: Setting, a: Unit, m: int, n: Unit, lig: Unit)
    requires x.Sound() && PassesPair(x, a, m, n, lig)
    ensures LoopOrder([a, m, n], x.Cls()) == [a, m, n]
    ensures LoopOrder([a, n, m], x.Cls()) == [a, n, m]
  {
    KnownClass(x, a);
    OrderedStays([a, m, n], x.Cls());
    SkippedStays([a, n], m, x.Cls());
    PutTogether(a, n, m, 0);
  }

  lemma FormDOfText(x: Setting, cs: seq<int>, d: seq<int>, f: seq<int>)
    requires WellFounded(x.Rep(), x.rank) && WellFormed(x.Rep()) && AllScalar(cs)
    requires x.Dec(cs) == d && LoopOrder(d, x.Cls()) == f
    ensures FormD(x, Text(cs)) == Text(f)
  {
    RestoredPoints(cs);
    PointsOfFormD(x, Text(cs));
  }

  lemma ComposedOfText(x: Setting, cs: seq<int>)
    requires x.Sound() && AllScalar(cs) && Begins(x, cs)
    ensures Composed(Text(cs), x.data) == Text(Run(cs, x.data).done)
  {
    RestoredPoints(cs);
    ComposedAsPoints(Text(cs), x.data);
  }

  lemma PassingForms(x: Setting, a: Unit, m: int, n: Unit, lig: Unit)
    requires x.Sound() && PassesPair(x, a, m, n, lig)
    ensures FormD(x, Text([a, m, n])) == Text([a, m, n]) && FormD(x, Text([lig, m])) == Text([a, n, m])
  {
    PassingDec(x, a, m, n, lig);
    PassingOrders(x, a, m, n, lig);
    FormDOfText(x, [a, m, n], [a, m, n], [a, m, n]);
    FormDOfText(x, [lig, m], [a, n, m], [a, n, m]);
  }

  /** Such text is in canonical order, but comes back with its marks exchanged. */
  lemma MarksComeBackExchanged(x: Setting, a: Unit, m: int, n: Unit, lig: Unit)
    requires x.Sound() && PassesPair(x, a, m, n, lig)
    ensures var s := Text([a, m, n]);
      && FormD(x, s) == s && Composed(s, x.data) == Text([lig, m])
      && FormD(x, Composed(s, x.data)) == Text([a, n, m])
  {
    PassingForms(x, a, m, n, lig);
    PassingRun(x, a, m, n, lig);
    ComposedOfText(x, [a, m, n]);
  }

  /** What the tables say of U+0061, U+0301 and U+1D165. */
  ghost predicate ExampleTables(x: Setting) {
    && x.Rep()(0x61).None? && x.Rep()(0x301).None? && x.Rep()(0x1d165).None?
    && x.Knows(0xe1) && x.Knows(0x301) && x.Knows(0x1d165)
    && x.data.combining(0x61) == 0 && x.data.combining(0x301) == 230 && x.data.combining(0x1d165) == 216
    && x.data.pair(0x61, 0x301) == 0xe1
  }

  lemma ExamplePasses(x: Setting)
    requires x.Sound() && ExampleTables(x)
    ensures PassesPair(x, 0x61, 0x1d165, 0x301, 0xe1)
  {
    assert x.data.DecompositionHelper(x.data.pair(0x61, 0x301)).Some?;
  }

  /** U+0061 U+1D165 U+0301 is such text. */
  lemma TailExample(x: Setting)
    requires x.Sound() && ExampleTables(x)
    ensures var s := Text([0x61, 0x1d165, 0x301]);
      && FormD(x, s) == s && Composed(s, x.data) == Text([0xe1, 0x1d165])
      && FormD(x, Composed(s, x.data)) == Text([0x61, 0x301, 0x1d165])
  {
    ExamplePasses(x);
    MarksComeBackExchanged(x, 0x61, 0x1d165, 0x301, 0xe1);
  }
}

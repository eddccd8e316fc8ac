/**
 * When normalizing a second time changes nothing. In every version, and for text that the loops may
 * already have spoilt.
 */
module CallRoundTrip {
  import opened Units
  import opened UnicodeTables
  import opened Utf16Text
  import opened CanonicalOrderLoop
  import opened Decompose
  import opened DecompositionLoss
  import opened LoopResult
  import opened Compose
  import opened Soundness
  import opened Recomposition
  import opened CompositionLoss
  import opened Normalize
  import opened FormStability
  import opened NormalizationCall

  // ---------- Composed text only grows when it is decomposed ----------

  lemma LigatureGrows(x: Setting, a: int, u: int)
    requires x.Sound() && x.data.Ligature(a, u) != 0 && Grows(a, x.Rep(), x.rank) && x.Rep()(u).None?
    ensures Grows(x.data.Ligature(a, u), x.Rep(), x.rank)
  {
    var c := x.data.Ligature(a, u);
    if x.Rep()(c).Some? {
      LigatureReplaced(x, a, u);
      if IsSyllable(c) {
        SyllableGrows(x, c);
      } else {
        PairIsPoints(a, u, x.data);
      }
    }
  }

  lemma SyllableGrows(x: Setting, c: int)
    requires x.Sound() && IsSyllable(c) && x.Rep()(c) == Some(Jamo(c))
    ensures Grows(c, x.Rep(), x.rank)
  {
    CodePointsOfUnits(Jamo(c));
    forall i | 0 <= i < |Jamo(c)|
      ensures Grows(Jamo(c)[i], x.Rep(), x.rank)
    {
      JamoArePlain(x, Jamo(c)[i]);
    }
  }

  lemma {:induction false} RunGrows(x: Setting, cs: seq<int>)
    requires x.Sound() && FullyDecomposed(cs, x.Rep())
    ensures AllGrow(Run(cs, x.data).done, x.Rep(), x.rank)
  {
    if cs != [] {
      var st, u := Run(cs[..|cs| - 1], x.data), cs[|cs| - 1];
      RunGrows(x, cs[..|cs| - 1]);
      if Combines(st, u, x.data) {
        CombinesWithSomething(st, u, x.data);
        LigatureGrows(x, Base(st, u), u);
      }
    }
  }

  /** A decomposed text, composed. */
  lemma ComposedPoints(x: Setting, s: seq<Unit>)
    requires x.Sound() && AllPlain(CodePoints(s), x.Rep())
    ensures var t, done := Composed(s, x.data), Run(CodePoints(s), x.data).done;
      CodePoints(t) == done && NoHigh(done) && |Decomposed(t, x.Rep(), x.rank)| == |Text(x.Dec(done))| <= |s|
  {
    ComposedAsPoints(s, x.data);
    CodePointsOfText(Run(CodePoints(s), x.data).done);
    RunLength(x, CodePoints(s));
    TextOfCodePoints(s);
  }

  /** Where it does not fit, decomposing it makes it shorter than it was. */
  lemma ComposedMisfits(x: Setting, s: seq<Unit>)
    requires x.Sound() && AllPlain(CodePoints(s), x.Rep())
    requires !Fits(Run(CodePoints(s), x.data).done, 0, true, x.Rep(), x.rank)
    ensures |CallD(x, Composed(s, x.data))| < |s|
  {
    var t := Composed(s, x.data);
    ComposedPoints(x, s);
    RunGrows(x, CodePoints(s));
    GrowingMisfitIsShorter(t, [], x.Rep(), x.rank);
    CallPointsArePlain(x, t);
  }

  // ---------- Normalizing twice ----------

  /**
   * A text is its own composed form exactly when it would be if decomposition were as it is meant, and
   * decomposing it loses nothing.
   */
  lemma CallCStaysExactly(x: Setting, t: seq<Unit>)
    requires x.Sound() && NoHigh(CodePoints(t))
    ensures CallC(x, t) == t <==> FormC(x, t) == t && Fits(CodePoints(t), 0, true, x.Rep(), x.rank)
  {
    if Fits(CodePoints(t), 0, true, x.Rep(), x.rank) {
      CallIsForm(x, t);
    } else if CallC(x, t) == t {
      CallPointsArePlain(x, t);
      ComposedPoints(x, CallD(x, t));
      ComposedMisfits(x, CallD(x, t));
    }
  }

  /** What the call returns has at most low surrogates out of place. */
  lemma CallCIsText(x: Setting, s: seq<Unit>)
    requires x.Sound() && NoHigh(CodePoints(s))
    ensures CodePoints(CallC(x, s)) == Run(CallPoints(x, s), x.data).done && NoHigh(CodePoints(CallC(x, s)))
  {
    CallPointsArePlain(x, s);
    ComposedPoints(x, CallD(x, s));
  }

  /** So normalizing what the call has returned changes nothing exactly under that condition. */
  lemma CallTwiceExactly(x: Setting, s: seq<Unit>)
    requires x.Sound() && NoHigh(CodePoints(s))
    ensures var t := CallC(x, s);
      CallC(x, t) == t <==> FormC(x, t) == t && Fits(CodePoints(t), 0, true, x.Rep(), x.rank)
  {
    CallCIsText(x, s);
    CallCStaysExactly(x, CallC(x, s));
  }

  /** Of which, as long as composition stays within what the version knows, only losing nothing remains. */
  lemma CallTwiceWithinVersion(x: Setting, s: seq<Unit>)
    requires x.Sound() && x.KnowsParts() && NoHigh(CodePoints(s))
    requires FixedInput(x, CallPoints(x, s)) && !Outdated(x, CallPoints(x, s))
    ensures var t := CallC(x, s);
      CallC(x, t) == t <==> Fits(CodePoints(t), 0, true, x.Rep(), x.rank)
  {
    CallTwiceExactly(x, s);
    CallPointsArePlain(x, s);
    ComposedFormStays(x, CallD(x, s));
  }

  lemma ComposedFormStays(x: Setting, s: seq<Unit>)
    requires x.Sound() && x.KnowsParts() && FixedInput(x, CodePoints(s)) && !Outdated(x, CodePoints(s))
    ensures FormC(x, Composed(s, x.data)) == Composed(s, x.data)
  {
    var f, t := CodePoints(s), Composed(s, x.data);
    ComposedPoints(x, s);
    ComposedAsPoints(s, x.data);
    PointsOfFormD(x, t);
    RestoredRecomposes(x, f);
    ComposedAsPoints(FormD(x, t), x.data);
  }
}

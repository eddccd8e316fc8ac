/**
 * The whole call of qstring.cpp: corrections, then the loops as they are, including that the
 * decomposing one goes over the text behind a replacement that is longer than what it replaces.
 */
module NormalizationCall {
  import opened Units
  import opened UnicodeTables
  import opened Utf16Text
  import opened CanonicalOrderLoop
  import opened Corrections
  import opened Decompose
  import opened DecompositionLoss
  import opened DecomposeLoop
  import opened LoopResult
  import opened Compose
  import opened Soundness
  import opened Normalize

  /** What the first two loops make of `s`, and all three. */
  ghost function CallD(x: Setting, s: seq<Unit>): seq<Unit>
    requires WellFounded(x.Rep(), x.rank) && Tidy(x.Rep())
  {
    Text(LoopOrder(CodePoints(Written(s, [], x.Rep(), x.rank)), x.Cls()))
  }

  ghost function CallC(x: Setting, s: seq<Unit>): seq<Unit>
    requires WellFounded(x.Rep(), x.rank) && Tidy(x.Rep())
  {
    Composed(CallD(x, s), x.data)
  }

  lemma OrderingKeepsLength(s: seq<Unit>, cls: int -> nat)
    ensures |Text(LoopOrder(CodePoints(s), cls))| == |s|
  {
    LoopOrderKeepsLength(CodePoints(s), cls);
    TextOfCodePoints(s);
  }

  /** The code points of what the first two loops leave. */
  ghost function CallPoints(x: Setting, s: seq<Unit>): seq<int>
    requires WellFounded(x.Rep(), x.rank) && Tidy(x.Rep())
  {
    LoopOrder(CodePoints(Written(s, [], x.Rep(), x.rank)), x.Cls())
  }

  /** They are decomposed and in the loop's order, whatever the decomposing loop has lost. */
  lemma CallPointsArePlain(x: Setting, s: seq<Unit>)
    requires x.Sound() && NoHigh(CodePoints(s))
    ensures var f := CallPoints(x, s);
      && AllPlain(f, x.Rep()) && LoopOrder(f, x.Cls()) == f && CallD(x, s) == Text(f) && CodePoints(CallD(x, s)) == f
    ensures |CallD(x, s)| == |Written(s, [], x.Rep(), x.rank)|
  {
    var w := Written(s, [], x.Rep(), x.rank);
    WrittenIsPlain(s, [], x.Rep(), x.rank);
    OrderIsPlain(x, CodePoints(w));
    OrderingKeepsLength(w, x.Cls());
  }

  lemma OrderIsPlain(x: Setting, cs: seq<int>)
    requires AllPlain(cs, x.Rep())
    ensures var f := LoopOrder(cs, x.Cls());
      AllPlain(f, x.Rep()) && LoopOrder(f, x.Cls()) == f && CodePoints(Text(f)) == f
  {
    PlainElements(cs, LoopOrder(cs, x.Cls()), x.Rep());
    LoopOrderKeepsElements(cs, x.Cls());
    LoopOrderStays(cs, x.Cls());
    CodePointsOfText(LoopOrder(cs, x.Cls()));
  }

  lemma PlainElements(cs: seq<int>, f: seq<int>, rep: Replacements)
    requires AllPlain(cs, rep)
    ensures (forall i :: 0 <= i < |f| ==> f[i] in cs) ==> AllPlain(f, rep)
  {}

  lemma PlainCall(x: Setting, s: seq<Unit>)
    requires x.Sound() && AllPlain(CodePoints(s), x.Rep()) && LoopOrder(CodePoints(s), x.Cls()) == CodePoints(s)
    ensures CallD(x, s) == s
  {
    PlainIsWritten(s, [], x.Rep(), x.rank);
    assert s + [] == s;
    TextOfCodePoints(s);
  }

  /** The first two loops leave alone what they have left, also of text that they have spoilt. */
  lemma CallDStays(x: Setting, s: seq<Unit>)
    requires x.Sound() && NoHigh(CodePoints(s))
    ensures CallD(x, CallD(x, s)) == CallD(x, s)
  {
    CallPointsArePlain(x, s);
    PlainCall(x, CallD(x, s));
  }

  // ---------- When the call computes the forms ----------

  ghost predicate SurrogatesStay(cls: int -> nat) {
    forall u :: IsHigh(u) || IsLow(u) ==> cls(u) == 0
  }

  lemma MalformedPointsStay(cs: seq<int>, cls: int -> nat)
    requires Parsed(cs) && SurrogatesStay(cls) && !AllScalar(cs)
    ensures !AllScalar(LoopOrder(cs, cls))
  {
    var i :| 0 <= i < |cs| && !IsScalar(cs[i]);
    LoopOrderKeepsStarters(cs, cls);
    assert LoopOrder(cs, cls)[i] == cs[i];
  }

  /** A low surrogate without a high one is still there when the text has been ordered. */
  lemma MalformedStays(x: Setting, s: seq<Unit>)
    requires x.Sound() && NoHigh(CodePoints(s))
    requires var w := Written(s, [], x.Rep(), x.rank); Whole(w) < |w|
    ensures !AllScalar(CodePoints(CallD(x, s)))
  {
    var w := Written(s, [], x.Rep(), x.rank);
    CallPointsArePlain(x, s);
    MalformedText(w);
    SurrogatesStayIn(x);
    MalformedPointsStay(CodePoints(w), x.Cls());
  }

  lemma SurrogatesStayIn(x: Setting)
    requires x.Sound()
    ensures SurrogatesStay(x.Cls())
  {}

  lemma MalformedText(w: seq<Unit>)
    requires Whole(w) < |w|
    ensures Parsed(CodePoints(w)) && !AllScalar(CodePoints(w))
  {
    CodePointsAreParsed(w);
    TextOfCodePoints(w);
    if AllScalar(CodePoints(w)) {
      WholeText(CodePoints(w));
    }
  }

  /** Where nothing is lost, the loops compute the forms. */
  lemma CallIsForm(x: Setting, s: seq<Unit>)
    requires x.Sound() && NoHigh(CodePoints(s)) && Fits(CodePoints(s), 0, true, x.Rep(), x.rank)
    ensures Written(s, [], x.Rep(), x.rank) == Decomposed(s, x.Rep(), x.rank)
    ensures CallD(x, s) == FormD(x, s) && CallC(x, s) == FormC(x, s)
  {
    var nothing: seq<Unit> := [];
    FittingIsWritten(s, [], [], x.Rep(), x.rank);
    assert nothing + nothing == nothing;
    assert Decomposed(s, x.Rep(), x.rank) + nothing == Decomposed(s, x.Rep(), x.rank);
  }

  /** The loops compute the decomposed form exactly when the decomposing one loses nothing. */
  lemma CallIsFormExactly(x: Setting, s: seq<Unit>)
    requires x.Sound() && AllScalar(CodePoints(s))
    ensures CallD(x, s) == FormD(x, s) <==> Fits(CodePoints(s), 0, true, x.Rep(), x.rank)
  {
    var w := Written(s, [], x.Rep(), x.rank);
    if Fits(CodePoints(s), 0, true, x.Rep(), x.rank) {
      CallIsForm(x, s);
    } else {
      LoopDecomposesExactly(s, x.Rep(), x.rank);
      PointsOfFormD(x, s);
      OrderingKeepsLength(w, x.Cls());
      OrderingKeepsLength(Decomposed(s, x.Rep(), x.rank), x.Cls());
      if Whole(w) < |w| {
        MalformedStays(x, s);
      }
    }
  }

  // ---------- The call ----------

  datatype Form = NormalizationFormD | NormalizationFormC | NormalizationFormKD | NormalizationFormKC

  /** Normalization for `version`; the tables are those of the version `current`. */
  method Normalized(str: seq<Unit>, mode: Form, version: nat, current: nat, corrections: seq<Correction>,
                    data: UnicodeData, ghost rank: int -> nat) returns (s: seq<Unit>)
    requires var x := Setting(data, mode.NormalizationFormD? || mode.NormalizationFormC?, version, rank);
      WellFounded(x.Rep(), rank) && Tidy(x.Rep()) && SurrogatesAreStarters(data)
    ensures var x := Setting(data, mode.NormalizationFormD? || mode.NormalizationFormC?, version, rank);
      var t := if version != current then Corrected(str, corrections, version) else str;
      s == if mode.NormalizationFormD? || mode.NormalizationFormKD? then CallD(x, t) else CallC(x, t)
  {
    var canonical := mode.NormalizationFormD? || mode.NormalizationFormC?;
    s := str;
    if version != current {
      s := Correct(str, corrections, version);
    }
    s := DecomposeHelper(s, canonical, version, data, rank);
    s := CanonicalOrderHelper(s, version, data);
    if mode.NormalizationFormD? || mode.NormalizationFormKD? {
      return;
    }
    s := ComposeHelper(s, data);
  }
}

/**
 * What can be said of the result of the decomposing loop even where it loses something: text whose
 * replacements only grow comes out too short, and nothing that is left has a replacement.
 */
module LoopResult {
  import opened Units
  import opened Utf16Text
  import opened QString
  import opened Decompose
  import opened DecompositionLoss

  // ---------- Growing text ----------

  /** No replacement on the way is shorter than what it replaces. */
  ghost predicate Grows(c: int, rep: Replacements, rank: int -> nat)
    requires WellFounded(rep, rank)
    decreases rank(c)
  {
    match rep(c)
    case None => true
    case Some(d) =>
      |d| >= Width(c) && forall i :: 0 <= i < |CodePoints(d)| ==> Grows(CodePoints(d)[i], rep, rank)
  }

  ghost predicate AllGrow(cs: seq<int>, rep: Replacements, rank: int -> nat)
    requires WellFounded(rep, rank)
  {
    forall i :: 0 <= i < |cs| ==> Grows(cs[i], rep, rank)
  }

  /** In such text the loop loses something wherever it does not fit, and never gains anything. */
  lemma {:induction false} GrowingMisfitIsShorter(p: seq<Unit>, t: seq<Unit>, rep: Replacements, rank: int -> nat)
    requires Loopable(p, rep, rank) && AllGrow(CodePoints(p), rep, rank)
    ensures |Written(p, t, rep, rank)| <= |Decomposed(p, rep, rank)| + |t|
    ensures !Fits(CodePoints(p), 0, t == [], rep, rank) ==>
      |Written(p, t, rep, rank)| < |Decomposed(p, rep, rank)| + |t|
    decreases Looks(p, rep, rank), 1
  {
    if p != [] {
      LastTurn(p, rep, rank);
      var c, rest := LastPoint(p), p[..|p| - LastWidth(p)];
      GrowConcat(CodePoints(rest), [c], rep, rank);
      if rep(c).None? {
        ShorterByKeeping(p, t, rep, rank);
      } else {
        ShorterByReplacing(p, t, rep, rank);
      }
    }
  }

  lemma GrowConcat(a: seq<int>, b: seq<int>, rep: Replacements, rank: int -> nat)
    requires WellFounded(rep, rank)
    ensures AllGrow(a + b, rep, rank) <==> AllGrow(a, rep, rank) && AllGrow(b, rep, rank)
  {
    var all := a + b;
    assert forall i :: 0 <= i < |a| ==> all[i] == a[i];
    assert forall i :: 0 <= i < |b| ==> b[i] == all[|a| + i];
  }

  lemma ShorterByKeeping(p: seq<Unit>, t: seq<Unit>, rep: Replacements, rank: int -> nat)
    requires Loopable(p, rep, rank) && p != [] && rep(LastPoint(p)).None?
    requires AllGrow(CodePoints(p[..|p| - LastWidth(p)]), rep, rank)
    ensures |Written(p, t, rep, rank)| <= |Decomposed(p, rep, rank)| + |t|
    ensures !Fits(CodePoints(p), 0, t == [], rep, rank) ==>
      |Written(p, t, rep, rank)| < |Decomposed(p, rep, rank)| + |t|
    decreases Looks(p, rep, rank), 0
  {
    LastTurn(p, rep, rank);
    NextKept(p, [], t, rep, rank);
    assert [] + t == t;
    var c, rest := LastPoint(p), p[..|p| - LastWidth(p)];
    GrowingMisfitIsShorter(rest, Encode(c) + t, rep, rank);
    FitsKept(CodePoints(rest), c, 0, t == [], rep, rank);
  }

  lemma ShorterByReplacing(p: seq<Unit>, t: seq<Unit>, rep: Replacements, rank: int -> nat)
    requires Loopable(p, rep, rank) && p != [] && rep(LastPoint(p)).Some? && Grows(LastPoint(p), rep, rank)
    requires AllGrow(CodePoints(p[..|p| - LastWidth(p)]), rep, rank)
    ensures |Written(p, t, rep, rank)| <= |Decomposed(p, rep, rank)| + |t|
    ensures !Fits(CodePoints(p), 0, t == [], rep, rank) ==>
      |Written(p, t, rep, rank)| < |Decomposed(p, rep, rank)| + |t|
    decreases Looks(p, rep, rank), 0
  {
    LastTurn(p, rep, rank);
    var c, rest := LastPoint(p), p[..|p| - LastWidth(p)];
    var d := rep(c).value;
    var t' := Rest(Encode(c) + t, |d|);
    KeepLastUnits(p);
    GrowConcat(CodePoints(rest), CodePoints(d), rep, rank);
    GrowingMisfitIsShorter(rest + d, t', rep, rank);
    FitsReplaced(CodePoints(rest), c, 0, t == [], rep, rank);
    Overrun(Encode(c), t, |d|);
  }

  lemma KeepLastUnits(p: seq<Unit>)
    requires p != []
    ensures p[|p| - LastWidth(p)..] == Encode(LastPoint(p))
  {
    LastEncodes(p);
  }

  /** Going over more than what is replaced takes something from what is behind, if there is anything. */
  lemma Overrun(cu: seq<Unit>, t: seq<Unit>, n: nat)
    requires n >= |cu|
    ensures |Rest(cu + t, n)| <= |t|
    ensures if t == [] || n == |cu| then Rest(cu + t, n) == t else |Rest(cu + t, n)| < |t|
  {}

  // ---------- What is left is decomposed ----------

  /** Code points that the loop leaves alone: no replacement, and no high surrogate out of place. */
  ghost predicate AllPlain(cs: seq<int>, rep: Replacements) {
    NoHigh(cs) && FullyDecomposed(cs, rep)
  }

  ghost predicate PlainSurrogates(rep: Replacements) {
    forall u :: IsHigh(u) || IsLow(u) ==> rep(u).None?
  }

  lemma PlainBehind(c: int, t: seq<Unit>, rep: Replacements)
    requires 0 <= c < 0x11_0000 && !IsHigh(c) && rep(c).None? && AllPlain(CodePoints(t), rep)
    ensures AllPlain(CodePoints(Encode(c) + t), rep)
  {
    CodePointsConcat(Encode(c), t);
    CodePointsOfOne(c);
  }

  /** Taking a unit from the front leaves the rest of the first code point. */
  lemma TailOfText(cs: seq<int>)
    requires Parsed(cs) && cs != []
    ensures Text(cs)[1..] == (if IsPair(cs[0]) then Encode(Low(cs[0])) else []) + Text(cs[1..])
  {
    FirstOfText(cs);
    BehindFirst(Encode(cs[0]), Text(cs[1..]));
  }

  lemma BehindFirst(a: seq<Unit>, b: seq<Unit>)
    requires a != []
    ensures (a + b)[1..] == a[1..] + b
  {}

  lemma PlainParts(cs: seq<int>, rep: Replacements)
    requires AllPlain(cs, rep) && cs != []
    ensures AllPlain(cs[1..], rep) && CodePoints(Text(cs[1..])) == cs[1..]
  {
    PlainBehindFirst(cs, rep);
    CodePointsOfText(cs[1..]);
  }

  lemma PlainBehindFirst(cs: seq<int>, rep: Replacements)
    requires AllPlain(cs, rep) && cs != []
    ensures AllPlain(cs[1..], rep)
  {
    var rest := cs[1..];
    assert forall i :: 0 <= i < |rest| ==> rest[i] == cs[i + 1];
  }

  lemma PlainTail(t: seq<Unit>, rep: Replacements)
    requires PlainSurrogates(rep) && AllPlain(CodePoints(t), rep) && t != []
    ensures AllPlain(CodePoints(t[1..]), rep)
  {
    var cs := CodePoints(t);
    TextOfCodePoints(t);
    TailOfText(cs);
    PlainParts(cs, rep);
    if IsPair(cs[0]) {
      PlainBehind(Low(cs[0]), Text(cs[1..]), rep);
    } else {
      assert [] + Text(cs[1..]) == Text(cs[1..]);
    }
  }

  lemma {:induction false} PlainRest(t: seq<Unit>, n: nat, rep: Replacements)
    requires PlainSurrogates(rep) && AllPlain(CodePoints(t), rep)
    ensures AllPlain(CodePoints(Rest(t, n)), rep)
  {
    if n > 0 && t != [] {
      PlainTail(t, rep);
      PlainRest(t[1..], n - 1, rep);
      RestOfTail(t, n);
    }
  }

  /** Of a code point that is replaced, at most a low surrogate is left. */
  lemma PlainGoneOver(c: int, t: seq<Unit>, n: nat, rep: Replacements)
    requires PlainSurrogates(rep) && 0 <= c < 0x11_0000 && n > 0 && AllPlain(CodePoints(t), rep)
    ensures AllPlain(CodePoints(Rest(Encode(c) + t, n)), rep)
  {
    TailOfBoth(Encode(c), t, n);
    if IsPair(c) {
      assert Encode(c)[1..] == Encode(Low(c));
      PlainBehind(Low(c), t, rep);
    } else {
      assert Encode(c)[1..] + t == t;
    }
    PlainRest(Encode(c)[1..] + t, n - 1, rep);
  }

  /** Whatever the loop loses, nothing that it leaves has a replacement. */
  lemma {:induction false} WrittenIsPlain(p: seq<Unit>, t: seq<Unit>, rep: Replacements, rank: int -> nat)
    requires Loopable(p, rep, rank) && PlainSurrogates(rep) && AllPlain(CodePoints(t), rep)
    ensures AllPlain(CodePoints(Written(p, t, rep, rank)), rep)
    decreases Looks(p, rep, rank)
  {
    if p != [] {
      LastTurn(p, rep, rank);
      KeepLastUnits(p);
      var c, rest := LastPoint(p), p[..|p| - LastWidth(p)];
      if rep(c).None? {
        PlainBehind(c, t, rep);
        WrittenIsPlain(rest, Encode(c) + t, rep, rank);
      } else {
        PlainGoneOver(c, t, |rep(c).value|, rep);
        WrittenIsPlain(rest + rep(c).value, Rest(Encode(c) + t, |rep(c).value|), rep, rank);
      }
    }
  }

  lemma PlainInit(p: seq<Unit>, rep: Replacements)
    requires p != [] && FullyDecomposed(CodePoints(p), rep)
    ensures FullyDecomposed(CodePoints(p[..|p| - LastWidth(p)]), rep) && rep(LastPoint(p)).None?
  {
    var init, cs := CodePoints(p[..|p| - LastWidth(p)]), CodePoints(p);
    assert cs == init + [LastPoint(p)] && cs[|cs| - 1] == LastPoint(p);
    assert forall i :: 0 <= i < |init| ==> init[i] == cs[i];
  }

  /** And the loop leaves such text alone. */
  lemma {:induction false} PlainIsWritten(p: seq<Unit>, t: seq<Unit>, rep: Replacements, rank: int -> nat)
    requires WellFounded(rep, rank) && Tidy(rep) && FullyDecomposed(CodePoints(p), rep)
    ensures Written(p, t, rep, rank) == p + t
    decreases |p|
  {
    if p == [] {
      assert p + t == t;
    } else {
      var start := |p| - LastWidth(p);
      PlainInit(p, rep);
      PlainIsWritten(p[..start], p[start..] + t, rep, rank);
      CutAnywhere(p, start, t);
    }
  }

  lemma CutAnywhere(p: seq<Unit>, i: nat, t: seq<Unit>)
    requires i <= |p|
    ensures p[..i] + (p[i..] + t) == p + t
  {}
}

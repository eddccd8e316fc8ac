/**
 * Recursive decomposition, and what a loop writes that replaces code points in place, from right to
 * left, and looks at each replacement again. `rep` says what replaces a code point; `rank` is a
 * measure that every replacement lowers.
 */
module Decompose {
  import opened Units
  import opened Utf16Text
  import opened QString
  import opened UnicodeTables

  type Replacements = int -> Option<seq<Unit>>

  // ---------- Full decomposition ----------

  /** Replacements start on a code point boundary. */
  ghost predicate Tidy(rep: Replacements) {
    forall c :: rep(c).Some? && rep(c).value != [] ==> !IsLow(rep(c).value[0])
  }

  ghost predicate NoneEmpty(rep: Replacements) {
    forall c :: rep(c).Some? ==> rep(c).value != []
  }

  ghost predicate WellFounded(rep: Replacements, rank: int -> nat) {
    forall c, i :: rep(c).Some? && 0 <= i < |CodePoints(rep(c).value)| ==>
      rank(CodePoints(rep(c).value)[i]) < rank(c)
  }

  /** The least strict bound on the ranks. */
  ghost function RankBound(cs: seq<int>, rank: int -> nat): (b: nat)
    ensures forall i :: 0 <= i < |cs| ==> rank(cs[i]) < b
    ensures cs != [] ==> exists i :: 0 <= i < |cs| && b == rank(cs[i]) + 1
  {
    if cs == [] then 0
    else
      var b, r := RankBound(cs[..|cs| - 1], rank), rank(cs[|cs| - 1]);
      if b <= r then r + 1 else b
  }

  /** What a code point becomes, and how often the loop looks at a code point on the way. */
  datatype Expansion = Expansion(points: seq<int>, looks: nat)

  ghost function Expand(c: int, rep: Replacements, rank: int -> nat): Expansion
    requires WellFounded(rep, rank)
    decreases rank(c) + 1, 0
  {
    match rep(c)
    case None => Expansion([c], 1)
    case Some(d) =>
      var e := ExpandAll(CodePoints(d), rep, rank);
      Expansion(e.points, e.looks + 1)
  }

  ghost function ExpandAll(cs: seq<int>, rep: Replacements, rank: int -> nat): Expansion
    requires WellFounded(rep, rank)
    decreases RankBound(cs, rank), |cs|
  {
    if cs == [] then Expansion([], 0)
    else
      var init, last := cs[..|cs| - 1], cs[|cs| - 1];
      var e, f := ExpandAll(init, rep, rank), Expand(last, rep, rank);
      Expansion(e.points + f.points, e.looks + f.looks)
  }

  /** Every code point replaced by its full decomposition. */
  ghost function Decomposed(s: seq<Unit>, rep: Replacements, rank: int -> nat): seq<Unit>
    requires WellFounded(rep, rank)
  {
    Text(ExpandAll(CodePoints(s), rep, rank).points)
  }

  lemma {:induction false} ExpandAllConcat(a: seq<int>, b: seq<int>, rep: Replacements, rank: int -> nat)
    requires WellFounded(rep, rank)
    ensures var x, y := ExpandAll(a, rep, rank), ExpandAll(b, rep, rank);
      ExpandAll(a + b, rep, rank) == Expansion(x.points + y.points, x.looks + y.looks)
  {
    if b == [] {
      assert a + b == a;
    } else {
      assert (a + b)[..|a + b| - 1] == a + b[..|b| - 1];
      ExpandAllConcat(a, b[..|b| - 1], rep, rank);
    }
  }

  lemma ExpandOne(c: int, rep: Replacements, rank: int -> nat)
    requires WellFounded(rep, rank)
    ensures ExpandAll([c], rep, rank) == Expand(c, rep, rank)
  {
    assert [c][..0] == [];
  }

  ghost predicate FullyDecomposed(cs: seq<int>, rep: Replacements) {
    forall i :: 0 <= i < |cs| ==> rep(cs[i]).None?
  }

  /** Everything that decomposition leaves has no replacement any more. */
  lemma {:induction false} ExpandIsFull(c: int, rep: Replacements, rank: int -> nat)
    requires WellFounded(rep, rank)
    ensures FullyDecomposed(Expand(c, rep, rank).points, rep)
    decreases rank(c) + 1, 0
  {
    if rep(c).Some? {
      ExpandAllIsFull(CodePoints(rep(c).value), rep, rank);
    }
  }

  lemma {:induction false} ExpandAllIsFull(cs: seq<int>, rep: Replacements, rank: int -> nat)
    requires WellFounded(rep, rank)
    ensures FullyDecomposed(ExpandAll(cs, rep, rank).points, rep)
    decreases RankBound(cs, rank), |cs|
  {
    if cs != [] {
      ExpandAllIsFull(cs[..|cs| - 1], rep, rank);
      ExpandIsFull(cs[|cs| - 1], rep, rank);
    }
  }

  lemma ExpandFull(c: int, rep: Replacements, rank: int -> nat)
    requires WellFounded(rep, rank) && rep(c).None?
    ensures Expand(c, rep, rank).points == ExpandAll([c], rep, rank).points == [c]
  {
    ExpandOne(c, rep, rank);
  }

  lemma OneMoreStays(init: seq<int>, last: int, rep: Replacements, rank: int -> nat)
    requires WellFounded(rep, rank) && ExpandAll(init, rep, rank).points == init && rep(last).None?
    ensures ExpandAll(init + [last], rep, rank).points == init + [last]
  {
    ExpandFull(last, rep, rank);
    ExpandAllConcat(init, [last], rep, rank);
  }

  lemma {:induction false} FullyDecomposedStays(cs: seq<int>, rep: Replacements, rank: int -> nat)
    requires WellFounded(rep, rank) && FullyDecomposed(cs, rep)
    ensures ExpandAll(cs, rep, rank).points == cs
  {
    if cs != [] {
      var init, last := cs[..|cs| - 1], cs[|cs| - 1];
      assert init + [last] == cs;
      FullyDecomposedStays(init, rep, rank);
      OneMoreStays(init, last, rep, rank);
    }
  }

  lemma {:induction false} ExpandIsNotEmpty(c: int, rep: Replacements, rank: int -> nat)
    requires WellFounded(rep, rank) && NoneEmpty(rep)
    ensures Expand(c, rep, rank).points != []
    decreases rank(c)
  {
    if rep(c).Some? {
      var cs := CodePoints(rep(c).value);
      var last := cs[|cs| - 1];
      ExpandIsNotEmpty(last, rep, rank);
      assert ExpandAll(cs, rep, rank).points
        == ExpandAll(cs[..|cs| - 1], rep, rank).points + Expand(last, rep, rank).points;
    }
  }

  // ---------- Decomposing twice ----------

  /** Whatever `rep` replaces, `more` replaces by the same. */
  ghost predicate Extends(rep: Replacements, more: Replacements) {
    forall c :: rep(c).Some? ==> more(c) == rep(c)
  }

  /** Decomposing first with fewer replacements makes no difference. */
  lemma {:induction false} ExtensionAbsorbs(c: int, rep: Replacements, more: Replacements, rank: int -> nat)
    requires WellFounded(more, rank) && WellFounded(rep, rank) && Extends(rep, more)
    ensures ExpandAll(Expand(c, rep, rank).points, more, rank).points == Expand(c, more, rank).points
    decreases rank(c) + 1, 0
  {
    if rep(c).Some? {
      ExtensionAbsorbsAll(CodePoints(rep(c).value), rep, more, rank);
    } else {
      ExpandOne(c, more, rank);
    }
  }

  lemma {:induction false} ExtensionAbsorbsAll(cs: seq<int>, rep: Replacements, more: Replacements, rank: int -> nat)
    requires WellFounded(more, rank) && WellFounded(rep, rank) && Extends(rep, more)
    ensures ExpandAll(ExpandAll(cs, rep, rank).points, more, rank).points == ExpandAll(cs, more, rank).points
    decreases RankBound(cs, rank), |cs|
  {
    if cs != [] {
      var init, last := cs[..|cs| - 1], cs[|cs| - 1];
      ExtensionAbsorbsAll(init, rep, more, rank);
      ExtensionAbsorbs(last, rep, more, rank);
      ExpandAllConcat(ExpandAll(init, rep, rank).points, Expand(last, rep, rank).points, more, rank);
    }
  }

  /**
   * Canonical replacements are compatibility replacements, and those of an older version are those of
   * a newer one; so canonical decomposition, or that of an older version, may always come first.
   */
  lemma CanonicalFirst(data: UnicodeData, canonical: bool, version: nat, version': nat, cs: seq<int>, rank: int -> nat)
    requires version <= version' && WellFounded(data.Replacement(false, version'), rank)
    ensures WellFounded(data.Replacement(canonical, version), rank)
    ensures ExpandAll(ExpandAll(cs, data.Replacement(canonical, version), rank).points,
                      data.Replacement(false, version'), rank).points
         == ExpandAll(cs, data.Replacement(false, version'), rank).points
  {
    forall c | data.Replacement(canonical, version)(c).Some?
      ensures data.Replacement(false, version')(c) == data.Replacement(canonical, version)(c)
    {
      assert data.ReplacementOf(c, canonical, version) == data.ReplacementOf(c, false, version');
    }
    ExtensionAbsorbsAll(cs, data.Replacement(canonical, version), data.Replacement(false, version'), rank);
  }

  // ---------- Well-formed text ----------

  /** Replacements have no unpaired surrogates. */
  ghost predicate WellFormed(rep: Replacements) {
    forall c :: rep(c).Some? ==> AllScalar(CodePoints(rep(c).value))
  }

  lemma {:induction false} ExpandIsWellFormed(c: int, rep: Replacements, rank: int -> nat)
    requires WellFounded(rep, rank) && WellFormed(rep) && IsScalar(c)
    ensures AllScalar(Expand(c, rep, rank).points)
    decreases rank(c) + 1, 0
  {
    if rep(c).Some? {
      ExpandAllIsWellFormed(CodePoints(rep(c).value), rep, rank);
    }
  }

  lemma {:induction false} ExpandAllIsWellFormed(cs: seq<int>, rep: Replacements, rank: int -> nat)
    requires WellFounded(rep, rank) && WellFormed(rep) && AllScalar(cs)
    ensures AllScalar(ExpandAll(cs, rep, rank).points)
    decreases RankBound(cs, rank), |cs|
  {
    if cs != [] {
      ExpandAllIsWellFormed(cs[..|cs| - 1], rep, rank);
      ExpandIsWellFormed(cs[|cs| - 1], rep, rank);
    }
  }

  /** In well-formed text, decomposition is a matter of code points. */
  lemma PointsOfDecomposed(s: seq<Unit>, rep: Replacements, rank: int -> nat)
    requires WellFounded(rep, rank) && WellFormed(rep) && AllScalar(CodePoints(s))
    ensures CodePoints(Decomposed(s, rep, rank)) == ExpandAll(CodePoints(s), rep, rank).points
  {
    ExpandAllIsWellFormed(CodePoints(s), rep, rank);
    CodePointsOfText(ExpandAll(CodePoints(s), rep, rank).points);
  }

  // ---------- The loop ----------

  /** What is still to be done for `s`, one code point further left. */
  lemma TakeLast(s: seq<Unit>, rep: Replacements, rank: int -> nat)
    requires WellFounded(rep, rank) && s != []
    ensures var rest, e := s[..|s| - LastWidth(s)], Expand(LastPoint(s), rep, rank);
      && Decomposed(s, rep, rank) == Decomposed(rest, rep, rank) + Text(e.points)
      && Looks(s, rep, rank) == Looks(rest, rep, rank) + e.looks
  {
    var cs := CodePoints(s);
    var init, last := cs[..|cs| - 1], cs[|cs| - 1];
    assert init == CodePoints(s[..|s| - LastWidth(s)]);
    TextConcat(ExpandAll(init, rep, rank).points, Expand(last, rep, rank).points);
  }

  ghost function Looks(s: seq<Unit>, rep: Replacements, rank: int -> nat): nat
    requires WellFounded(rep, rank)
  {
    ExpandAll(CodePoints(s), rep, rank).looks
  }

  lemma ReplaceLast(s: seq<Unit>, rep: Replacements, rank: int -> nat)
    requires WellFounded(rep, rank) && Tidy(rep) && s != [] && rep(LastPoint(s)).Some?
    ensures var t := s[..|s| - LastWidth(s)] + rep(LastPoint(s)).value;
      Decomposed(t, rep, rank) == Decomposed(s, rep, rank) && Looks(t, rep, rank) < Looks(s, rep, rank)
  {
    var rest, d := s[..|s| - LastWidth(s)], rep(LastPoint(s)).value;
    TakeLast(s, rep, rank);
    CodePointsConcat(rest, d);
    ExpandAllConcat(CodePoints(rest), CodePoints(d), rep, rank);
    TextConcat(ExpandAll(CodePoints(rest), rep, rank).points, ExpandAll(CodePoints(d), rep, rank).points);
  }

  lemma KeepLast(s: seq<Unit>, rep: Replacements, rank: int -> nat)
    requires WellFounded(rep, rank) && s != [] && rep(LastPoint(s)).None?
    ensures var rest := s[..|s| - LastWidth(s)];
      && Decomposed(s, rep, rank) == Decomposed(rest, rep, rank) + s[|s| - LastWidth(s)..]
      && Looks(rest, rep, rank) < Looks(s, rep, rank)
  {
    TakeLast(s, rep, rank);
    LastEncodes(s);
    TextOfOne(LastPoint(s));
  }

  /**
   * Where the loop ends that has the text `p` in front of its cursor and `t` behind it. A
   * replacement goes over as many units as it has itself, whatever the code point it stands for takes.
   */
  ghost function Written(p: seq<Unit>, t: seq<Unit>, rep: Replacements, rank: int -> nat): seq<Unit>
    requires WellFounded(rep, rank) && Tidy(rep)
    decreases Looks(p, rep, rank)
  {
    if p == [] then t
    else
      var start := |p| - LastWidth(p);
      match rep(LastPoint(p))
      case None => KeepLast(p, rep, rank); Written(p[..start], p[start..] + t, rep, rank)
      case Some(d) => ReplaceLast(p, rep, rank); Written(p[..start] + d, Rest(p[start..] + t, |d|), rep, rank)
  }
}

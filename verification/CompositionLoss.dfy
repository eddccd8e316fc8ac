/**
 * What composition loses for good: a stray unit, and whatever combines beyond what the version
 * knows. Apart from these, canonical order restores the text.
 */
module CompositionLoss {
  import opened Units
  import opened UnicodeTables
  import opened Utf16Text
  import opened CanonicalOrder
  import opened CanonicalOrderLoop
  import opened Decompose
  import opened Compose
  import opened Soundness
  import opened Recomposition

  // ---------- Lost units ----------

  /** `u` combines to something that decomposes to no more than what was there without it. */
  ghost predicate Loses(x: Setting, st: State, u: int)
    requires st.Valid()
  {
    && Combines(st, u, x.data)
    && (x.Rep()(x.data.Ligature(Base(st, u), u)).None? || (IsOpenSyllable(Base(st, u)) && IsStray(u)))
  }

  ghost predicate LosesAt(x: Setting, cs: seq<int>, k: int) {
    0 <= k < |cs| && Loses(x, Run(cs[..k], x.data), cs[k])
  }

  ghost predicate LosesSome(x: Setting, cs: seq<int>) {
    exists k :: LosesAt(x, cs, k)
  }

  /** The same of a text and of one code point more. */
  lemma LosesNext(x: Setting, cs: seq<int>, u: int)
    ensures LosesSome(x, cs + [u]) <==> LosesSome(x, cs) || Loses(x, Run(cs, x.data), u)
  {
    var all := cs + [u];
    assert all[..|cs|] == cs && all[|cs|] == u;
    assert LosesAt(x, all, |cs|) == Loses(x, Run(cs, x.data), u);
    forall k | 0 <= k < |cs|
      ensures LosesAt(x, all, k) == LosesAt(x, cs, k)
    {
      assert all[..k] == cs[..k];
    }
  }

  lemma StepLength(x: Setting, st: State, u: int)
    requires x.Sound() && st.Valid() && x.Rep()(u).None?
    ensures |Text(x.Dec(Step(st, u, x.data).done))| <= |Text(x.Dec(st.done))| + |Encode(u)|
    ensures Loses(x, st, u) ==> |Text(x.Dec(Step(st, u, x.data).done))| < |Text(x.Dec(st.done))| + |Encode(u)|
  {
    if !Combines(st, u, x.data) {
      DecNext(x, st.done, u);
      TextNext(x.Dec(st.done), u);
    } else {
      CombinesWithSomething(st, u, x.data);
      CombineLength(x, st, u);
    }
  }

  lemma LigatureLength(x: Setting, a: int, u: int)
    requires x.Sound() && x.Rep()(u).None? && x.data.Ligature(a, u) != 0
    ensures var lig := x.data.Ligature(a, u);
      if x.Rep()(lig).None? || (IsOpenSyllable(a) && IsStray(u)) then |Text(x.Full(lig))| <= |Text(x.Full(a))|
      else x.Full(lig) == x.Full(a) + [u] && |Text(x.Full(lig))| == |Text(x.Full(a))| + |Encode(u)|
  {
    if x.Rep()(x.data.Ligature(a, u)).None? {
      NewerLigatureLoses(x, a, u);
    } else if IsOpenSyllable(a) && IsStray(u) {
      if !x.Knows(a) {
        StrayOnUnknown(x, a, u);
      }
      StrayLigatureLoses(x, a, u);
    } else {
      LigatureDecomposes(x, a, u);
      FullOfPlain(x, u);
      TextNext(x.Full(a), u);
    }
  }

  lemma CombineLength(x: Setting, st: State, u: int)
    requires x.Sound() && st.Valid() && st.done != [] && x.Rep()(u).None? && Combines(st, u, x.data)
    ensures |Encode(u)| == 1
    ensures |Text(x.Dec(Step(st, u, x.data).done))|
         <= |Text(x.Dec(st.done))| + if Loses(x, st, u) then 0 else |Encode(u)|
  {
    LigatureIsScalar(Base(st, u), u, x.data);
    WrittenLength(x, st.done, st.starter, x.data.Ligature(Base(st, u), u));
    LigatureLength(x, Base(st, u), u);
  }

  lemma WrittenLength(x: Setting, done: seq<int>, i: nat, lig: int)
    requires x.Sound() && i < |done|
    ensures |Text(x.Dec(done[i := lig]))| == |Text(x.Dec(done))| - |Text(x.Full(done[i]))| + |Text(x.Full(lig))|
  {
    var done' := done[i := lig];
    DecAround(x, done, i);
    DecAround(x, done', i);
    assert done'[..i] == done[..i] && done'[i + 1..] == done[i + 1..];
    LengthOfThree(x.Dec(done[..i]), x.Full(done[i]), x.Dec(done[i + 1..]));
    LengthOfThree(x.Dec(done[..i]), x.Full(lig), x.Dec(done[i + 1..]));
  }

  lemma LengthOfThree(a: seq<int>, b: seq<int>, c: seq<int>)
    ensures |Text(a + b + c)| == |Text(a)| + |Text(b)| + |Text(c)|
  {
    TextConcat(a + b, c);
    TextConcat(a, b);
  }

  /** How many units the decomposition of the composed text is short of what was read. */
  ghost function Deficit(x: Setting, cs: seq<int>): int
    requires WellFounded(x.Rep(), x.rank)
  {
    |Text(cs)| - |Text(x.Dec(Run(cs, x.data).done))|
  }

  lemma DeficitOfNothing(x: Setting)
    requires x.Sound()
    ensures Deficit(x, []) == 0
  {
    DecOfFull(x, []);
  }

  lemma DeficitNext(x: Setting, cs: seq<int>, u: int)
    requires x.Sound() && x.Rep()(u).None?
    ensures Deficit(x, cs + [u]) >= Deficit(x, cs)
    ensures Loses(x, Run(cs, x.data), u) ==> Deficit(x, cs + [u]) > Deficit(x, cs)
  {
    RunNext(cs, u, x.data);
    StepLength(x, Run(cs, x.data), u);
    TextNext(cs, u);
  }

  /** Nothing is gained, and what is lost stays lost. */
  lemma {:induction false} RunLength(x: Setting, cs: seq<int>)
    requires x.Sound() && FullyDecomposed(cs, x.Rep())
    ensures Deficit(x, cs) >= 0 && (LosesSome(x, cs) ==> Deficit(x, cs) > 0)
  {
    if cs == [] {
      DeficitOfNothing(x);
    } else {
      var init, u := cs[..|cs| - 1], cs[|cs| - 1];
      SplitLast(cs);
      RunLength(x, init);
      DeficitNext(x, init, u);
      LosesNext(x, init, u);
    }
  }

  /** A leading consonant starts afresh and a vowel combines with it. */
  lemma OpenSyllableComposes(x: Setting, st: State, l: int, v: int)
    requires x.Sound() && st.Valid() && IsLeading(l) && IsVowel(v)
    ensures Step(Step(st, l, x.data), v, x.data) == State(st.done + [x.data.Ligature(l, v)], |st.done|, 0)
  {
    JamoOfLV(l, v);
    assert !Combines(st, l, x.data);
    var st1 := Step(st, l, x.data);
    assert st1 == State(st.done + [l], |st.done|, 0);
    assert Combines(st1, v, x.data);
    assert (st.done + [l])[|st.done| := x.data.Ligature(l, v)] == st.done + [x.data.Ligature(l, v)];
  }

  lemma LigatureOfLV(l: int, v: int, data: UnicodeData)
    requires IsLeading(l) && IsVowel(v)
    ensures IsOpenSyllable(data.Ligature(l, v)) && Jamo(data.Ligature(l, v)) == [l, v]
  {
    JamoOfLV(l, v);
  }

  lemma LigatureWithStray(a: int, u: int, data: UnicodeData)
    requires IsOpenSyllable(a) && IsStray(u)
    ensures data.Ligature(a, u) == a + (u - HANGUL_T_BASE) != 0
  {}

  /** The stray unit behind them combines with the result. */
  lemma StrayCombines(x: Setting, cs: seq<int>, i: nat)
    requires x.Sound() && StrayAt(cs, i)
    ensures var st := Run(cs[..i + 2], x.data);
      st.done != [] && Combines(st, cs[i + 2], x.data) && IsOpenSyllable(Base(st, cs[i + 2]))
  {
    var st := Run(cs[..i], x.data);
    var lig := x.data.Ligature(cs[i], cs[i + 1]);
    RunSnoc(cs, i + 1, x.data);
    RunSnoc(cs, i + 2, x.data);
    OpenSyllableComposes(x, st, cs[i], cs[i + 1]);
    assert Run(cs[..i + 2], x.data) == State(st.done + [lig], |st.done|, 0);
    LigatureOfLV(cs[i], cs[i + 1], x.data);
    LigatureWithStray(lig, cs[i + 2], x.data);
  }

  /** After a stray something is missing, for good. */
  lemma StrayShortens(x: Setting, cs: seq<int>)
    requires x.Sound() && FullyDecomposed(cs, x.Rep()) && HasStray(cs)
    ensures |Text(x.Dec(Run(cs, x.data).done))| < |Text(cs)|
  {
    var i :| 0 <= i < |cs| && StrayAt(cs, i);
    StrayCombines(x, cs, i);
    assert LosesAt(x, cs, i + 2);
    RunLength(x, cs);
  }

  // ---------- Moved starters ----------

  /** The sum of the indices at which starters stand. */
  function Places(s: seq<int>, cls: int -> nat): nat {
    if s == [] then 0 else Places(s[..|s| - 1], cls) + if cls(s[|s| - 1]) == 0 then |s| - 1 else 0
  }

  function StarterCount(s: seq<int>, cls: int -> nat): nat {
    if s == [] then 0 else StarterCount(s[..|s| - 1], cls) + if cls(s[|s| - 1]) == 0 then 1 else 0
  }

  lemma PlacesNext(s: seq<int>, u: int, cls: int -> nat)
    ensures Places(s + [u], cls) == Places(s, cls) + if cls(u) == 0 then |s| else 0
  {
    assert (s + [u])[..|s|] == s;
  }

  /** A mark that moves to the front of `m` moves the starters in `m`. */
  lemma {:induction false} PlacesMoved(head: seq<int>, u: int, m: seq<int>, cls: int -> nat)
    requires cls(u) != 0
    ensures Places(head + ([u] + m), cls) == Places(head + m, cls) + StarterCount(m, cls)
  {
    if m == [] {
      assert head + ([u] + m) == head + [u] && head + m == head;
      PlacesNext(head, u, cls);
    } else {
      var init, e := m[..|m| - 1], m[|m| - 1];
      PlacesMoved(head, u, init, cls);
      assert head + ([u] + m) == (head + ([u] + init)) + [e] && head + m == (head + init) + [e];
      PlacesNext(head + ([u] + init), e, cls);
      PlacesNext(head + init, e, cls);
    }
  }

  lemma {:induction false} StarterCounts(m: seq<int>, cls: int -> nat)
    ensures StarterCount(m, cls) > 0 <==> exists k :: 0 <= k < |m| && cls(m[k]) == 0
  {
    if m != [] {
      var init := m[..|m| - 1];
      StarterCounts(init, cls);
      assert forall k :: 0 <= k < |init| ==> init[k] == m[k];
    }
  }

  lemma {:induction false} SamePlaces(s: seq<int>, t: seq<int>, cls: int -> nat)
    requires |s| == |t| && forall i :: 0 <= i < |s| ==> (cls(s[i]) == 0 <==> cls(t[i]) == 0)
    ensures Places(s, cls) == Places(t, cls)
  {
    if s != [] {
      SamePlaces(s[..|s| - 1], t[..|t| - 1], cls);
    }
  }

  ghost predicate PlainBehind(x: Setting, st: State) {
    st.Valid() && forall k :: st.starter < k < |st.done| ==> x.Rep()(st.done[k]).None?
  }

  /** Combining without a loss moves no starter but those that are passed. */
  lemma CombineMoves(x: Setting, st: State, u: int)
    requires x.Sound() && x.KnowsParts() && PlainBehind(x, st) && st.done != [] && x.Rep()(u).None?
    requires Combines(st, u, x.data) && !Loses(x, st, u)
    ensures var d, d' := x.Dec(st.done), x.Dec(Step(st, u, x.data).done);
      && |d'| == |d| + 1 && Places(d', x.Cls()) >= Places(d + [u], x.Cls())
      && (Outdates(x, st, u) ==> Places(d', x.Cls()) > Places(d + [u], x.Cls()))
  {
    var base, m, cls := Base(st, u), st.done[st.starter + 1..], x.Cls();
    var head := x.Dec(st.done[..st.starter]) + x.Full(base);
    LigatureLength(x, base, u);
    DecOfWritten(x, st.done, st.starter, u, x.data.Ligature(base, u), m);
    PlacesNext(x.Dec(st.done), u, cls);
    if m == [] {
      assert head + ([u] + m) == x.Dec(st.done) + [u];
    } else {
      MarkIsKnown(x, base, u);
      PlacesMoved(head, u, m, cls);
      StarterCounts(m, cls);
      TaintedIs(x, st, m);
    }
  }

  lemma TaintedIs(x: Setting, st: State, m: seq<int>)
    requires st.Valid() && st.done != [] && m == st.done[st.starter + 1..]
    ensures Tainted(x, st) <==> exists k :: 0 <= k < |m| && x.Cls()(m[k]) == 0
  {
    if Tainted(x, st) {
      var k :| st.starter < k < |st.done| && x.Cls()(st.done[k]) == 0;
      assert m[k - st.starter - 1] == st.done[k];
    }
  }

  lemma StepMoves(x: Setting, st: State, u: int)
    requires x.Sound() && x.KnowsParts() && PlainBehind(x, st) && x.Rep()(u).None? && !Loses(x, st, u)
    ensures PlainBehind(x, Step(st, u, x.data))
    ensures var d, d' := x.Dec(st.done), x.Dec(Step(st, u, x.data).done);
      && |d'| == |d| + 1 && Places(d', x.Cls()) >= Places(d + [u], x.Cls())
      && (Outdates(x, st, u) ==> Places(d', x.Cls()) > Places(d + [u], x.Cls()))
  {
    if !Combines(st, u, x.data) {
      DecNext(x, st.done, u);
    } else {
      CombinesWithSomething(st, u, x.data);
      CombineMoves(x, st, u);
    }
  }

  /** Where nothing is lost, starters move only to the right, and do so once something is passed. */
  lemma {:induction false} RunMoves(x: Setting, cs: seq<int>)
    requires x.Sound() && x.KnowsParts() && FullyDecomposed(cs, x.Rep()) && !LosesSome(x, cs)
    ensures PlainBehind(x, Run(cs, x.data))
    ensures var d := x.Dec(Run(cs, x.data).done);
      && |d| == |cs| && Places(d, x.Cls()) >= Places(cs, x.Cls())
      && (Outdated(x, cs) ==> Places(d, x.Cls()) > Places(cs, x.Cls()))
  {
    if cs == [] {
      DecOfFull(x, []);
    } else {
      var init, u := cs[..|cs| - 1], cs[|cs| - 1];
      SplitLast(cs);
      LosesNext(x, init, u);
      OutdatedNext(x, init, u);
      RunMoves(x, init);
      StepMoves(x, Run(init, x.data), u);
      PlacesNext(init, u, x.Cls());
      PlacesNext(x.Dec(Run(init, x.data).done), u, x.Cls());
    }
  }

  /** Whatever composes beyond what the version knows is not restored by any order of the marks. */
  lemma OutdatedShows(x: Setting, cs: seq<int>)
    requires x.Sound() && x.KnowsParts() && FullyDecomposed(cs, x.Rep()) && Outdated(x, cs)
    ensures Canonical(x.Dec(Run(cs, x.data).done), x.Cls()) != cs
    ensures LoopOrder(x.Dec(Run(cs, x.data).done), x.Cls()) != cs
  {
    var d, cls := x.Dec(Run(cs, x.data).done), x.Cls();
    CanonicalKeepsLength(d, cls);
    LoopOrderKeepsLength(d, cls);
    RunLength(x, cs);
    if !LosesSome(x, cs) {
      RunMoves(x, cs);
      CanonicalKeepsPlaces(d, cls);
    }
  }

  lemma CanonicalKeepsPlaces(d: seq<int>, cls: int -> nat)
    ensures Places(Canonical(d, cls), cls) == Places(d, cls) == Places(LoopOrder(d, cls), cls)
  {
    CanonicalKeepsStarters(d, cls);
    LoopOrderKeepsStarters(d, cls);
    SamePlaces(Canonical(d, cls), d, cls);
    SamePlaces(LoopOrder(d, cls), d, cls);
  }

  // ---------- Composition and decomposition of code points ----------

  /**
   * Decomposing and ordering canonically undoes composition exactly when no open syllable is followed
   * by a stray unit, and composition stays within what the version knows.
   */
  lemma CompositionUndoneExactly(x: Setting, cs: seq<int>)
    requires x.Sound() && x.KnowsParts() && Input(x, cs)
    ensures Canonical(x.Dec(Run(cs, x.data).done), x.Cls()) == cs <==> !HasStray(cs) && !Outdated(x, cs)
  {
    if HasStray(cs) {
      StrayShortens(x, cs);
      CanonicalKeepsLength(x.Dec(Run(cs, x.data).done), x.Cls());
    } else if Outdated(x, cs) {
      OutdatedShows(x, cs);
    } else {
      RunReorders(x, cs);
      CanonicalIsTheOrderedReordering(x.Dec(Run(cs, x.data).done), cs, x.Cls());
    }
  }
}

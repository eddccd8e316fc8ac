/**
 * Decomposing and canonically ordering what the composition step has made of a text: when that is
 * the text again.
 */
module Recomposition {
  import opened Units
  import opened UnicodeTables
  import opened Utf16Text
  import opened CanonicalOrder
  import opened Decompose
  import opened Compose
  import opened Soundness

  // ---------- Composition is undone by decomposition ----------

  ghost predicate Begins(x: Setting, cs: seq<int>) {
    cs != [] && x.data.combining(cs[0]) == 0
  }

  /** What composition may be given: well-formed, fully decomposed, canonically ordered, beginning with a starter. */
  ghost predicate Input(x: Setting, cs: seq<int>) {
    AllScalar(cs) && FullyDecomposed(cs, x.Rep()) && Ordered(cs, x.Cls()) && Begins(x, cs)
  }

  predicate StrayAt(cs: seq<int>, i: int) {
    0 <= i && i + 2 < |cs| && IsLeading(cs[i]) && IsVowel(cs[i + 1]) && IsStray(cs[i + 2])
  }

  predicate HasStray(cs: seq<int>) {
    exists i :: 0 <= i < |cs| && StrayAt(cs, i)
  }

  /** Behind the starter stands a mark that the version does not know, and that therefore counts as a starter. */
  ghost predicate Tainted(x: Setting, st: State) {
    exists k :: st.starter < k < |st.done| && x.Cls()(st.done[k]) == 0
  }

  /** `u` is taken for the trailing consonant of a syllable that the version knows. */
  predicate IsStrayOn(x: Setting, a: int, u: int) {
    IsOpenSyllable(a) && IsStray(u) && x.Knows(a)
  }

  /** `u` combines to something that the version does not decompose, or past a mark that it does not know. */
  ghost predicate Outdates(x: Setting, st: State, u: int)
    requires st.Valid()
  {
    && Combines(st, u, x.data)
    && (Tainted(x, st)
        || (x.Rep()(x.data.Ligature(Base(st, u), u)).None? && !IsStrayOn(x, Base(st, u), u)))
  }

  ghost predicate OutdatedAt(x: Setting, cs: seq<int>, k: int) {
    0 <= k < |cs| && Outdates(x, Run(cs[..k], x.data), cs[k])
  }

  /** Composition goes beyond what the version knows. */
  ghost predicate Outdated(x: Setting, cs: seq<int>) {
    exists k :: OutdatedAt(x, cs, k)
  }

  lemma CombinesWithSomething(st: State, u: int, data: UnicodeData)
    requires ComposingTables(data) && st.Valid() && Combines(st, u, data)
    ensures st.done != []
  {}

  lemma DecOfFull(x: Setting, cs: seq<int>)
    requires x.Sound() && FullyDecomposed(cs, x.Rep())
    ensures x.Dec(cs) == cs
  {
    FullyDecomposedStays(cs, x.Rep(), x.rank);
  }

  lemma DecOfOne(x: Setting, u: int)
    requires x.Sound()
    ensures x.Dec([u]) == x.Full(u)
  {
    ExpandOne(u, x.Rep(), x.rank);
  }

  lemma DecConcat(x: Setting, a: seq<int>, b: seq<int>)
    requires x.Sound()
    ensures x.Dec(a + b) == x.Dec(a) + x.Dec(b)
  {
    ExpandAllConcat(a, b, x.Rep(), x.rank);
  }

  lemma DecNext(x: Setting, cs: seq<int>, u: int)
    requires x.Sound() && x.Rep()(u).None?
    ensures x.Dec(cs + [u]) == x.Dec(cs) + [u]
  {
    DecConcat(x, cs, [u]);
    FullOfPlain(x, u);
  }

  /** The decomposition split at index `i`. */
  lemma DecAround(x: Setting, cs: seq<int>, i: nat)
    requires x.Sound() && i < |cs|
    ensures x.Dec(cs) == x.Dec(cs[..i]) + x.Full(cs[i]) + x.Dec(cs[i + 1..])
  {
    assert cs == cs[..i] + [cs[i]] + cs[i + 1..];
    DecConcat(x, cs[..i] + [cs[i]], cs[i + 1..]);
    DecConcat(x, cs[..i], [cs[i]]);
    DecOfOne(x, cs[i]);
  }

  /** A mark may move past marks of other classes. */
  lemma MovePast(u: int, m: seq<int>, cls: int -> nat)
    requires forall k :: 0 <= k < |m| ==> cls(m[k]) != 0 && cls(m[k]) != cls(u)
    requires m != [] ==> cls(u) != 0
    ensures Reordering([u] + m, m + [u], cls)
  {
    forall c: nat
      ensures Project([u] + m, c, cls) == Project(m + [u], c, cls)
    {
      ProjectConcat([u], m, c, cls);
      ProjectConcat(m, [u], c, cls);
      assert [u][..0] == [];
      if m != [] {
        if c == cls(u) {
          ProjectNone(m, c, cls);
        }
      }
    }
  }

  lemma {:induction false} ProjectNone(m: seq<int>, c: nat, cls: int -> nat)
    requires forall k :: 0 <= k < |m| ==> cls(m[k]) != 0 && cls(m[k]) != c
    ensures Project(m, c, cls) == []
  {
    if m != [] {
      ProjectNone(m[..|m| - 1], c, cls);
    }
  }

  lemma ReorderingPrepend(a: seq<int>, b: seq<int>, b': seq<int>, cls: int -> nat)
    requires Reordering(b, b', cls)
    ensures Reordering(a + b, a + b', cls)
  {
    forall c: nat
      ensures Project(a + b, c, cls) == Project(a + b', c, cls)
    {
      assert Project(b, c, cls) == Project(b', c, cls);
      ProjectConcat(a, b, c, cls);
      ProjectConcat(a, b', c, cls);
    }
  }

  /** The code points behind the starter are still those of the input, and in order if the version knows them. */
  ghost predicate Undone(x: Setting, st: State, prev: int) {
    && st.starter < |st.done| && LastStarter(st.done, x.data) == Some(st.starter)
    && st.last == x.data.combining(st.done[|st.done| - 1])
    && (forall k :: st.starter < k < |st.done| ==> x.Rep()(st.done[k]).None?)
    && (Tainted(x, st)
        || (Settled(st, x.data.combining(prev), x.data) && x.Cls()(prev) == x.data.combining(prev)))
  }

  /** What writing a ligature over index `i` does to the decomposition: `u` ends up before the tail `m`. */
  lemma DecOfWritten(x: Setting, done: seq<int>, i: nat, u: int, lig: int, m: seq<int>)
    requires x.Sound() && i < |done| && m == done[i + 1..] && FullyDecomposed(m, x.Rep())
    requires x.Full(lig) == x.Full(done[i]) + [u]
    ensures var head := x.Dec(done[..i]) + x.Full(done[i]);
      x.Dec(done) == head + m && x.Dec(done[i := lig]) == head + ([u] + m)
  {
    var done' := done[i := lig];
    DecAround(x, done, i);
    DecAround(x, done', i);
    assert done'[..i] == done[..i] && done'[i + 1..] == m;
    DecOfFull(x, m);
  }

  lemma WriteReorders(x: Setting, done: seq<int>, i: nat, u: int, lig: int)
    requires x.Sound() && i < |done|
    requires FullyDecomposed(done[i + 1..], x.Rep()) && x.Full(lig) == x.Full(done[i]) + [u]
    requires forall k :: i < k < |done| ==> 0 < x.Cls()(done[k]) < x.Cls()(u)
    ensures Reordering(x.Dec(done[i := lig]), x.Dec(done) + [u], x.Cls())
  {
    var head, m := x.Dec(done[..i]) + x.Full(done[i]), done[i + 1..];
    DecOfWritten(x, done, i, u, lig, m);
    MovePast(u, m, x.Cls());
    ReorderingPrepend(head, [u] + m, m + [u], x.Cls());
    assert x.Dec(done) + [u] == head + (m + [u]);
  }

  /** A mark that combines to what the version knows is one that it knows. */
  lemma MarkIsKnown(x: Setting, a: int, u: int)
    requires x.Sound() && x.KnowsParts() && x.data.Ligature(a, u) != 0 && x.Rep()(x.data.Ligature(a, u)).Some?
    ensures x.Cls()(u) == x.data.combining(u)
  {
    LigatureReplaced(x, a, u);
    if IsSyllable(x.data.Ligature(a, u)) {
      SyllableEndsInJamo(x, a, u);
    }
  }

  lemma SyllableEndsInJamo(x: Setting, a: int, u: int)
    requires x.Sound() && x.data.Ligature(a, u) != 0 && IsSyllable(x.data.Ligature(a, u))
    ensures 0x1100 <= u < 0x1200 && x.data.combining(u) == 0
  {
    if x.data.Ligature(a, u) == x.data.pair(a, u) {
      PairForSyllable(x.data, a, u);
    }
  }

  /** If a table ligature were a syllable, it would be one of jamo. */
  lemma PairForSyllable(data: UnicodeData, a: Unit, u: Unit)
    requires SoundHangul(data) && PairsDecompose(data) && data.pair(a, u) != 0 && IsSyllable(data.pair(a, u))
    ensures IsLeading(a) && IsVowel(u) && data.combining(u) == 0
  {
    var jamo := Jamo(data.pair(a, u));
    assert jamo == [a, u];
    assert jamo[0] == a && jamo[1] == u;
  }

  /** A ligature reorders the decomposition that appending the mark would have. */
  lemma CombineReorders(x: Setting, st: State, prev: int, u: int)
    requires x.Sound() && x.KnowsParts() && Undone(x, st, prev) && Combines(st, u, x.data) && x.Rep()(u).None?
    requires !(IsOpenSyllable(Base(st, u)) && IsStray(u)) && !Outdates(x, st, u)
    ensures Reordering(x.Dec(Step(st, u, x.data).done), x.Dec(st.done) + [u], x.Cls())
  {
    var base := Base(st, u);
    LigatureDecomposes(x, base, u);
    MarkIsKnown(x, base, u);
    FullOfPlain(x, u);
    forall k | st.starter < k < |st.done|
      ensures 0 < x.Cls()(st.done[k]) < x.Cls()(u)
    {
      assert x.Cls()(st.done[k]) == x.data.combining(st.done[k]) <= st.last;
    }
    WriteReorders(x, st.done, st.starter, u, x.data.Ligature(base, u));
  }

  lemma JamoIsStarter(x: Setting, u: int)
    requires x.Sound() && 0x1100 <= u < 0x1200
    ensures x.Cls()(u) == 0
  {}

  /** Does `u` keep the order that the version sees? */
  predicate Follows(x: Setting, prev: int, u: int) {
    x.Cls()(u) == 0 || x.Cls()(prev) <= x.Cls()(u)
  }

  lemma StepUndone(x: Setting, st: State, prev: int, u: int)
    requires x.Sound() && x.KnowsParts() && Undone(x, st, prev) && x.Rep()(u).None?
    requires Follows(x, prev, u) && !Outdates(x, st, u)
    ensures Undone(x, Step(st, u, x.data), u)
  {
    if Combines(st, u, x.data) {
      if IsStray(u) {
        JamoIsStarter(x, u);
      } else {
        MarkIsKnown(x, Base(st, u), u);
      }
      StepSettles(st, x.data.combining(prev), u, x.data);
    } else {
      LeftUndone(x, st, prev, u);
    }
  }

  lemma LeftUndone(x: Setting, st: State, prev: int, u: int)
    requires x.Sound() && Undone(x, st, prev) && x.Rep()(u).None? && Follows(x, prev, u)
    requires !Combines(st, u, x.data)
    ensures Undone(x, Step(st, u, x.data), u)
  {
    var st' := Step(st, u, x.data);
    LastStarterIs(st'.done, st'.starter, x.data);
    if x.data.combining(u) != 0 {
      if x.Cls()(u) == 0 {
        assert st'.done[|st.done|] == u && Tainted(x, st');
      } else if Tainted(x, st) {
        var k :| st.starter < k < |st.done| && x.Cls()(st.done[k]) == 0;
        assert st'.done[k] == st.done[k] && Tainted(x, st');
      } else {
        StepSettles(st, x.data.combining(prev), u, x.data);
      }
    }
  }

  /** If the decomposed run ends in a starter, then so does every reordering of it. */
  lemma EndsInStarter(a: seq<int>, u: int, t: seq<int>, cls: int -> nat)
    requires cls(u) == 0 && Reordering(a + [u], t, cls)
    ensures t != [] && t[|t| - 1] == u && Reordering(a, t[..|t| - 1], cls)
  {
    LastProjected(a + [u], cls);
    if t == [] {
      ReorderingOfNothing(a + [u], cls);
    } else {
      LastProjected(t, cls);
      assert Project(a + [u], cls(t[|t| - 1]), cls) == Project(t, cls(t[|t| - 1]), cls);
      ReorderingInit(a + [u], t, cls);
      assert (a + [u])[..|a|] == a;
    }
  }

  lemma DecEndsInJamo(x: Setting, done: seq<int>)
    requires x.Sound() && done != [] && IsOpenSyllable(done[|done| - 1]) && x.Knows(done[|done| - 1])
    ensures var jamo := Jamo(done[|done| - 1]);
      x.Dec(done) == (x.Dec(done[..|done| - 1]) + [jamo[0]]) + [jamo[1]]
  {
    var i := |done| - 1;
    FullOfSyllable(x, done[i]);
    DecAround(x, done, i);
    assert done[i + 1..] == [] && x.Dec([]) == [];
  }

  /** A syllable that the version does not know becomes another such, or none. */
  lemma StrayOnUnknown(x: Setting, a: int, u: int)
    requires x.Sound() && IsOpenSyllable(a) && IsStray(u) && !x.Knows(a)
    ensures x.Rep()(x.data.Ligature(a, u)).None?
  {
    assert x.data.Ligature(a, u) == a + (u - HANGUL_T_BASE);
  }

  /** When the loop would combine a stray unit, that unit and the two before it in the input form a stray. */
  lemma StrayWasThere(x: Setting, st: State, prev: int, init: seq<int>, u: int)
    requires x.Sound() && Undone(x, st, prev) && Reordering(x.Dec(st.done), init, x.Cls())
    requires IsOpenSyllable(Base(st, u)) && IsStray(u) && Combines(st, u, x.data) && !Outdates(x, st, u)
    ensures |init| >= 2 && StrayAt(init + [u], |init| - 2)
  {
    StrayIsNext(x, st, prev, u);
    if !x.Knows(Base(st, u)) {
      StrayOnUnknown(x, Base(st, u), u);
    }
    DecEndsInJamo(x, st.done);
    EndsInOpenSyllable(x, x.Dec(st.done[..|st.done| - 1]), Base(st, u), init);
  }

  /** A stray unit is a starter, so it combines only with what is right in front of it. */
  lemma StrayIsNext(x: Setting, st: State, prev: int, u: int)
    requires x.Sound() && Undone(x, st, prev) && IsStray(u) && Combines(st, u, x.data)
    ensures st.starter == |st.done| - 1
  {}

  lemma EndsInOpenSyllable(x: Setting, a: seq<int>, s: int, init: seq<int>)
    requires x.Sound() && IsOpenSyllable(s)
    requires Reordering((a + [Jamo(s)[0]]) + [Jamo(s)[1]], init, x.Cls())
    ensures |init| >= 2 && IsLeading(init[|init| - 2]) && IsVowel(init[|init| - 1])
  {
    var jamo := Jamo(s);
    JamoIsStarter(x, jamo[0]);
    JamoIsStarter(x, jamo[1]);
    EndsInStarter(a + [jamo[0]], jamo[1], init, x.Cls());
    EndsInStarter(a, jamo[0], init[..|init| - 1], x.Cls());
  }

  lemma StepReorders(x: Setting, st: State, prev: int, init: seq<int>, u: int)
    requires x.Sound() && x.KnowsParts() && Undone(x, st, prev) && Reordering(x.Dec(st.done), init, x.Cls())
    requires x.Rep()(u).None? && !StrayAt(init + [u], |init| - 2) && !Outdates(x, st, u)
    ensures Reordering(x.Dec(Step(st, u, x.data).done), init + [u], x.Cls())
  {
    ReorderingConcat(x.Dec(st.done), init, [u], x.Cls());
    if !Combines(st, u, x.data) {
      DecNext(x, st.done, u);
    } else if IsOpenSyllable(Base(st, u)) && IsStray(u) {
      StrayWasThere(x, st, prev, init, u);
      assert false;
    } else {
      CombineReorders(x, st, prev, u);
      ReorderingTransitive(x.Dec(Step(st, u, x.data).done), x.Dec(st.done) + [u], init + [u], x.Cls());
    }
  }

  lemma InputPrefix(x: Setting, cs: seq<int>)
    requires Input(x, cs) && |cs| > 1
    ensures Input(x, cs[..|cs| - 1]) && x.Rep()(cs[|cs| - 1]).None?
    ensures Follows(x, cs[|cs| - 2], cs[|cs| - 1])
  {}

  lemma SplitLast(cs: seq<int>)
    requires cs != []
    ensures cs == cs[..|cs| - 1] + [cs[|cs| - 1]]
  {}

  lemma OneUndone(x: Setting, cs: seq<int>)
    requires x.Sound() && Input(x, cs) && |cs| == 1
    ensures Undone(x, Run(cs, x.data), cs[0])
    ensures Reordering(x.Dec(Run(cs, x.data).done), cs, x.Cls())
  {
    RunOfOne(cs, x.data);
    StandardOfOne(cs, x.data);
    DecOfFull(x, cs);
  }

  lemma OutdatedNext(x: Setting, cs: seq<int>, u: int)
    ensures Outdated(x, cs + [u]) <==> Outdated(x, cs) || Outdates(x, Run(cs, x.data), u)
  {
    var all := cs + [u];
    assert all[..|cs|] == cs && all[|cs|] == u;
    assert OutdatedAt(x, all, |cs|) == Outdates(x, Run(cs, x.data), u);
    forall k | 0 <= k < |cs|
      ensures OutdatedAt(x, all, k) == OutdatedAt(x, cs, k)
    {
      assert all[..k] == cs[..k];
    }
  }

  /** As long as composition stays within what the version knows, its state is as it should be. */
  lemma {:induction false} RunUndone(x: Setting, cs: seq<int>)
    requires x.Sound() && x.KnowsParts() && Input(x, cs) && !Outdated(x, cs)
    ensures Undone(x, Run(cs, x.data), cs[|cs| - 1])
  {
    if |cs| == 1 {
      OneUndone(x, cs);
    } else {
      InputPrefix(x, cs);
      SplitLast(cs);
      OutdatedNext(x, cs[..|cs| - 1], cs[|cs| - 1]);
      RunUndone(x, cs[..|cs| - 1]);
      StepUndone(x, Run(cs[..|cs| - 1], x.data), cs[|cs| - 2], cs[|cs| - 1]);
    }
  }

  /** And as long as no stray comes up, decomposing what is composed so far gives back what was read. */
  lemma {:induction false} RunReorders(x: Setting, cs: seq<int>)
    requires x.Sound() && x.KnowsParts() && Input(x, cs) && !HasStray(cs) && !Outdated(x, cs)
    ensures Reordering(x.Dec(Run(cs, x.data).done), cs, x.Cls())
  {
    if |cs| == 1 {
      OneUndone(x, cs);
    } else {
      var init, u := cs[..|cs| - 1], cs[|cs| - 1];
      NoStrayInPrefix(cs);
      InputPrefix(x, cs);
      SplitLast(cs);
      OutdatedNext(x, init, u);
      RunReorders(x, init);
      RunUndone(x, init);
      StepReorders(x, Run(init, x.data), cs[|cs| - 2], init, u);
    }
  }

  lemma NoStrayInPrefix(cs: seq<int>)
    requires cs != [] && !HasStray(cs)
    ensures !HasStray(cs[..|cs| - 1])
  {
    var init := cs[..|cs| - 1];
    if HasStray(init) {
      var i :| 0 <= i < |init| && StrayAt(init, i);
      assert StrayAt(cs, i);
    }
  }
}

/**
 * Where decomposition is recursive, composed forms are stable: what is not restored by decomposing
 * still composes to the same.
 */
module FormStability {
  import opened Units
  import opened UnicodeTables
  import opened Utf16Text
  import opened CanonicalOrder
  import opened CanonicalOrderLoop
  import opened Decompose
  import opened Compose
  import opened Soundness
  import opened Recomposition
  import opened CompositionLoss
  import opened HangulText
  import opened TailLoss
  import opened Normalize

  // ---------- Composing again ----------

  lemma StepWithout(r: State, p: int, u: int, data: UnicodeData)
    requires r.Valid() && r.done != [] && r.last <= data.combining(p)
    requires Combines(State(r.done + [p], r.starter, data.combining(p)), u, data)
    ensures data.combining(u) > data.combining(p) && Combines(r, u, data)
    ensures Step(State(r.done + [p], r.starter, data.combining(p)), u, data)
         == State(Step(r, u, data).done + [p], r.starter, data.combining(p))
  {
    var lig := data.Ligature(r.done[r.starter], u);
    assert (r.done + [p])[r.starter := lig] == r.done[r.starter := lig] + [p];
  }

  lemma AllCombinePrefix(cs: seq<int>, u: int, from: nat, data: UnicodeData)
    requires from <= |cs| && AllCombine(cs + [u], from, data)
    ensures AllCombine(cs, from, data) && Combines(Run(cs, data), u, data)
  {
    var all := cs + [u];
    assert all[..|cs|] == cs && all[|cs|] == u;
    forall k | from <= k < |cs|
      ensures Combines(Run(cs[..k], data), cs[k], data)
    {
      assert all[..k] == cs[..k] && all[k] == cs[k];
      assert Combines(Run(all[..k], data), all[k], data);
    }
  }

  lemma MoveLast(a: seq<int>, m: seq<int>)
    requires m != []
    ensures a + m == (a + m[..|m| - 1]) + [m[|m| - 1]]
  {}

  /** The states with and without a mark `p` that does not combine. */
  ghost predicate Without(r: State, st: State, p: int, last: nat, data: UnicodeData) {
    && r.starter < |r.done| && r.last == last
    && st == State(r.done + [p], r.starter, data.combining(p))
  }

  ghost predicate AllAbove(m: seq<int>, p: int, data: UnicodeData) {
    forall k :: 0 <= k < |m| ==> data.combining(m[k]) > data.combining(p)
  }

  lemma AboveNext(m: seq<int>, p: int, data: UnicodeData)
    requires m != [] && AllAbove(m[..|m| - 1], p, data) && data.combining(m[|m| - 1]) > data.combining(p)
    ensures AllAbove(m, p, data)
  {
    forall k | 0 <= k < |m|
      ensures data.combining(m[k]) > data.combining(p)
    {
      if k < |m| - 1 {
        assert m[..|m| - 1][k] == m[k];
      }
    }
  }

  /** Leaving out a mark that does not combine does not change what combines behind it. */
  lemma {:induction false} RunWithout(a: seq<int>, p: int, m: seq<int>, data: UnicodeData)
    requires Run(a, data).done != [] && Run(a, data).last <= data.combining(p) != 0
    requires !Combines(Run(a, data), p, data) && AllCombine((a + [p]) + m, |a| + 1, data)
    ensures Without(Run(a + m, data), Run((a + [p]) + m, data), p, Run(a, data).last, data)
    ensures AllAbove(m, p, data)
  {
    if m == [] {
      assert a + m == a && (a + [p]) + m == a + [p];
      RunNext(a, p, data);
    } else {
      var m0, u := m[..|m| - 1], m[|m| - 1];
      MoveLast(a, m);
      MoveLast(a + [p], m);
      AllCombinePrefix((a + [p]) + m0, u, |a| + 1, data);
      RunWithout(a, p, m0, data);
      RunNext(a + m0, u, data);
      RunNext((a + [p]) + m0, u, data);
      WithoutNext(Run(a + m0, data), Run((a + [p]) + m0, data), p, u, Run(a, data).last, data);
      AboveNext(m, p, data);
    }
  }

  lemma WithoutNext(r: State, st: State, p: int, u: int, last: nat, data: UnicodeData)
    requires Without(r, st, p, last, data) && last <= data.combining(p) && Combines(st, u, data)
    ensures Without(Step(r, u, data), Step(st, u, data), p, last, data) && data.combining(u) > data.combining(p)
  {
    StepWithout(r, p, u, data);
    CombineKeeps(r, u, data);
  }

  lemma OrderedWithout(a: seq<int>, p: int, m: seq<int>, cls: int -> nat)
    requires Ordered((a + [p]) + m, cls) && cls(p) != 0 && forall k :: 0 <= k < |m| ==> cls(m[k]) > cls(p)
    ensures Ordered(a + m, cls)
  {
    var c, b := (a + [p]) + m, a + m;
    forall i | 0 < i < |b|
      ensures cls(b[i]) == 0 || cls(b[i - 1]) <= cls(b[i])
    {
      if i < |a| {
        assert c[i] == b[i] && c[i - 1] == b[i - 1];
      } else if i > |a| {
        assert c[i + 1] == b[i] && c[i] == b[i - 1];
      } else {
        assert c[i] == p && c[i - 1] == b[i - 1] && b[i] == m[0];
      }
    }
  }

  /** Without the mark `p` at its end, a text has its canonical order without `p`. */
  lemma CanonicalWithout(e: seq<int>, a: seq<int>, p: int, m: seq<int>, cls: int -> nat)
    requires Canonical(e + [p], cls) == (a + [p]) + m && cls(p) != 0
    requires forall k :: 0 <= k < |m| ==> cls(m[k]) > cls(p)
    ensures Canonical(e, cls) == a + m
  {
    CanonicalOrders(e + [p], cls);
    OrderedWithout(a, p, m, cls);
    MovePast(p, m, cls);
    ReorderingPrepend(a, [p] + m, m + [p], cls);
    Regroup(a, [p], m);
    Regroup(a, m, [p]);
    ReorderingTransitive(e + [p], (a + [p]) + m, (a + m) + [p], cls);
    ReorderingInit(e + [p], (a + m) + [p], cls);
    assert (e + [p])[..|e|] == e && ((a + m) + [p])[..|a + m|] == a + m;
    CanonicalIsTheOrderedReordering(e, a + m, cls);
  }

  /** Input that composition does not lose anything of. */
  ghost predicate IsGood(x: Setting, c: seq<int>) {
    Input(x, c) && !HasStray(c) && !Outdated(x, c)
  }

  /** A lost tail has moved, but composes to the same. */
  lemma LostTailRecomposes(x: Setting, c: seq<int>)
    requires x.Sound() && x.KnowsParts() && IsGood(x, c) && TailLost(x, c)
    ensures Begins(x, Restored(x, c)) && Run(Restored(x, c), x.data).done == Run(c, x.data).done
  {
    var j :| LostAt(x, c, j);
    LostIsLeft(x, c, j);
    LastAtMost(x, c, j);
    SplitAround(c, j);
    LostMarkRecomposes(x, c[..j], c[j], c[j + 1..]);
  }

  lemma SplitAround(c: seq<int>, j: nat)
    requires j < |c|
    ensures c == (c[..j] + [c[j]]) + c[j + 1..]
  {}

  lemma LostMarkRecomposes(x: Setting, a: seq<int>, p: int, m: seq<int>)
    requires x.Sound() && a != [] && IsPair(p) && x.data.combining(p) != 0
    requires x.KnowsParts() && IsGood(x, (a + [p]) + m) && x.Cls()(p) != 0
    requires Run(a, x.data).done != [] && Run(a, x.data).last <= x.data.combining(p)
    requires !Combines(Run(a, x.data), p, x.data) && AllCombine((a + [p]) + m, |a| + 1, x.data)
    ensures var c := (a + [p]) + m;
      && Restored(x, c) == (a + m) + [p] && Begins(x, Restored(x, c))
      && Run(Restored(x, c), x.data).done == Run(c, x.data).done
  {
    var c := (a + [p]) + m;
    RunWithout(a, p, m, x.data);
    var r := Run(a + m, x.data);
    RunNext(a + m, p, x.data);
    PairIsLeft(r, p, x.data);
    assert c[|a|] == p && c[0] == a[0];
    DecNext(x, r.done, p);
    CompositionUndoneExactly(x, c);
    KnownClass(x, p);
    AboveByClass(x, a, p, m);
    LostMarkMoves(x.Dec(r.done), a, p, m, x.Cls());
  }

  /** What combines within the version is known to it, and so are its classes. */
  lemma AboveByClass(x: Setting, a: seq<int>, p: int, m: seq<int>)
    requires x.Sound() && x.KnowsParts() && !Outdated(x, (a + [p]) + m) && AllAbove(m, p, x.data)
    requires AllCombine((a + [p]) + m, |a| + 1, x.data)
    ensures forall k :: 0 <= k < |m| ==> x.Cls()(m[k]) > x.Cls()(p)
  {
    var c := (a + [p]) + m;
    KnownClass(x, p);
    forall k | 0 <= k < |m|
      ensures x.Cls()(m[k]) > x.Cls()(p)
    {
      var i := |a| + 1 + k;
      assert c[i] == m[k] && !OutdatedAt(x, c, i);
      assert Combines(Run(c[..i], x.data), c[i], x.data);
      MarkIsKnown(x, Base(Run(c[..i], x.data), c[i]), c[i]);
    }
  }

  lemma LostMarkMoves(e: seq<int>, a: seq<int>, p: int, m: seq<int>, cls: int -> nat)
    requires a != [] && IsPair(p) && cls(p) != 0 && Canonical(e + [p], cls) == (a + [p]) + m
    requires forall k :: 0 <= k < |m| ==> cls(m[k]) > cls(p)
    ensures LoopOrder(e + [p], cls) == (a + m) + [p]
  {
    var c := a + m;
    CanonicalWithout(e, a, p, m, cls);
    SkippedAgain(e, p, c, cls);
  }

  lemma LastAtMost(x: Setting, c: seq<int>, j: int)
    requires x.Sound() && x.KnowsParts() && Input(x, c) && !Outdated(x, c) && LostAt(x, c, j)
    ensures j > 0 && Run(c[..j], x.data).last <= x.data.combining(c[j])
  {
    LostIsLeft(x, c, j);
    PrefixIsGood(x, c, j);
    RunUndone(x, c[..j]);
    KnownClass(x, c[j]);
    assert Follows(x, c[j - 1], c[j]);
    if Tainted(x, Run(c[..j], x.data)) {
      TaintedStays(x, c, j);
    }
  }

  lemma PrefixIsGood(x: Setting, c: seq<int>, j: nat)
    requires Input(x, c) && !Outdated(x, c) && 0 < j <= |c|
    ensures Input(x, c[..j]) && !Outdated(x, c[..j])
  {
    forall k | 0 <= k < j
      ensures !OutdatedAt(x, c[..j], k)
    {
      assert c[..j][..k] == c[..k] && !OutdatedAt(x, c, k);
    }
  }

  /** Behind a mark that is left and one that the version does not know, the next to combine is outdated. */
  lemma TaintedStays(x: Setting, c: seq<int>, j: int)
    requires Begins(x, c) && LostAt(x, c, j) && j > 0 && Tainted(x, Run(c[..j], x.data))
    ensures Outdated(x, c)
  {
    var st := Run(c[..j], x.data);
    LostIsLeft(x, c, j);
    RunSnoc(c, j + 1, x.data);
    var k :| st.starter < k < |st.done| && x.Cls()(st.done[k]) == 0;
    assert Run(c[..j + 1], x.data).done[k] == st.done[k];
    assert Combines(Run(c[..j + 1], x.data), c[j + 1], x.data);
    assert OutdatedAt(x, c, j + 1);
  }

  /** The text with every stray replaced by the decomposition of what it results in. */
  ghost function Cleaned(x: Setting, cs: seq<int>): seq<int>
    requires WellFounded(x.Rep(), x.rank)
  {
    if cs == [] then []
    else
      var c, u := Cleaned(x, cs[..|cs| - 1]), cs[|cs| - 1];
      var st := Run(c, x.data);
      if |c| >= 2 && IsStray(u) && Combines(st, u, x.data) && IsOpenSyllable(Base(st, u)) then
        c[..|c| - 2] + x.Full(x.data.Ligature(Base(st, u), u))
      else c + [u]
  }

  /** The jamo of an open syllable and a stray compose to one code point. */
  lemma StrayStep(x: Setting, b: seq<int>, l: int, v: int, u: int)
    requires x.Sound() && IsLeading(l) && IsVowel(v) && IsStray(u)
    ensures var st := Run((b + [l]) + [v], x.data); var open := x.data.Ligature(l, v);
      && st.done != [] && Base(st, u) == open && x.data.Ligature(open, u) == open + (u - HANGUL_T_BASE)
      && Step(st, u, x.data)
      == State(Run(b, x.data).done + [open + (u - HANGUL_T_BASE)], |Run(b, x.data).done|, 0)
  {
    var r := Run(b, x.data);
    var open := x.data.Ligature(l, v);
    RunNext(b, l, x.data);
    RunNext(b + [l], v, x.data);
    OpenSyllableComposes(x, r, l, v);
    LigatureOfLV(l, v, x.data);
    LigatureWithStray(open, u, x.data);
    LastCombines(State(r.done + [open], |r.done|, 0), open, u, x.data);
    assert (r.done + [open])[..|r.done|] == r.done;
  }

  /** What a stray can result in: an open syllable that the version knows, or the code point behind the last one. */
  predicate IsStrayResult(x: Setting, s: int) {
    (IsOpenSyllable(s) && x.Knows(s)) || s == HANGUL_S_BASE + HANGUL_S_COUNT
  }

  /** It composes as it decomposes. */
  lemma StrayResultComposes(x: Setting, b: seq<int>, s: int)
    requires x.Sound() && IsStrayResult(x, s)
    ensures Run(b + x.Full(s), x.data) == State(Run(b, x.data).done + [s], |Run(b, x.data).done|, 0)
    ensures !Outdated(x, b) ==> !Outdated(x, b + x.Full(s))
  {
    if IsOpenSyllable(s) {
      var jamo := Jamo(s);
      FullOfSyllable(x, s);
      SyllableOfJamo(s, x.data);
      RunNext(b, jamo[0], x.data);
      RunNext(b + [jamo[0]], jamo[1], x.data);
      OpenSyllableComposes(x, Run(b, x.data), jamo[0], jamo[1]);
      OutdatedNext(x, b, jamo[0]);
      OutdatedNext(x, b + [jamo[0]], jamo[1]);
      OpenSyllableIsKept(x, Run(b, x.data), jamo[0], jamo[1]);
      InTwo(b, jamo);
    } else {
      FullOfPlain(x, s);
      RunNext(b, s, x.data);
      OutdatedNext(x, b, s);
      assert x.data.Ligature(Base(Run(b, x.data), s), s) == 0;
    }
  }

  lemma InTwo(b: seq<int>, d: seq<int>)
    requires |d| == 2
    ensures b + d == (b + [d[0]]) + [d[1]]
  {}

  lemma OpenSyllableIsKept(x: Setting, st: State, l: int, v: int)
    requires x.Sound() && st.Valid() && IsLeading(l) && IsVowel(v) && x.Rep()(x.data.Ligature(l, v)).Some?
    ensures !Outdates(x, st, l) && !Outdates(x, Step(st, l, x.data), v)
  {
    JamoOfLV(l, v);
    assert !Combines(st, l, x.data);
    assert Step(st, l, x.data) == State(st.done + [l], |st.done|, 0);
  }

  /** What stands for a stray is good input again. */
  lemma StrayResultIsInput(x: Setting, b: seq<int>, l: int, v: int, s: int)
    requires x.Sound() && IsGood(x, (b + [l]) + [v]) && IsStrayResult(x, s)
    ensures var c := b + x.Full(s);
      IsGood(x, c) && c != [] && x.data.combining(c[|c| - 1]) == 0
  {
    StrayResult(x, s);
    assert (b + [l]) + [v] == b + ([l] + [v]);
    InputInPlace(x, b, [l] + [v], x.Full(s));
    NoStrayInPlace(b, [l] + [v], x.Full(s));
    OutdatedNext(x, b + [l], v);
    OutdatedNext(x, b, l);
    StrayResultComposes(x, b, s);
  }

  /** Plain starters may stand in the place of others. */
  lemma InputInPlace(x: Setting, b: seq<int>, former: seq<int>, next: seq<int>)
    requires Input(x, b + former) && next != []
    requires forall i :: 0 <= i < |next| ==>
      IsScalar(next[i]) && x.Rep()(next[i]).None? && x.data.combining(next[i]) == 0
    ensures Input(x, b + next) && x.data.combining((b + next)[|b + next| - 1]) == 0
  {
    var c0, c := b + former, b + next;
    forall i | 0 <= i < |c|
      ensures IsScalar(c[i]) && x.Rep()(c[i]).None?
    {
      assert i < |b| ==> c[i] == c0[i];
    }
    forall i | 0 < i < |c|
      ensures x.Cls()(c[i]) == 0 || x.Cls()(c[i - 1]) <= x.Cls()(c[i])
    {
      assert i < |b| ==> c[i] == c0[i] && c[i - 1] == c0[i - 1];
    }
    assert b != [] ==> c[0] == c0[0];
  }

  lemma NoStrayInPlace(b: seq<int>, former: seq<int>, next: seq<int>)
    requires !HasStray(b + former) && forall i :: 0 <= i < |next| ==> !IsStray(next[i])
    ensures !HasStray(b + next)
  {
    forall i | 0 <= i < |b + next|
      ensures !StrayAt(b + next, i)
    {
      assert i + 2 < |b| && StrayAt(b + next, i) ==> StrayAt(b + former, i);
    }
  }

  lemma StrayResult(x: Setting, s: int)
    requires x.Sound() && IsStrayResult(x, s)
    ensures x.Full(s) != []
    ensures forall i :: 0 <= i < |x.Full(s)| ==> var u := x.Full(s)[i];
      IsScalar(u) && x.Rep()(u).None? && x.data.combining(u) == 0 && !IsStray(u)
  {
    if IsOpenSyllable(s) {
      FullOfSyllable(x, s);
      JamoArePlain(x, Jamo(s)[0]);
      JamoArePlain(x, Jamo(s)[1]);
    } else {
      FullOfPlain(x, s);
    }
  }

  /** What the cleaned text has to do with the text. */
  ghost predicate IsClean(x: Setting, c: seq<int>, cs: seq<int>) {
    && cs != [] && IsGood(x, c) && Run(c, x.data) == Run(cs, x.data)
    && x.data.combining(c[|c| - 1]) == x.data.combining(cs[|cs| - 1])
    && (x.data.combining(cs[|cs| - 1]) != 0 ==> c[|c| - 1] == cs[|cs| - 1])
  }

  lemma OpenAndStray(x: Setting, open: int, u: int)
    requires x.Sound() && IsStrayOn(x, open, u)
    ensures IsStrayResult(x, open + (u - HANGUL_T_BASE))
  {}

  lemma StrayIsStarter(x: Setting, u: int)
    requires x.Sound() && IsStray(u)
    ensures x.data.combining(u) == 0
  {}

  /** In the text `c`, which ends in the jamo of an open syllable, what a following stray comes to. */
  function StrayResultOf(c: seq<int>, u: int, data: UnicodeData): int
    requires |c| >= 2
  {
    data.Ligature(c[|c| - 2], c[|c| - 1]) + (u - HANGUL_T_BASE)
  }

  lemma JamoReplaced(x: Setting, c: seq<int>, cs: seq<int>, u: int)
    requires x.Sound() && IsClean(x, c, cs) && IsStray(u)
    requires |c| >= 2 && IsLeading(c[|c| - 2]) && IsVowel(c[|c| - 1])
    requires x.Knows(x.data.Ligature(c[|c| - 2], c[|c| - 1]))
    ensures IsClean(x, c[..|c| - 2] + x.Full(StrayResultOf(c, u, x.data)), cs + [u])
  {
    var b, l, v := c[..|c| - 2], c[|c| - 2], c[|c| - 1];
    var s := StrayResultOf(c, u, x.data);
    LastThree(c, u);
    StrayIsStarter(x, u);
    StrayStep(x, b, l, v, u);
    LigatureOfLV(l, v, x.data);
    OpenAndStray(x, x.data.Ligature(l, v), u);
    StrayResultComposes(x, b, s);
    StrayResultIsInput(x, b, l, v, s);
    RunNext(cs, u, x.data);
    assert (cs + [u])[|cs|] == u;
  }

  lemma StrayBase(x: Setting, c: seq<int>, u: int)
    requires x.Sound() && IsStray(u) && |c| >= 2 && IsLeading(c[|c| - 2]) && IsVowel(c[|c| - 1])
    ensures x.data.Ligature(Base(Run(c, x.data), u), u) == StrayResultOf(c, u, x.data)
    ensures Base(Run(c, x.data), u) == x.data.Ligature(c[|c| - 2], c[|c| - 1])
  {
    LastThree(c, u);
    StrayStep(x, c[..|c| - 2], c[|c| - 2], c[|c| - 1], u);
  }

  lemma StrayFollowsJamo(x: Setting, c: seq<int>, u: int)
    requires x.Sound() && x.KnowsParts() && IsGood(x, c) && IsStray(u) && !Outdates(x, Run(c, x.data), u)
    requires Combines(Run(c, x.data), u, x.data) && IsOpenSyllable(Base(Run(c, x.data), u))
    ensures |c| >= 2 && IsLeading(c[|c| - 2]) && IsVowel(c[|c| - 1]) && x.Knows(Base(Run(c, x.data), u))
  {
    RunUndone(x, c);
    RunReorders(x, c);
    StrayWasThere(x, Run(c, x.data), c[|c| - 1], c, u);
    LastThree(c, u);
    if !x.Knows(Base(Run(c, x.data), u)) {
      StrayOnUnknown(x, Base(Run(c, x.data), u), u);
    }
  }

  lemma StrayStepCleaned(x: Setting, c: seq<int>, cs: seq<int>, u: int)
    requires x.Sound() && x.KnowsParts() && IsClean(x, c, cs) && IsStray(u) && !Outdates(x, Run(c, x.data), u)
    requires Combines(Run(c, x.data), u, x.data) && IsOpenSyllable(Base(Run(c, x.data), u))
    ensures |c| >= 2
    ensures IsClean(x, c[..|c| - 2] + x.Full(x.data.Ligature(Base(Run(c, x.data), u), u)), cs + [u])
  {
    StrayFollowsJamo(x, c, u);
    StrayBase(x, c, u);
    JamoReplaced(x, c, cs, u);
  }

  lemma LastThree(c: seq<int>, u: int)
    requires |c| >= 2
    ensures c == (c[..|c| - 2] + [c[|c| - 2]]) + [c[|c| - 1]]
    ensures (c + [u])[|c| - 2] == c[|c| - 2] && (c + [u])[|c| - 1] == c[|c| - 1]
  {}

  lemma InputAppended(x: Setting, c: seq<int>, cs: seq<int>, u: int)
    requires IsClean(x, c, cs) && Input(x, cs + [u])
    ensures Input(x, c + [u]) && (c + [u])[|c|] == (cs + [u])[|cs|] == u
  {
    var d := cs + [u];
    assert d[|cs|] == u && d[|cs| - 1] == cs[|cs| - 1];
  }

  lemma OtherStepCleaned(x: Setting, c: seq<int>, cs: seq<int>, u: int)
    requires x.Sound() && IsClean(x, c, cs) && Input(x, cs + [u]) && !Outdates(x, Run(c, x.data), u)
    requires !(IsStray(u) && Combines(Run(c, x.data), u, x.data) && IsOpenSyllable(Base(Run(c, x.data), u)))
    ensures IsClean(x, c + [u], cs + [u])
  {
    RunNext(c, u, x.data);
    RunNext(cs, u, x.data);
    InputAppended(x, c, cs, u);
    OutdatedNext(x, c, u);
    StrayNextCombines(x, c, u);
    NoStrayNext(c, u);
  }

  lemma StrayNextCombines(x: Setting, c: seq<int>, u: int)
    requires x.Sound()
    ensures |c| >= 2 && StrayAt(c + [u], |c| - 2) ==>
      IsStray(u) && Combines(Run(c, x.data), u, x.data) && IsOpenSyllable(Base(Run(c, x.data), u))
  {
    if |c| >= 2 && StrayAt(c + [u], |c| - 2) {
      StrayCombines(x, c + [u], |c| - 2);
      assert (c + [u])[..|c|] == c && (c + [u])[|c|] == u;
    }
  }

  lemma NoStrayNext(c: seq<int>, u: int)
    requires !HasStray(c) && !(|c| >= 2 && StrayAt(c + [u], |c| - 2))
    ensures !HasStray(c + [u])
  {
    forall i | 0 <= i < |c + [u]|
      ensures !StrayAt(c + [u], i)
    {
      assert i < |c| - 2 && StrayAt(c + [u], i) ==> StrayAt(c, i);
    }
  }

  lemma NoTwoInOne(cs: seq<int>)
    requires |cs| == 1
    ensures !HasStray(cs)
  {}

  lemma {:induction false} CleanedIsClean(x: Setting, cs: seq<int>)
    requires x.Sound() && x.KnowsParts() && Input(x, cs) && !Outdated(x, cs)
    ensures IsClean(x, Cleaned(x, cs), cs)
  {
    var init, u := cs[..|cs| - 1], cs[|cs| - 1];
    if |cs| == 1 {
      assert cs == [u] && init == [] && [] + [u] == [u];
      NoTwoInOne(cs);
    } else {
      SplitLast(cs);
      InputPrefix(x, cs);
      OutdatedNext(x, init, u);
      CleanedIsClean(x, init);
      var c := Cleaned(x, init);
      if IsStray(u) && Combines(Run(c, x.data), u, x.data) && IsOpenSyllable(Base(Run(c, x.data), u)) {
        StrayStepCleaned(x, c, init, u);
      } else {
        OtherStepCleaned(x, c, init, u);
      }
    }
  }

  lemma OrderedRecomposes(x: Setting, cs: seq<int>)
    requires x.Sound() && x.KnowsParts() && Input(x, cs) && !Outdated(x, cs)
    ensures Begins(x, Restored(x, cs)) && Run(Restored(x, cs), x.data).done == Run(cs, x.data).done
  {
    var c := Cleaned(x, cs);
    CleanedIsClean(x, cs);
    if TailLost(x, c) {
      LostTailRecomposes(x, c);
    } else {
      OrderedRestoredExactly(x, c);
    }
  }

  lemma SkippedRecomposes(x: Setting, c0: seq<int>, z: int)
    requires x.Sound() && x.KnowsParts() && Input(x, c0) && Skips(z, c0[|c0| - 1], x.Cls()) && x.Rep()(z).None?
    requires !Outdated(x, c0)
    ensures Begins(x, Restored(x, c0 + [z]))
    ensures Run(Restored(x, c0 + [z]), x.data).done == Run(c0 + [z], x.data).done
  {
    var c := Cleaned(x, c0);
    CleanedIsClean(x, c0);
    KnownClass(x, c0[|c0| - 1]);
    SkippedIsLeft(x, c0, z);
    CompositionUndoneExactly(x, c);
    DecNext(x, Run(c0, x.data).done, z);
    SkippedAgain(x.Dec(Run(c, x.data).done), z, c, x.Cls());
    SkippedIsLeft(x, c, z);
  }

  /** Whatever a decomposed form composes to, its own decomposed form composes to the same. */
  lemma RestoredRecomposes(x: Setting, cs: seq<int>)
    requires x.Sound() && x.KnowsParts() && FixedInput(x, cs) && !Outdated(x, cs)
    ensures Begins(x, Restored(x, cs)) && Run(Restored(x, cs), x.data).done == Run(cs, x.data).done
  {
    FixedInputIs(x, cs);
    if Input(x, cs) {
      OrderedRecomposes(x, cs);
    } else {
      SplitLast(cs);
      OutdatedNext(x, cs[..|cs| - 1], cs[|cs| - 1]);
      SkippedRecomposes(x, cs[..|cs| - 1], cs[|cs| - 1]);
    }
  }

  // ---------- The forms ----------

  /** The decomposed form of the well-formed text `s` does not begin with a mark. */
  ghost predicate FormBegins(x: Setting, s: seq<Unit>)
    requires WellFounded(x.Rep(), x.rank)
  {
    var f := PointsD(x, CodePoints(s));
    AllScalar(CodePoints(s)) && (f != [] ==> x.data.combining(f[0]) == 0)
  }

  lemma EmptyForm(x: Setting)
    requires WellFounded(x.Rep(), x.rank)
    ensures FormD(x, []) == []
  {
    assert CodePoints([]) == [] && ExpandAll([], x.Rep(), x.rank).points == [] && Text([]) == [];
    assert Decomposed([], x.Rep(), x.rank) == [] && LoopOrder([], x.Cls()) == [];
  }

  /** A decomposed form in code points, its composition, and the decomposed form of that. */
  lemma FormPoints(x: Setting, s: seq<Unit>)
    requires x.Sound() && FormBegins(x, s) && PointsD(x, CodePoints(s)) != []
    ensures var f := PointsD(x, CodePoints(s));
      && FixedInput(x, f) && CodePoints(FormD(x, s)) == f && FormC(x, s) == Text(Run(f, x.data).done)
      && AllScalar(Run(f, x.data).done) && CodePoints(FormC(x, s)) == Run(f, x.data).done
      && AllScalar(Restored(x, f)) && FormD(x, FormC(x, s)) == Text(Restored(x, f))
      && CodePoints(FormD(x, FormC(x, s))) == Restored(x, f)
  {
    var f := PointsD(x, CodePoints(s));
    PointsOfFormD(x, s);
    PointsDStay(x, CodePoints(s));
    ComposedAsPoints(FormD(x, s), x.data);
    RestoredPoints(Run(f, x.data).done);
    PointsOfFormD(x, FormC(x, s));
  }

  /**
   * A composed form has the same decomposed form as the string it came from exactly when that
   * decomposed form has no stray, stays within what the version knows and loses no tail.
   */
  lemma FormsExactly(x: Setting, s: seq<Unit>)
    requires x.Sound() && x.KnowsParts() && FormBegins(x, s)
    ensures FormD(x, FormC(x, s)) == FormD(x, s) <==> IsKept(x, PointsD(x, CodePoints(s)))
  {
    var f := PointsD(x, CodePoints(s));
    PointsOfFormD(x, s);
    if f == [] {
      EmptyForm(x);
    } else {
      FormPoints(x, s);
      RestoredExactly(x, f);
    }
  }

  ghost predicate IsKept(x: Setting, f: seq<int>) {
    !HasStray(f) && !Outdated(x, f) && !TailLost(x, f)
  }

  /** Composing it once more does not change it, as long as it stays within what the version knows. */
  lemma FormsAreStable(x: Setting, s: seq<Unit>)
    requires x.Sound() && x.KnowsParts() && FormBegins(x, s) && !Outdated(x, PointsD(x, CodePoints(s)))
    ensures FormC(x, FormC(x, s)) == FormC(x, s)
  {
    var f := PointsD(x, CodePoints(s));
    PointsOfFormD(x, s);
    if f == [] {
      EmptyForm(x);
    } else {
      FormPoints(x, s);
      RestoredRecomposes(x, f);
      ComposedAsPoints(FormD(x, FormC(x, s)), x.data);
    }
  }

  /** Where both are kept, composed forms tell the same strings apart as decomposed forms do. */
  lemma FormsAgree(x: Setting, s: seq<Unit>, t: seq<Unit>)
    requires x.Sound() && x.KnowsParts() && FormBegins(x, s) && FormBegins(x, t)
    requires IsKept(x, PointsD(x, CodePoints(s))) && IsKept(x, PointsD(x, CodePoints(t)))
    ensures FormC(x, s) == FormC(x, t) <==> FormD(x, s) == FormD(x, t)
  {
    FormsExactly(x, s);
    FormsExactly(x, t);
  }
}

/** Texts with which the call fails its promises, and what it costs Hangul. */
module CallExamples {
  import opened Units
  import opened UnicodeTables
  import opened Utf16Text
  import opened QString
  import opened CanonicalOrder
  import opened CanonicalOrderLoop
  import opened Decompose
  import opened LoopResult
  import opened Compose
  import opened Soundness
  import opened Recomposition
  import opened Normalize
  import opened NormalizationCall

  // ---------- Text of starters and one ligature ----------

  predicate AllStarters(x: Setting, cs: seq<int>) {
    forall i :: 0 <= i < |cs| ==> x.data.combining(cs[i]) == 0
  }

  lemma StartersStay(x: Setting, cs: seq<int>)
    requires AllStarters(x, cs)
    ensures LoopOrder(cs, x.Cls()) == cs
  {
    forall i | 0 <= i < |cs|
      ensures x.Cls()(cs[i]) == 0
    {}
    OrderedStays(cs, x.Cls());
  }

  /** Basic text, as units and as code points. */
  lemma BasicText(s: seq<Unit>)
    requires NoSurrogates(s)
    ensures CodePoints(s) == s && Text(s) == s && AllScalar(s)
  {
    CodePointsOfUnits(s);
    TextOfUnits(s);
  }

  /** A unit that is a code point by itself. */
  predicate Basic(u: Unit) {
    !IsHigh(u) && !IsLow(u)
  }

  lemma OneText(a: Unit)
    requires Basic(a)
    ensures CodePoints([a]) == [a] && Text([a]) == [a]
  {
    BasicText([a]);
  }

  lemma TwoText(a: Unit, b: Unit)
    requires Basic(a) && Basic(b)
    ensures CodePoints([a, b]) == [a, b] && Text([a, b]) == [a, b] && NoHigh([a, b])
  {
    BasicText([a, b]);
  }

  lemma ThreeText(a: Unit, b: Unit, c: Unit)
    requires Basic(a) && Basic(b) && Basic(c)
    ensures CodePoints([a, b, c]) == [a, b, c] && Text([a, b, c]) == [a, b, c] && NoHigh([a, b, c])
  {
    BasicText([a, b, c]);
  }

  lemma RestBehind(c: Unit, t: seq<Unit>)
    ensures Rest([c] + t, 2) == Rest(t, 1)
  {}

  /** A code point with a replacement of two goes over one unit behind it. */
  lemma TwoOver(c: Unit, a: Unit, b: Unit, t: seq<Unit>, rep: Replacements, rank: int -> nat)
    requires WellFounded(rep, rank) && Tidy(rep) && Basic(c) && Basic(a) && Basic(b)
    requires rep(c) == Some([a, b]) && rep(a).None? && rep(b).None?
    ensures Written([c], t, rep, rank) == [a, b] + Rest(t, 1)
  {
    TwoText(a, b);
    RestBehind(c, t);
    assert [c][..0] + [a, b] == [a, b];
    assert Written([c], t, rep, rank) == Written([a, b], Rest(t, 1), rep, rank);
    PlainIsWritten([a, b], Rest(t, 1), rep, rank);
  }

  lemma KeptBehindOne(c: Unit, d: int, rep: Replacements, rank: int -> nat)
    requires WellFounded(rep, rank) && Tidy(rep) && IsScalar(c) && IsScalar(d) && rep(d).None?
    ensures Written([c] + Encode(d), [], rep, rank) == Written([c], Encode(d), rep, rank)
  {
    var p := [c] + Encode(d);
    CodePointsConcat([c], Encode(d));
    CodePointsOfOne(d);
    assert CodePoints([c]) + [d] == CodePoints(p);
    assert LastPoint(p) == d && p[..|p| - LastWidth(p)] == [c] && p[|p| - LastWidth(p)..] + [] == Encode(d);
  }

  // ---------- Normalizing twice ----------

  /** `c` is made of the starter `a` and the mark `m`, and the starter `u` combines with neither. */
  ghost predicate MarkThenStarter(x: Setting, a: Unit, m: Unit, u: Unit, c: Unit) {
    && Basic(c) && Basic(a) && Basic(m) && Basic(u) && x.Rep()(c) == Some([a, m])
    && x.Rep()(a).None? && x.Rep()(m).None? && x.Rep()(u).None?
    && x.data.combining(a) == 0 && x.data.combining(m) > 0 && x.data.combining(u) == 0
    && x.data.Ligature(a, m) == c != 0 && x.data.Ligature(c, u) == 0
  }

  lemma MarkRuns(x: Setting, a: Unit, m: Unit, u: Unit, c: Unit)
    requires x.Sound() && MarkThenStarter(x, a, m, u, c)
    ensures Run([a, m], x.data) == State([c], 0, 0) && Run([a, m, u], x.data).done == [c, u]
  {
    RunOfOne([a], x.data);
    RunNext([a], m, x.data);
    RunNext([a, m], u, x.data);
    PutTogether(a, m, u, c);
  }

  lemma MarkOrders(x: Setting, a: Unit, m: Unit, u: Unit, c: Unit)
    requires MarkThenStarter(x, a, m, u, c)
    ensures LoopOrder([a, m], x.Cls()) == [a, m] && LoopOrder([a, m, u], x.Cls()) == [a, m, u]
  {
    assert x.Cls()(a) == 0 && x.Cls()(u) == 0;
    OrderedStays([a, m], x.Cls());
    OrderedStays([a, m, u], x.Cls());
  }

  lemma FirstCall(x: Setting, a: Unit, m: Unit, u: Unit, c: Unit)
    requires x.Sound() && MarkThenStarter(x, a, m, u, c)
    ensures CallC(x, [a, m, u]) == [c, u]
  {
    MarkRuns(x, a, m, u, c);
    ThreeAreSimple(x, a, m, u, c);
    CallOfSimple(x, [a, m, u], [c, u]);
  }

  /** A basic text that the first two loops leave alone, and what it is composed to. */
  ghost predicate IsSimple(x: Setting, s: seq<Unit>, t: seq<Unit>) {
    CodePoints(s) == s && AllPlain(s, x.Rep()) && LoopOrder(s, x.Cls()) == s && Text(t) == t
  }

  lemma ThreeAreSimple(x: Setting, a: Unit, m: Unit, u: Unit, c: Unit)
    requires MarkThenStarter(x, a, m, u, c)
    ensures IsSimple(x, [a, m, u], [c, u])
  {
    ThreeText(a, m, u);
    TwoText(c, u);
    MarkOrders(x, a, m, u, c);
  }

  lemma TwoAreSimple(x: Setting, a: Unit, m: Unit, u: Unit, c: Unit)
    requires MarkThenStarter(x, a, m, u, c)
    ensures IsSimple(x, [a, m], [c])
  {
    TwoText(a, m);
    OneText(c);
    MarkOrders(x, a, m, u, c);
  }

  lemma CallOfSimple(x: Setting, s: seq<Unit>, t: seq<Unit>)
    requires x.Sound() && IsSimple(x, s, t) && Run(s, x.data).done == t
    ensures CallD(x, s) == s && Composed(s, x.data) == t && CallC(x, s) == t
  {
    PlainCall(x, s);
    ComposedAsPoints(s, x.data);
  }

  lemma SecondCall(x: Setting, a: Unit, m: Unit, u: Unit, c: Unit)
    requires x.Sound() && MarkThenStarter(x, a, m, u, c)
    ensures CallC(x, [c, u]) == [c]
  {
    MarkRuns(x, a, m, u, c);
    TwoAreSimple(x, a, m, u, c);
    CallOfSimple(x, [a, m], [c]);
    OneLost(x, a, m, u, c);
    SameLoopResult(x, [c, u], [a, m]);
  }

  /** What the decomposing loop writes for one text and leaves of another goes the same way. */
  lemma SameLoopResult(x: Setting, s: seq<Unit>, w: seq<Unit>)
    requires x.Sound() && Written(s, [], x.Rep(), x.rank) == w && AllPlain(CodePoints(w), x.Rep())
    ensures CallC(x, s) == CallC(x, w)
  {
    PlainIsWritten(w, [], x.Rep(), x.rank);
    assert w + [] == w;
  }

  lemma OneLost(x: Setting, a: Unit, m: Unit, u: Unit, c: Unit)
    requires x.Sound() && MarkThenStarter(x, a, m, u, c)
    ensures Written([c, u], [], x.Rep(), x.rank) == [a, m]
  {
    KeptBehindOne(c, u, x.Rep(), x.rank);
    TwoOver(c, a, m, Encode(u), x.Rep(), x.rank);
    assert [c] + Encode(u) == [c, u] && [a, m] + Rest(Encode(u), 1) == [a, m];
  }

  /** What the tables say of U+0041, U+0301, U+0062 and U+00C1. */
  ghost predicate AcuteTables(x: Setting) {
    && x.Rep()(0xc1) == Some([0x41, 0x301]) && x.Rep()(0x41).None? && x.Rep()(0x301).None? && x.Rep()(0x62).None?
    && x.data.combining(0x41) == 0 && x.data.combining(0x301) == 230 && x.data.combining(0x62) == 0
    && x.data.pair(0x41, 0x301) == 0xc1 && x.data.pair(0xc1, 0x62) == 0
  }

  /** U+0041 U+0301 U+0062 is composed to U+00C1 U+0062, and that, composed again, to U+00C1. */
  lemma TwiceExample(x: Setting)
    requires x.Sound() && AcuteTables(x)
    ensures CallC(x, [0x41, 0x301, 0x62]) == [0xc1, 0x62] && CallC(x, [0xc1, 0x62]) == [0xc1]
  {
    assert MarkThenStarter(x, 0x41, 0x301, 0x62, 0xc1);
    FirstCall(x, 0x41, 0x301, 0x62, 0xc1);
    SecondCall(x, 0x41, 0x301, 0x62, 0xc1);
  }

  // ---------- A mark at the end ----------

  /** A composed starter in front of a supplementary mark costs that its high surrogate. */
  lemma MarkIsCutInHalf(x: Setting, a: Unit, m: int, n: Unit, lig: Unit)
    requires x.Sound() && PassesPair(x, a, m, n, lig) && Basic(lig) && Basic(a) && Basic(n) && m < 0x11_0000
    ensures CallD(x, Composed(Text([a, m, n]), x.data)) == [a, n, Low(m)]
  {
    PassingRun(x, a, m, n, lig);
    ComposedOfText(x, [a, m, n]);
    PassingText(lig, m);
    LigatureReplaced(x, a, n);
    NoSyllableOfMark(x, a, n);
    KeptBehindOne(lig, m, x.Rep(), x.rank);
    TwoOver(lig, a, n, Encode(m), x.Rep(), x.rank);
    HalfIsLast(x, a, n, Low(m));
  }

  lemma PassingText(lig: Unit, m: int)
    requires IsPair(m) && m < 0x11_0000
    ensures Text([lig, m]) == [lig] + Encode(m) && Rest(Encode(m), 1) == [Low(m)]
  {
    TextNext([lig], m);
    TextOfOne(lig);
    assert [lig] + [m] == [lig, m];
  }

  lemma NoSyllableOfMark(x: Setting, a: Unit, n: Unit)
    requires x.Sound() && x.data.Ligature(a, n) != 0 && x.data.combining(n) > 0
    ensures !IsSyllable(x.data.Ligature(a, n))
  {
    if IsSyllable(x.data.Ligature(a, n)) {
      SyllableEndsInJamo(x, a, n);
    }
  }

  lemma HalfIsLast(x: Setting, a: Unit, n: Unit, low: Unit)
    requires x.Sound() && x.data.combining(a) == 0 && !IsHigh(a) && !IsLow(a) && !IsHigh(n) && !IsLow(n) && IsLow(low)
    ensures var s := [a, n] + [low]; Text(LoopOrder(CodePoints(s), x.Cls())) == s == [a, n, low]
  {
    var s := [a, n] + [low];
    UnitsAreCodePoints(s);
    assert x.Cls()(a) == 0 && x.Cls()(low) == 0;
    OrderedStays(s, x.Cls());
    TextOfUnits(s);
  }

  /** U+0061 U+1D165 U+0301 comes back as U+0061 U+0301 U+DD65. */
  lemma HalfExample(x: Setting)
    requires x.Sound() && ExampleTables(x)
    ensures CallD(x, Composed(Text([0x61, 0x1d165, 0x301]), x.data)) == [0x61, 0x301, 0xdd65]
  {
    ExamplePasses(x);
    MarkIsCutInHalf(x, 0x61, 0x1d165, 0x301, 0xe1);
    LowOfMark();
  }

  lemma LowOfMark()
    ensures Low(0x1d165) == 0xdd65
  {}

  // ---------- Newer characters ----------

  /** U+1B05 U+1B35 and U+1B06 as a version sees them that is older than they are. */
  ghost predicate BalineseTables(x: Setting) {
    && !x.Knows(0x1b05) && !x.Knows(0x1b35) && !x.Knows(0x1b06)
    && x.data.combining(0x1b05) == 0 && x.data.combining(0x1b35) == 0 && x.data.pair(0x1b05, 0x1b35) == 0x1b06
  }

  /** They are composed, because composition takes no version, and not decomposed again. */
  lemma NewerExample(x: Setting)
    requires x.Sound() && BalineseTables(x)
    ensures CallD(x, [0x1b05, 0x1b35]) == [0x1b05, 0x1b35] && Composed([0x1b05, 0x1b35], x.data) == [0x1b06]
    ensures CallD(x, [0x1b06]) == [0x1b06] && Outdated(x, [0x1b05, 0x1b35])
  {
    assert x.data.Ligature(0x1b05, 0x1b35) == 0x1b06;
    NewerIsSimple(x, 0x1b05, 0x1b35, 0x1b06);
    NewerRun(x, 0x1b05, 0x1b35, 0x1b06);
    CallOfSimple(x, [0x1b05, 0x1b35], [0x1b06]);
    PlainCall(x, [0x1b06]);
  }

  lemma NewerIsSimple(x: Setting, a: Unit, u: Unit, c: Unit)
    requires Basic(a) && Basic(u) && Basic(c) && x.Rep()(a).None? && x.Rep()(u).None? && x.Rep()(c).None?
    requires x.data.combining(a) == 0 && x.data.combining(u) == 0 && x.data.combining(c) == 0
    ensures IsSimple(x, [a, u], [c]) && IsSimple(x, [c], [c])
  {
    TwoText(a, u);
    OneText(c);
    StartersStay(x, [a, u]);
    StartersStay(x, [c]);
  }

  lemma NewerRun(x: Setting, a: Unit, u: Unit, c: Unit)
    requires x.data.combining(a) == 0 && x.data.combining(u) == 0 && x.data.Ligature(a, u) == c != 0
    requires x.Rep()(c).None? && !IsOpenSyllable(a)
    ensures Run([a, u], x.data).done == [c] && Outdated(x, [a, u])
  {
    RunOfOne([a], x.data);
    RunNext([a], u, x.data);
    assert [a] + [u] == [a, u] && [a][0 := c] == [c];
    assert [a, u][..1] == [a] && OutdatedAt(x, [a, u], 1);
  }

  /** Whatever its class, a character that is newer than the version keeps its place. */
  lemma NewerKeepsPlace(x: Setting, cs: seq<int>, i: nat)
    requires i < |cs| && x.data.version(cs[i]) > x.version
    ensures |LoopOrder(cs, x.Cls())| == |cs| && LoopOrder(cs, x.Cls())[i] == cs[i]
  {
    LoopOrderKeepsStarters(cs, x.Cls());
  }

  /** Two marks behind a starter are exchanged exactly when the version knows both and the first is of higher class. */
  lemma TwoMarksExactly(x: Setting, a: Unit, m: Unit, n: Unit)
    requires x.data.combining(a) == 0 && x.data.combining(m) > 0 && x.data.combining(n) > 0
    ensures LoopOrder([a, m, n], x.Cls())
      == if x.data.version(m) <= x.version && x.data.version(n) <= x.version
            && x.data.combining(m) > x.data.combining(n)
         then [a, n, m] else [a, m, n]
  {
    var cls := x.Cls();
    assert cls(a) == 0;
    PlacedBehindStarter(a, m, cls);
    PlacedThird(a, m, n, cls);
    assert [a, m, n][..2] == [a, m];
  }

  lemma PlacedBehindStarter(a: int, m: int, cls: int -> nat)
    requires cls(a) == 0
    ensures Canonical([a, m], cls) == [a, m] && Canonical([a], cls) == [a]
  {
    assert [a, m][..1] == [a] && [a][..0] == [];
  }

  lemma PlacedThird(a: int, m: int, n: int, cls: int -> nat)
    requires cls(a) == 0
    ensures Place([a, m], n, cls) == if 0 < cls(n) < cls(m) then [a, n, m] else [a, m, n]
  {
    assert [a, m][..1] == [a] && [a][..0] == [];
  }

  /** What the tables say of U+0061, and of U+0358 and U+0323, whose classes are 232 and 220. */
  ghost predicate MarkTables(x: Setting) {
    && x.data.combining(0x61) == 0 && x.data.combining(0x358) == 232 && x.data.combining(0x323) == 220
    && x.Rep()(0x61).None? && x.Rep()(0x358).None? && x.Rep()(0x323).None? && x.data.version(0x323) <= x.version
  }

  /** U+0061 U+0358 U+0323 is put in order in a version that knows U+0358, and left alone in any older one. */
  lemma NewerMarkExample(x: Setting)
    requires x.Sound() && MarkTables(x)
    ensures CallD(x, [0x61, 0x358, 0x323]) == if x.Knows(0x358) then [0x61, 0x323, 0x358] else [0x61, 0x358, 0x323]
  {
    TwoMarksExactly(x, 0x61, 0x358, 0x323);
    MarksText(x, 0x61, 0x358, 0x323);
    ThreeText(0x61, 0x323, 0x358);
  }

  lemma MarksText(x: Setting, a: Unit, m: Unit, n: Unit)
    requires x.Sound() && Basic(a) && Basic(m) && Basic(n) && x.Rep()(a).None? && x.Rep()(m).None? && x.Rep()(n).None?
    ensures CallD(x, [a, m, n]) == Text(LoopOrder([a, m, n], x.Cls())) && Text([a, m, n]) == [a, m, n]
  {
    ThreeText(a, m, n);
    PlainIsWritten([a, m, n], [], x.Rep(), x.rank);
    assert [a, m, n] + [] == [a, m, n];
  }

  // ---------- Hangul ----------

  predicate AllOpen(s: seq<int>) {
    forall i :: 0 <= i < |s| ==> IsOpenSyllable(s[i])
  }

  function Vowels(s: seq<int>): seq<Unit>
    requires AllOpen(s)
  {
    if s == [] then [] else Vowels(s[..|s| - 1]) + [Jamo(s[|s| - 1])[1]]
  }

  /** One syllable, with `t` behind it. */
  lemma SyllableWritten(x: Setting, p: seq<Unit>, c: int, t: seq<Unit>)
    requires x.Sound() && IsOpenSyllable(c) && x.Knows(c)
    ensures Written(p + [c], t, x.Rep(), x.rank) == Written(p, Jamo(c) + Rest(t, 1), x.Rep(), x.rank)
  {
    SyllableReplaced(x, p, c, t);
    JamoArePlain(x, Jamo(c)[0]);
    JamoArePlain(x, Jamo(c)[1]);
    TwoKept(x, p, Jamo(c), Rest(t, 1));
  }

  lemma TwoKept(x: Setting, p: seq<Unit>, d: seq<Unit>, t: seq<Unit>)
    requires WellFounded(x.Rep(), x.rank) && Tidy(x.Rep()) && |d| == 2 && !IsLow(d[0]) && !IsLow(d[1])
    requires x.Rep()(d[0]).None? && x.Rep()(d[1]).None?
    ensures Written(p + d, t, x.Rep(), x.rank) == Written(p, d + t, x.Rep(), x.rank)
  {
    TwoRegrouped(p, d, t);
    UnitKept(x, p + [d[0]], d[1], t);
    UnitKept(x, p, d[0], [d[1]] + t);
  }

  lemma TwoRegrouped(p: seq<Unit>, d: seq<Unit>, t: seq<Unit>)
    requires |d| == 2
    ensures p + d == (p + [d[0]]) + [d[1]] && d + t == [d[0]] + ([d[1]] + t)
  {}

  lemma SyllableReplaced(x: Setting, p: seq<Unit>, c: int, t: seq<Unit>)
    requires x.Sound() && IsOpenSyllable(c) && x.Knows(c)
    ensures Written(p + [c], t, x.Rep(), x.rank) == Written(p + Jamo(c), Rest(t, 1), x.Rep(), x.rank)
  {
    var s := p + [c];
    FullOfSyllable(x, c);
    assert LastPoint(s) == c && s[..|s| - 1] == p && s[|s| - 1..] + t == [c] + t;
    RestBehind(c, t);
  }

  lemma UnitKept(x: Setting, p: seq<Unit>, u: Unit, t: seq<Unit>)
    requires WellFounded(x.Rep(), x.rank) && Tidy(x.Rep()) && x.Rep()(u).None? && !IsLow(u)
    ensures Written(p + [u], t, x.Rep(), x.rank) == Written(p, [u] + t, x.Rep(), x.rank)
  {
    var s := p + [u];
    assert LastPoint(s) == u && s[..|s| - 1] == p && s[|s| - 1..] + t == [u] + t;
  }

  /** What a text of open syllables is decomposed to: one leading consonant and all vowels. */
  function OneLeading(s: seq<int>): seq<Unit>
    requires AllOpen(s) && s != []
  {
    [Jamo(s[0])[0]] + Vowels(s)
  }

  lemma OneLeadingNext(s: seq<int>, c: int, t: seq<Unit>)
    requires AllOpen(s) && IsOpenSyllable(c)
    ensures AllOpen(s + [c])
    ensures s == [] ==> OneLeading(s + [c]) == Jamo(c)
    ensures s != [] ==> OneLeading(s + [c]) + t == OneLeading(s) + ([Jamo(c)[1]] + t)
  {
    assert (s + [c])[..|s|] == s;
    if s == [] {
      assert Vowels(s + [c]) == [Jamo(c)[1]] && Jamo(c) == [Jamo(c)[0]] + [Jamo(c)[1]];
    } else {
      Regroup([Jamo(s[0])[0]], Vowels(s), [Jamo(c)[1]]);
      Regroup(OneLeading(s), [Jamo(c)[1]], t);
    }
  }

  /** All but the first lose their leading consonant. */
  lemma {:induction false} OpenSyllablesWritten(x: Setting, s: seq<Unit>, t: seq<Unit>)
    requires x.Sound() && AllOpen(s) && s != [] && x.Knows(HANGUL_S_BASE)
    ensures Written(s, t, x.Rep(), x.rank) == OneLeading(s) + Rest(t, 1)
    decreases |s|
  {
    var init, c := s[..|s| - 1], s[|s| - 1];
    assert s == init + [c] && x.Knows(c);
    SyllableWritten(x, init, c, t);
    OneLeadingNext(init, c, Rest(t, 1));
    if init != [] {
      OpenSyllablesWritten(x, init, Jamo(c) + Rest(t, 1));
      SecondOfJamo(c, Rest(t, 1));
    }
  }

  lemma SecondOfJamo(c: int, t: seq<Unit>)
    requires IsOpenSyllable(c)
    ensures Rest(Jamo(c) + t, 1) == [Jamo(c)[1]] + t
  {}

  lemma {:induction false} VowelsAreJamo(x: Setting, s: seq<int>)
    requires AllOpen(s)
    ensures forall i :: 0 <= i < |Vowels(s)| ==> IsVowel(Vowels(s)[i])
    ensures |Vowels(s)| == |s|
  {
    if s != [] {
      VowelsAreJamo(x, s[..|s| - 1]);
    }
  }

  /** Text of syllables without trailing consonants is decomposed to one leading consonant and its vowels. */
  lemma HangulIsLost(x: Setting, s: seq<Unit>)
    requires x.Sound() && AllOpen(s) && s != [] && x.Knows(HANGUL_S_BASE)
    ensures CallD(x, s) == OneLeading(s)
  {
    OpenSyllablesWritten(x, s, []);
    assert OneLeading(s) + Rest([], 1) == OneLeading(s);
    VowelsAreJamo(x, s);
    JamoText(x, OneLeading(s));
  }

  lemma JamoText(x: Setting, w: seq<Unit>)
    requires x.Sound() && forall i :: 0 <= i < |w| ==> 0x1100 <= w[i] < 0x1200
    ensures Text(LoopOrder(CodePoints(w), x.Cls())) == w
  {
    BasicText(w);
    StartersStay(x, w);
  }

  /** U+AC00 U+AC00 becomes U+1100 U+1161 U+1161, and composed U+AC00 U+1161. */
  lemma HangulExample(x: Setting)
    requires x.Sound() && x.Knows(HANGUL_S_BASE) && x.data.pair(0xac00, 0x1161) == 0
    ensures CallD(x, [0xac00, 0xac00]) == [0x1100, 0x1161, 0x1161] && CallC(x, [0xac00, 0xac00]) == [0xac00, 0x1161]
  {
    TwoSyllables();
    HangulIsLost(x, [0xac00, 0xac00]);
    LigatureExample(x.data);
    JamoRun(x, 0x1100, 0x1161, 0xac00);
    JamoComposed(x, 0x1100, 0x1161, 0xac00);
  }

  lemma LigatureExample(data: UnicodeData)
    requires data.pair(0xac00, 0x1161) == 0
    ensures data.Ligature(0x1100, 0x1161) == 0xac00 && data.Ligature(0xac00, 0x1161) == 0
  {}

  lemma JamoComposed(x: Setting, l: Unit, v: Unit, c: Unit)
    requires x.Sound() && Basic(l) && Basic(v) && Basic(c) && Run([l, v, v], x.data).done == [c, v]
    ensures Composed([l, v, v], x.data) == [c, v]
  {
    ThreeText(l, v, v);
    TwoText(c, v);
    ComposedUnits([l, v, v], [c, v], x.data);
  }

  lemma TwoSyllables()
    ensures AllOpen([0xac00, 0xac00]) && OneLeading([0xac00, 0xac00]) == [0x1100, 0x1161, 0x1161]
  {
    var s := [0xac00, 0xac00];
    assert Jamo(0xac00) == [0x1100, 0x1161];
    OneLeadingNext([], 0xac00, []);
    OneLeadingNext([0xac00], 0xac00, []);
    assert [] + [0xac00] == [0xac00] && [0xac00] + [0xac00] == s;
    assert OneLeading(s) + [] == OneLeading(s) && [0x1161] + [] == [0x1161];
    assert [0x1100, 0x1161] + [0x1161] == [0x1100, 0x1161, 0x1161];
  }

  lemma JamoRun(x: Setting, l: int, v: int, c: int)
    requires x.Sound() && IsLeading(l) && IsVowel(v) && x.data.Ligature(l, v) == c && x.data.Ligature(c, v) == 0
    ensures Run([l, v, v], x.data).done == [c, v]
  {
    JamoOfLV(l, v);
    RunOfOne([l], x.data);
    RunNext([l], v, x.data);
    RunNext([l, v], v, x.data);
    PutTogether(l, v, v, c);
  }
}

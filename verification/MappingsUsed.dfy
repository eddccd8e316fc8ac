/**
 * Which mappings of the table a normalization makes: by version, by decomposition tag, and for
 * canonical and compatibility forms. Said of what the call writes.
 */
module MappingsUsed {
  import opened Units
  import opened UnicodeTables
  import opened Utf16Text
  import opened CanonicalOrderLoop
  import opened QString
  import opened Decompose
  import opened LoopResult
  import opened Compose
  import opened Soundness
  import opened Recomposition
  import opened NormalizationCall

  /**
   * The version knows `c`, and it is a syllable or has a mapping, which in forms D and C must be
   * canonical: its tag is 1.
   */
  predicate IsMapped(x: Setting, c: int) {
    && x.data.version(c) <= x.version && c <= 0x10_ffff
    && (0xac00 <= c <= 0xd7a3
        || (x.data.mapping(c).Some? && (x.canonical ==> x.data.mapping(c).value.tag == 1)))
  }

  ghost predicate NoneMapped(x: Setting, cs: seq<int>) {
    forall i :: 0 <= i < |cs| ==> !IsMapped(x, cs[i])
  }

  /** Exactly these code points are replaced, by what is mapped to them. */
  lemma ReplacedExactly(x: Setting, c: int)
    ensures x.Rep()(c).Some? <==> IsMapped(x, c)
    ensures IsMapped(x, c) ==> x.Rep()(c) == Some(MappedUnits(x, c))
  {}

  /** The jamo of a syllable, or the units of the table. */
  function MappedUnits(x: Setting, c: int): seq<Unit>
    requires IsMapped(x, c)
  {
    if IsSyllable(c) then Jamo(c) else x.data.mapping(c).value.units
  }

  /** Recursive decomposition takes them to the decomposition of that, and leaves all others where they are. */
  lemma DecomposedByTable(x: Setting, a: seq<int>, c: int, b: seq<int>)
    requires x.Sound()
    ensures x.Dec((a + [c]) + b)
         == x.Dec(a) + (if IsMapped(x, c) then x.Dec(CodePoints(MappedUnits(x, c))) else [c]) + x.Dec(b)
  {
    ReplacedExactly(x, c);
    DecConcat(x, a + [c], b);
    DecConcat(x, a, [c]);
    DecOfOne(x, c);
    if !IsMapped(x, c) {
      FullOfPlain(x, c);
    }
  }

  lemma NoneMappedIsFull(x: Setting, cs: seq<int>)
    ensures NoneMapped(x, cs) <==> FullyDecomposed(cs, x.Rep())
  {
    if NoneMapped(x, cs) {
      forall i | 0 <= i < |cs|
        ensures x.Rep()(cs[i]).None?
      {
        ReplacedExactly(x, cs[i]);
      }
    }
    if FullyDecomposed(cs, x.Rep()) {
      forall i | 0 <= i < |cs|
        ensures !IsMapped(x, cs[i])
      {
        ReplacedExactly(x, cs[i]);
      }
    }
  }

  // ---------- The first two loops ----------

  /** Whatever the decomposing loop loses, none of them is left; what is not mapped is left alone. */
  lemma MappedAreGone(x: Setting, s: seq<Unit>)
    requires x.Sound() && NoHigh(CodePoints(s))
    ensures NoneMapped(x, CodePoints(CallD(x, s)))
    ensures Written(s, [], x.Rep(), x.rank) == s <==> NoneMapped(x, CodePoints(s))
  {
    CallPointsArePlain(x, s);
    NoneMappedIsFull(x, CallPoints(x, s));
    NoneMappedIsFull(x, CodePoints(s));
    LeftAloneIfPlain(x, s);
  }

  lemma LeftAloneIfPlain(x: Setting, s: seq<Unit>)
    requires x.Sound() && NoHigh(CodePoints(s))
    ensures Written(s, [], x.Rep(), x.rank) == s <==> FullyDecomposed(CodePoints(s), x.Rep())
  {
    WrittenIsPlain(s, [], x.Rep(), x.rank);
    if FullyDecomposed(CodePoints(s), x.Rep()) {
      PlainIsWritten(s, [], x.Rep(), x.rank);
      assert s + [] == s;
    }
  }

  /** So a text is its own decomposed form exactly when nothing in it is mapped and it is in the loop's order. */
  lemma DecomposedStaysExactly(x: Setting, s: seq<Unit>)
    requires x.Sound() && NoHigh(CodePoints(s))
    ensures CallD(x, s) == s <==> NoneMapped(x, CodePoints(s)) && LoopOrder(CodePoints(s), x.Cls()) == CodePoints(s)
  {
    CallPointsArePlain(x, s);
    NoneMappedIsFull(x, CodePoints(s));
    if NoneMapped(x, CodePoints(s)) && LoopOrder(CodePoints(s), x.Cls()) == CodePoints(s) {
      PlainCall(x, s);
    }
  }

  // ---------- Composition ----------

  /** What composing leaves: what was there, and ligatures. */
  predicate IsLigature(data: UnicodeData, c: int) {
    exists a: Unit, b: Unit :: data.Ligature(a, b) == c != 0
  }

  ghost predicate LeftOrLigature(x: Setting, c: int) {
    !IsMapped(x, c) || IsLigature(x.data, c)
  }

  lemma {:induction false} RunLeaves(x: Setting, cs: seq<int>)
    requires NoneMapped(x, cs)
    ensures forall i :: 0 <= i < |Run(cs, x.data).done| ==> LeftOrLigature(x, Run(cs, x.data).done[i])
  {
    if cs != [] {
      var init, u := cs[..|cs| - 1], cs[|cs| - 1];
      RunLeaves(x, init);
      var st := Run(init, x.data);
      if Combines(st, u, x.data) {
        assert x.data.Ligature(Base(st, u), u) != 0;
      }
    }
  }

  /** A character that the version knows to be another one in compatibility forms. */
  predicate IsCompatibility(x: Setting, c: int) {
    && x.data.version(c) <= x.version && c <= 0x10_ffff && !(0xac00 <= c <= 0xd7a3)
    && x.data.mapping(c).Some? && x.data.mapping(c).value.tag != 1
  }

  /** A ligature has no mapping but a canonical one. */
  lemma LigatureIsCanonical(x: Setting, c: int)
    requires x.Sound() && IsLigature(x.data, c) && !IsSyllable(c) && x.data.mapping(c).Some?
    ensures x.data.mapping(c).value.tag == 1
  {
    var a: Unit, b: Unit :| x.data.Ligature(a, b) == c != 0;
    if IsLeading(a) && IsVowel(b) {
      JamoOfLV(a, b);
    } else if !(IsOpenSyllable(a) && 0 <= b - HANGUL_T_BASE <= HANGUL_T_COUNT) {
      assert x.data.pair(a, b) == c;
    }
  }

  /** The composed forms have nothing mapped but ligatures; form KC, no compatibility character at all. */
  lemma ComposedAreLigatures(x: Setting, s: seq<Unit>)
    requires x.Sound() && NoHigh(CodePoints(s))
    ensures var cs := CodePoints(CallC(x, s)); forall i :: 0 <= i < |cs| ==>
      LeftOrLigature(x, cs[i]) && (!x.canonical ==> !IsCompatibility(x, cs[i]))
  {
    var f := CallPoints(x, s);
    var done := Run(f, x.data).done;
    CallPointsArePlain(x, s);
    NoneMappedIsFull(x, f);
    RunLeaves(x, f);
    ComposedAsPoints(CallD(x, s), x.data);
    CodePointsOfText(done);
    forall i | 0 <= i < |done| && !x.canonical
      ensures !IsCompatibility(x, done[i])
    {
      NoCompatibility(x, done[i]);
    }
  }

  lemma NoCompatibility(x: Setting, c: int)
    requires x.Sound() && !x.canonical && LeftOrLigature(x, c)
    ensures !IsCompatibility(x, c)
  {
    if IsMapped(x, c) && IsCompatibility(x, c) {
      LigatureIsCanonical(x, c);
    }
  }

  // ---------- An example ----------

  /** What the tables say of U+00B2, superscript two, and of U+0032. */
  ghost predicate SquareTables(data: UnicodeData, version: nat) {
    && data.mapping(0xb2) == Some(Mapping(9, [0x32])) && data.mapping(0x32).None?
    && data.version(0xb2) <= version
  }

  /** Forms KD and KC write U+0032 for it, forms D and C leave it. */
  lemma SquareExample(data: UnicodeData, version: nat, rank: int -> nat)
    requires SquareTables(data, version)
    requires Setting(data, false, version, rank).Sound() && Setting(data, true, version, rank).Sound()
    ensures var k := Setting(data, false, version, rank);
      CallD(k, [0xb2]) == [0x32] && CallC(k, [0xb2]) == [0x32]
    ensures var c := Setting(data, true, version, rank);
      CallD(c, [0xb2]) == [0xb2] && CallC(c, [0xb2]) == [0xb2]
  {
    SquareReplaced(Setting(data, false, version, rank));
    SquareLeft(Setting(data, true, version, rank));
  }

  lemma SquareReplaced(x: Setting)
    requires x.Sound() && SquareTables(x.data, x.version) && !x.canonical
    ensures CallD(x, [0xb2]) == [0x32] && CallC(x, [0xb2]) == [0x32]
  {
    ReplacedExactly(x, 0xb2);
    ReplacedExactly(x, 0x32);
    OneReplaced(x, 0xb2, 0x32);
  }

  lemma SquareLeft(x: Setting)
    requires x.Sound() && SquareTables(x.data, x.version) && x.canonical
    ensures CallD(x, [0xb2]) == [0xb2] && CallC(x, [0xb2]) == [0xb2]
  {
    ReplacedExactly(x, 0xb2);
    OneLeft(x, 0xb2);
  }

  lemma OneOfOne(x: Setting, u: Unit)
    requires !IsHigh(u) && !IsLow(u)
    ensures CodePoints([u]) == [u] && NoHigh([u]) && LoopOrder([u], x.Cls()) == [u] && Text([u]) == [u]
  {
    CodePointsOfOne(u);
    TextOfOne(u);
    OneInOrder(u, x.Cls());
  }

  lemma OneInOrder(u: int, cls: int -> nat)
    ensures LoopOrder([u], cls) == [u]
  {
    OrderedStays([u], cls);
  }

  lemma OneLeft(x: Setting, u: Unit)
    requires x.Sound() && x.Rep()(u).None? && !IsHigh(u) && !IsLow(u)
    ensures CallD(x, [u]) == [u] && CallC(x, [u]) == [u]
  {
    OneOfOne(x, u);
    PlainCall(x, [u]);
  }

  lemma OneReplaced(x: Setting, u: Unit, v: Unit)
    requires x.Sound() && x.Rep()(u) == Some([v]) && x.Rep()(v).None?
    requires !IsHigh(u) && !IsLow(u) && !IsHigh(v) && !IsLow(v)
    ensures CallD(x, [u]) == [v] && CallC(x, [u]) == [v]
  {
    OneOfOne(x, v);
    OneOver(u, v, x.Rep(), x.rank);
  }

  lemma OneOver(u: Unit, v: Unit, rep: Replacements, rank: int -> nat)
    requires WellFounded(rep, rank) && Tidy(rep) && rep(u) == Some([v]) && rep(v).None? && CodePoints([v]) == [v]
    ensures Written([u], [], rep, rank) == [v]
  {
    assert [u][..0] + [v] == [v] && [u][0..] + [] == [u] && Rest([u], 1) == [] && [v] + [] == [v];
    assert Written([u], [], rep, rank) == Written([v], [], rep, rank);
    PlainIsWritten([v], [], rep, rank);
  }
}

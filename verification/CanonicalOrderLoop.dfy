/**
 * The in-place loop of qchar.cpp that orders combining marks, on any UTF-16 text. It compares
 * neighbouring code points, exchanges them, steps back and jumps over starters; a surrogate
 * pair at the very end of the text, or in front of its last unit, escapes the comparison.
 */
module CanonicalOrderLoop {
  import opened Units
  import opened Utf16Text
  import opened UnicodeTables
  import opened CanonicalOrder

  // ---------- What the loop computes ----------

  /** All code points but the last in canonical order, then the last one. */
  function TailKept(cs: seq<int>, cls: int -> nat): seq<int>
    requires cs != []
  {
    Canonical(cs[..|cs| - 1], cls) + [cs[|cs| - 1]]
  }

  /** The last code point is never compared, because it or the one it would be compared with is a surrogate pair. */
  predicate TailSkipped(cs: seq<int>, cls: int -> nat) {
    |cs| >= 2 && (IsPair(cs[|cs| - 1]) || IsPair(TailKept(cs, cls)[|cs| - 2]))
  }

  /** The result of the loop, as code points. */
  function LoopOrder(cs: seq<int>, cls: int -> nat): seq<int> {
    if TailSkipped(cs, cls) then TailKept(cs, cls) else Canonical(cs, cls)
  }

  /** The loop orders canonically unless it skips a last code point that belongs further left. */
  lemma LoopOrderIsCanonicalExactly(cs: seq<int>, cls: int -> nat)
    ensures LoopOrder(cs, cls) == Canonical(cs, cls)
       <==> !(TailSkipped(cs, cls) && cls(TailKept(cs, cls)[|cs| - 2]) > cls(cs[|cs| - 1]) > 0)
  {
    if TailSkipped(cs, cls) {
      var c, z := Canonical(cs[..|cs| - 1], cls), cs[|cs| - 1];
      assert Canonical(cs, cls) == Place(c, z, cls);
      assert TailKept(cs, cls)[|cs| - 2] == c[|c| - 1];
    }
  }

  /** What is placed comes last, unless it is placed before something greater. */
  lemma LastPlaced(s: seq<int>, u: int, cls: int -> nat)
    ensures Place(s, u, cls)[|s|] == if s == [] || cls(u) == 0 || cls(s[|s| - 1]) <= cls(u) then u else s[|s| - 1]
  {}

  /** Marks that the loop does not exchange when `a` is last and `b` in front of it. */
  predicate Skips(a: int, b: int, cls: int -> nat) {
    0 < cls(a) < cls(b) && (IsPair(a) || IsPair(b))
  }

  /** In other words, it does unless it skips the last code point and the one that belongs last. */
  lemma LoopOrdersExactly(cs: seq<int>, cls: int -> nat)
    requires cs != []
    ensures var c := Canonical(cs, cls);
      LoopOrder(cs, cls) == c <==> !Skips(cs[|cs| - 1], c[|c| - 1], cls)
  {
    var init, z := cs[..|cs| - 1], cs[|cs| - 1];
    LoopOrderIsCanonicalExactly(cs, cls);
    LastPlaced(Canonical(init, cls), z, cls);
    assert Canonical(cs, cls)[|cs| - 1] == Place(Canonical(init, cls), z, cls)[|init|];
    if |cs| >= 2 {
      assert TailKept(cs, cls)[|cs| - 2] == Canonical(init, cls)[|init| - 1];
    }
  }

  lemma OrderedIsCanonical(cs: seq<int>, cls: int -> nat)
    requires Ordered(cs, cls)
    ensures Canonical(cs, cls) == cs
  {
    CanonicalIsTheOrderedReordering(cs, cs, cls);
  }

  /** Text in order stays as it is. */
  lemma OrderedStays(cs: seq<int>, cls: int -> nat)
    requires Ordered(cs, cls)
    ensures LoopOrder(cs, cls) == cs
  {
    OrderedIsCanonical(cs, cls);
    if cs != [] {
      OrderedIsCanonical(cs[..|cs| - 1], cls);
    }
  }

  /** So does text whose last code point alone is out of order, but skipped. */
  lemma SkippedStays(c: seq<int>, z: int, cls: int -> nat)
    requires c != [] && Ordered(c, cls) && (IsPair(z) || IsPair(c[|c| - 1]))
    ensures LoopOrder(c + [z], cls) == c + [z]
  {
    OrderedIsCanonical(c, cls);
    assert (c + [z])[..|c|] == c;
  }

  /** Text that the loop leaves alone is in order, or its last code point is skipped. */
  ghost predicate IsSkipped(f: seq<int>, cls: int -> nat) {
    |f| >= 2 && Ordered(f[..|f| - 1], cls) && Skips(f[|f| - 1], f[|f| - 2], cls)
  }

  lemma FixedExactly(f: seq<int>, cls: int -> nat)
    ensures LoopOrder(f, cls) == f <==> Ordered(f, cls) || IsSkipped(f, cls)
  {
    if Ordered(f, cls) {
      OrderedStays(f, cls);
    } else if IsSkipped(f, cls) {
      SkippedStays(f[..|f| - 1], f[|f| - 1], cls);
      assert f == f[..|f| - 1] + [f[|f| - 1]];
    } else if LoopOrder(f, cls) == f {
      CanonicalOrders(f, cls);
      FixedIsSkipped(f, cls);
    }
  }

  lemma FixedIsSkipped(f: seq<int>, cls: int -> nat)
    requires TailSkipped(f, cls) && TailKept(f, cls) == f && !Ordered(f, cls)
    ensures IsSkipped(f, cls)
  {
    var init := f[..|f| - 1];
    CanonicalOrders(init, cls);
    assert init == Canonical(init, cls);
    LastOutOfOrder(f, cls);
  }

  lemma LastOutOfOrder(f: seq<int>, cls: int -> nat)
    requires |f| >= 2 && Ordered(f[..|f| - 1], cls) && !Ordered(f, cls)
    ensures cls(f[|f| - 2]) > cls(f[|f| - 1]) > 0
  {}

  /** Going over text once more changes nothing. */
  lemma LoopOrderStays(cs: seq<int>, cls: int -> nat)
    ensures LoopOrder(LoopOrder(cs, cls), cls) == LoopOrder(cs, cls)
  {
    if TailSkipped(cs, cls) {
      CanonicalOrders(cs[..|cs| - 1], cls);
      SkippedStays(Canonical(cs[..|cs| - 1], cls), cs[|cs| - 1], cls);
    } else {
      CanonicalOrders(cs, cls);
      OrderedStays(Canonical(cs, cls), cls);
    }
  }

  lemma LoopOrderKeepsElements(cs: seq<int>, cls: int -> nat)
    ensures |LoopOrder(cs, cls)| == |cs|
    ensures forall i :: 0 <= i < |cs| ==> LoopOrder(cs, cls)[i] in cs
  {
    CanonicalKeepsElements(cs, cls);
    if cs != [] {
      CanonicalKeepsElements(cs[..|cs| - 1], cls);
    }
  }

  lemma CanonicalKeepsElements(cs: seq<int>, cls: int -> nat)
    ensures forall i :: 0 <= i < |Canonical(cs, cls)| ==> Canonical(cs, cls)[i] in cs
  {
    var c := Canonical(cs, cls);
    CanonicalPermutes(cs, cls);
    forall i | 0 <= i < |c|
      ensures c[i] in cs
    {
      assert c[i] in multiset(c);
    }
  }

  lemma LoopOrderKeepsStarters(cs: seq<int>, cls: int -> nat)
    ensures |LoopOrder(cs, cls)| == |cs|
    ensures forall i :: 0 <= i < |cs| ==>
      if cls(cs[i]) == 0 then LoopOrder(cs, cls)[i] == cs[i] else cls(LoopOrder(cs, cls)[i]) != 0
  {
    LoopOrderKeepsElements(cs, cls);
    CanonicalKeepsStarters(cs, cls);
    if cs != [] {
      CanonicalKeepsStarters(cs[..|cs| - 1], cls);
    }
  }

  lemma {:induction false} PlaceKeepsLength(s: seq<int>, u: int, cls: int -> nat)
    ensures |Text(Place(s, u, cls))| == |Text(s)| + |Encode(u)|
  {
    TextConcat(s, [u]);
    TextOfOne(u);
    if s != [] && cls(u) != 0 && cls(s[|s| - 1]) > cls(u) {
      var init, last := s[..|s| - 1], s[|s| - 1];
      PlaceKeepsLength(init, u, cls);
      TextConcat(Place(init, u, cls), [last]);
      TextOfOne(last);
    }
  }

  /** The loop neither adds nor removes units. */
  lemma {:induction false} CanonicalKeepsLength(cs: seq<int>, cls: int -> nat)
    ensures |Text(Canonical(cs, cls))| == |Text(cs)|
  {
    if cs != [] {
      CanonicalKeepsLength(cs[..|cs| - 1], cls);
      PlaceKeepsLength(Canonical(cs[..|cs| - 1], cls), cs[|cs| - 1], cls);
    }
  }

  lemma LoopOrderKeepsLength(cs: seq<int>, cls: int -> nat)
    ensures |Text(LoopOrder(cs, cls))| == |Text(cs)|
  {
    CanonicalKeepsLength(cs, cls);
    if cs != [] {
      var init, last := cs[..|cs| - 1], cs[|cs| - 1];
      CanonicalKeepsLength(init, cls);
      TextConcat(Canonical(init, cls), [last]);
      TextOfOne(last);
    }
  }

  /** In particular it does wherever all surrogate pairs are starters. */
  lemma PairsAsStarters(cs: seq<int>, cls: int -> nat)
    requires forall i :: 0 <= i < |cs| && IsPair(cs[i]) ==> cls(cs[i]) == 0
    ensures LoopOrder(cs, cls) == Canonical(cs, cls)
  {
    LoopOrderIsCanonicalExactly(cs, cls);
    if TailSkipped(cs, cls) {
      var init := cs[..|cs| - 1];
      var y := TailKept(cs, cls)[|cs| - 2];
      CanonicalPermutes(init, cls);
      assert y == Canonical(init, cls)[|init| - 1] && y in multiset(Canonical(init, cls));
      assert y in init;
    }
  }

  // ---------- Exchanges in the text ----------

  /** The text around two neighbours, before and after their exchange. */
  lemma ExchangeParts(ds: seq<int>, k: nat)
    requires k + 1 < |ds|
    ensures Text(ds) == (Text(ds[..k]) + Encode(ds[k]) + Encode(ds[k + 1])) + Text(ds[k + 2..])
    ensures Text(Exchange(ds, k)) == (Text(ds[..k]) + Encode(ds[k + 1]) + Encode(ds[k])) + Text(ds[k + 2..])
  {
    var a, x, y, b := ds[..k], ds[k], ds[k + 1], ds[k + 2..];
    ExchangeSplit(ds, k);
    TextOfFour(a, x, y, b);
    TextOfFour(a, y, x, b);
  }

  /** An exchange in the text is an exchange of code points. */
  lemma ExchangeText(ds: seq<int>, k: nat, s: seq<Unit>, pos: nat, text: seq<Unit>)
    requires k + 1 < |ds| && s == Text(ds) && pos == Offset(ds, k)
    requires text == Encode(ds[k + 1]) + Encode(ds[k])
    ensures pos + |text| <= |s| && Text(Exchange(ds, k)) == s[..pos] + text + s[pos + |text|..]
  {
    var a, x, y, b := Text(ds[..k]), Encode(ds[k]), Encode(ds[k + 1]), Text(ds[k + 2..]);
    ExchangeParts(ds, k);
    FourSlices(a, x, y, b);
    Regroup(a, y, x);
  }

  lemma TextOfFour(a: seq<int>, x: int, y: int, b: seq<int>)
    ensures Text(a + [x] + [y]) == Text(a) + Encode(x) + Encode(y)
    ensures Text((a + [x] + [y]) + b) == (Text(a) + Encode(x) + Encode(y)) + Text(b)
  {
    TextConcat(a + [x] + [y], b);
    TextConcat(a + [x], [y]);
    TextConcat(a, [x]);
    TextOfOne(x);
    TextOfOne(y);
  }

  lemma FourSlices(a: seq<Unit>, x: seq<Unit>, y: seq<Unit>, b: seq<Unit>)
    ensures var s := (a + x + y) + b;
      s[..|a|] == a && s[|a| + |x| + |y|..] == b
  {}

  lemma ExchangeParsed(ds: seq<int>, k: nat)
    requires k + 1 < |ds| && Parsed(ds)
    requires !IsHigh(ds[k]) && !IsLow(ds[k]) && !IsHigh(ds[k + 1]) && !IsLow(ds[k + 1])
    ensures Parsed(Exchange(ds, k))
  {}

  // ---------- The tail ----------

  /** Either the last code point has not moved, or the greatest one of its run has taken its place. */
  ghost predicate TailState(cs: seq<int>, ds: seq<int>, cls: int -> nat) {
    |ds| == |cs| && Reordering(cs, ds, cls) &&
    (cs != [] ==>
      || (ds[|ds| - 1] == cs[|cs| - 1] && Reordering(cs[..|cs| - 1], ds[..|ds| - 1], cls))
      || (ds[|ds| - 1] == Canonical(cs, cls)[|cs| - 1] && !TailSkipped(cs, cls)))
  }

  lemma ExchangeInside(cs: seq<int>, ds: seq<int>, k: nat, cls: int -> nat)
    requires TailState(cs, ds, cls) && k + 2 < |ds| && cls(ds[k]) > cls(ds[k + 1]) > 0
    ensures TailState(cs, Exchange(ds, k), cls)
  {
    var init := ds[..|ds| - 1];
    ExchangeReorders(ds, k, cls);
    ReorderingTransitive(cs, ds, Exchange(ds, k), cls);
    assert Exchange(ds, k)[..|ds| - 1] == Exchange(init, k);
    ExchangeReorders(init, k, cls);
    if Reordering(cs[..|cs| - 1], init, cls) {
      ReorderingTransitive(cs[..|cs| - 1], init, Exchange(init, k), cls);
    }
  }

  /** Where the last two are out of order, an ordered reordering ends in a class not below the greater. */
  lemma EndsNotBelow(ds: seq<int>, c: seq<int>, cls: int -> nat)
    requires |ds| >= 2 && cls(ds[|ds| - 2]) > cls(ds[|ds| - 1]) > 0 && Ordered(c, cls)
    requires Project(ds, cls(ds[|ds| - 2]), cls) == Project(c, cls(ds[|ds| - 2]), cls)
    ensures c != [] && cls(c[|c| - 1]) >= cls(ds[|ds| - 2])
  {
    var init, x := ds[..|ds| - 1], ds[|ds| - 2];
    LastProjected(init, cls);
    assert Project(ds, cls(x), cls) == Project(init, cls(x), cls) + [];
    EndsHigh(c, cls(x), cls);
  }

  /** Once the greatest code point of the last run stands at the end, it stays there. */
  lemma GreatestStays(cs: seq<int>, ds: seq<int>, cls: int -> nat)
    requires |ds| == |cs| >= 2 && Reordering(cs, ds, cls) && ds[|ds| - 1] == Canonical(cs, cls)[|cs| - 1]
    ensures !(cls(ds[|ds| - 2]) > cls(ds[|ds| - 1]) > 0)
  {
    var x, y, c := ds[|ds| - 2], ds[|ds| - 1], Canonical(cs, cls);
    if cls(x) > cls(y) > 0 {
      CanonicalOrders(cs, cls);
      assert Project(ds, cls(x), cls) == Project(cs, cls(x), cls) == Project(c, cls(x), cls);
      EndsNotBelow(ds, c, cls);
    }
  }

  /** The exchange of the last two code points puts the greatest one of their run at the end. */
  lemma ExchangeLast(cs: seq<int>, ds: seq<int>, cls: int -> nat)
    requires TailState(cs, ds, cls) && |ds| >= 2 && OrderedUpTo(ds, |ds| - 2, cls)
    requires cls(ds[|ds| - 2]) > cls(ds[|ds| - 1]) > 0 && !IsPair(ds[|ds| - 2]) && !IsPair(ds[|ds| - 1])
    ensures TailState(cs, Exchange(ds, |ds| - 2), cls)
  {
    ExchangeReorders(ds, |ds| - 2, cls);
    ReorderingTransitive(cs, ds, Exchange(ds, |ds| - 2), cls);
    if ds[|ds| - 1] == Canonical(cs, cls)[|cs| - 1] {
      GreatestStays(cs, ds, cls);
    } else {
      UnmovedTail(cs, ds, cls);
    }
  }

  lemma UnmovedTail(cs: seq<int>, ds: seq<int>, cls: int -> nat)
    requires |ds| == |cs| >= 2 && ds[|ds| - 1] == cs[|cs| - 1]
    requires Reordering(cs[..|cs| - 1], ds[..|ds| - 1], cls) && OrderedUpTo(ds, |ds| - 2, cls)
    ensures ds == TailKept(cs, cls)
    ensures cls(ds[|ds| - 2]) > cls(ds[|ds| - 1]) > 0 ==> Canonical(cs, cls)[|cs| - 1] == ds[|ds| - 2]
  {
    var init := ds[..|ds| - 1];
    CanonicalIsTheOrderedReordering(cs[..|cs| - 1], init, cls);
    assert ds == init + [ds[|ds| - 1]];
    LastOfCanonical(cs, cls);
  }

  lemma LastOfCanonical(cs: seq<int>, cls: int -> nat)
    requires |cs| >= 2
    ensures var kept := TailKept(cs, cls);
      cls(kept[|cs| - 2]) > cls(kept[|cs| - 1]) > 0 ==> Canonical(cs, cls)[|cs| - 1] == kept[|cs| - 2]
  {
    PlacedBefore(Canonical(cs[..|cs| - 1], cls), cs[|cs| - 1], cls);
  }

  lemma PlacedBefore(s: seq<int>, u: int, cls: int -> nat)
    requires s != []
    ensures cls(s[|s| - 1]) > cls(u) > 0 ==> Place(s, u, cls)[|s|] == s[|s| - 1]
  {}

  /** What the loop leaves when it stops. */
  lemma LoopResult(cs: seq<int>, ds: seq<int>, cls: int -> nat)
    requires TailState(cs, ds, cls)
    requires Ordered(ds, cls)
      || (|ds| >= 2 && OrderedUpTo(ds, |ds| - 2, cls) && (IsPair(ds[|ds| - 1]) || IsPair(ds[|ds| - 2])))
    ensures ds == LoopOrder(cs, cls)
  {
    if |ds| >= 2 && ds[|ds| - 1] == cs[|cs| - 1] && Reordering(cs[..|cs| - 1], ds[..|ds| - 1], cls) {
      UnmovedTail(cs, ds, cls);
      if !TailSkipped(cs, cls) {
        CanonicalIsTheOrderedReordering(cs, ds, cls);
      }
    } else {
      if |ds| >= 2 {
        GreatestStays(cs, ds, cls);
        assert Ordered(ds, cls);
      }
      CanonicalIsTheOrderedReordering(cs, ds, cls);
    }
  }

  // ---------- The loop ----------

  /** `pos` is where code point `k` begins, or inside the surrogate pair in front of it. */
  ghost predicate AtPoint(ds: seq<int>, k: int, pos: int) {
    0 <= k <= |ds| && (pos == Offset(ds, k) || (pos == Offset(ds, k) - 1 && k > 0 && IsPair(ds[k - 1])))
  }

  /** Lone surrogates are not combining marks. */
  predicate SurrogatesAreStarters(data: UnicodeData) {
    forall u :: 0xd800 <= u < 0xe000 ==> data.combining(u) == 0
  }

  /** The units at the beginning of code point `k`. */
  lemma UnitsAt(ds: seq<int>, k: nat)
    requires k < |ds| && Parsed(ds)
    ensures var s, i := Text(ds), Offset(ds, k);
      && i < |s|
      && (if IsPair(ds[k]) then i + 1 < |s| && IsHigh(s[i]) && IsLow(s[i + 1]) && Join(s[i], s[i + 1]) == ds[k]
          else s[i] == ds[k] && !(IsHigh(s[i]) && i + 1 < |s| && IsLow(s[i + 1])))
  {
    var s, i := Text(ds), Offset(ds, k);
    OffsetNext(ds, k);
    assert s[i] == Encode(ds[k])[0];
    if IsPair(ds[k]) {
      assert s[i + 1] == Encode(ds[k])[1];
    } else if k + 1 < |ds| {
      OffsetNext(ds, k + 1);
      assert s[i + 1] == Encode(ds[k + 1])[0];
    } else {
      OffsetEnd(ds);
    }
  }

  /** Reads the code point at unit `i`; a pair whose high half is not below `bound` reads as that half. */
  method CodePointAt(s: seq<Unit>, i: nat, bound: int, ghost ds: seq<int>, ghost k: nat) returns (u: int, last: nat)
    requires s == Text(ds) && Parsed(ds) && k < |ds| && i == Offset(ds, k) && bound < |s|
    ensures if IsPair(ds[k]) && i < bound then u == ds[k] && last == i + 1
            else last == i && if IsPair(ds[k]) then IsHigh(u) else u == ds[k]
  {
    UnitsAt(ds, k);
    u, last := s[i], i;
    if IsHigh(u) && i < bound && IsLow(s[i + 1]) {
      u, last := Join(s[i], s[i + 1]), i + 1;
    }
  }

  /** Where a step back from code point `k` leads, or two steps if the first leads to a low surrogate. */
  lemma Backwards(ds: seq<int>, k: nat) returns (k': nat)
    requires 0 < k < |ds| && Parsed(ds)
    ensures k' < k && 0 < Offset(ds, k) <= |Text(ds)|
    ensures var pos := Offset(ds, k) - 1;
      AtPoint(ds, k', if pos > 0 && IsLow(Text(ds)[pos]) then pos - 1 else pos)
  {
    OffsetNext(ds, k - 1);
    UnitsAt(ds, k - 1);
    k' := k - 1;
    if k > 1 {
      OffsetNext(ds, k - 2);
      if IsLow(ds[k - 1]) && !IsPair(ds[k - 2]) {
        k' := k - 2;
      }
    } else {
      assert ds[..0] == [] && Offset(ds, 0) == 0;
    }
  }

  /** The position one step back, or two if that is a low surrogate. */
  method StepBack(s: seq<Unit>, pos: nat, ghost ds: seq<int>, ghost k: nat) returns (pos': nat, ghost k': nat)
    requires s == Text(ds) && Parsed(ds) && k < |ds| && pos == Offset(ds, k)
    ensures AtPoint(ds, k', pos') && (k' < k || k' == k == 0)
  {
    pos', k' := pos, k;
    if k > 0 {
      k' := Backwards(ds, k);
    } else {
      assert ds[..0] == [] && Offset(ds, 0) == 0;
    }
    if pos' > 0 {
      pos' := pos' - 1;
    }
    if pos' > 0 && IsLow(s[pos']) {
      pos' := pos' - 1;
    }
  }

  /** What holds at every head of the loop: `ds` is the text so far, ordered up to code point `k`. */
  ghost predicate Going(cs: seq<int>, s: seq<Unit>, pos: int, ds: seq<int>, k: int, cls: int -> nat) {
    s == Text(ds) && Parsed(ds) && TailState(cs, ds, cls) && AtPoint(ds, k, pos) && OrderedUpTo(ds, k, cls)
  }

  /** What holds when the loop has stopped. */
  ghost predicate Stopped(cs: seq<int>, s: seq<Unit>, ds: seq<int>, cls: int -> nat) {
    && s == Text(ds) && TailState(cs, ds, cls)
    && (Ordered(ds, cls)
        || (|ds| >= 2 && OrderedUpTo(ds, |ds| - 2, cls) && (IsPair(ds[|ds| - 1]) || IsPair(ds[|ds| - 2]))))
  }

  /** How many code points lie behind a position near the end. */
  lemma NearEnd(ds: seq<int>, k: nat)
    requires Parsed(ds) && k <= |ds|
    ensures Offset(ds, k) >= |Text(ds)| ==> k == |ds|
    ensures Offset(ds, k) >= |Text(ds)| - 1 ==> k >= |ds| - 1
    ensures Offset(ds, k) <= |Text(ds)|
  {
    OffsetEnd(ds);
    if k < |ds| {
      OffsetNext(ds, k);
      if k + 1 < |ds| {
        OffsetNext(ds, k + 1);
      }
    }
  }

  lemma RunOut(cs: seq<int>, s: seq<Unit>, pos: int, ds: seq<int>, k: int, cls: int -> nat)
    requires Going(cs, s, pos, ds, k, cls) && pos >= |s| - 1
    ensures Stopped(cs, s, ds, cls)
  {
    NearEnd(ds, k);
  }

  lemma LowHalf(ds: seq<int>, k: nat, pos: nat)
    requires Parsed(ds) && AtPoint(ds, k, pos) && pos != Offset(ds, k)
    ensures pos < |Text(ds)| && IsLow(Text(ds)[pos])
  {
    OffsetNext(ds, k - 1);
    UnitsAt(ds, k - 1);
  }

  /** The first code point of a comparison; inside a pair it is the low half. */
  method FirstPoint(s: seq<Unit>, pos: nat, ghost ds: seq<int>, ghost k: nat) returns (u: int, last: nat)
    requires s == Text(ds) && Parsed(ds) && AtPoint(ds, k, pos) && pos < |s| - 1
    ensures k < |ds|
    ensures pos == Offset(ds, k) ==> u == ds[k] && last + 1 == Offset(ds, k + 1)
    ensures pos != Offset(ds, k) ==> IsLow(u) && last + 1 == Offset(ds, k)
    ensures last == if IsPair(u) then pos + 1 else pos
  {
    NearEnd(ds, k);
    OffsetEnd(ds);
    OffsetNext(ds, k);
    if pos == Offset(ds, k) {
      UnitsAt(ds, k);
    } else {
      LowHalf(ds, k, pos);
    }
    u, last := s[pos], pos;
    if IsHigh(u) && IsLow(s[pos + 1]) {
      u, last := Join(s[pos], s[pos + 1]), pos + 1;
    }
  }

  /** The exchange in the text, the step back, and what both preserve. */
  method ExchangeAndStepBack(s: seq<Unit>, pos: nat, u1: int, u2: int, ghost cs: seq<int>, ghost ds: seq<int>,
                             ghost k: nat, ghost cls: int -> nat)
      returns (s': seq<Unit>, pos': nat, ghost k': nat)
    requires Going(cs, s, pos, ds, k, cls) && k + 1 < |ds| && pos == Offset(ds, k)
    requires u1 == ds[k] && u2 == ds[k + 1] && cls(u1) > cls(u2) > 0
    requires !IsHigh(u1) && !IsLow(u1) && !IsHigh(u2) && !IsLow(u2)
    requires k + 2 == |ds| ==> !IsPair(u1) && !IsPair(u2)
    ensures Going(cs, s', pos', Exchange(ds, k), k', cls) && |s'| == |s|
  {
    if k + 2 == |ds| {
      ExchangeLast(cs, ds, cls);
    } else {
      ExchangeInside(cs, ds, k, cls);
    }
    var text := Encode(u2) + Encode(u1);
    ExchangeText(ds, k, s, pos, text);
    ExchangeParsed(ds, k);
    s' := s[..pos] + text + s[pos + |text|..];
    assert Exchange(ds, k)[..k] == ds[..k];
    pos', k' := StepBack(s', pos, Exchange(ds, k), k);
  }

  /** Which code point is compared with the one in front of it. */
  function Second(ds: seq<int>, k: nat, pos: nat): nat
    requires k <= |ds|
  {
    if pos == Offset(ds, k) then k + 1 else k
  }

  /** A pair in front of the last unit ends the loop. */
  lemma StopAtPair(cs: seq<int>, s: seq<Unit>, pos: nat, ds: seq<int>, k: nat, cls: int -> nat)
    requires Going(cs, s, pos, ds, k, cls) && pos == Offset(ds, k) && k < |ds| && IsPair(ds[k])
    requires Offset(ds, k + 1) >= |s| - 1
    ensures Stopped(cs, s, ds, cls)
  {
    NearEnd(ds, k + 1);
  }

  /** A pair at the very end reads as its high half, which is a starter, and the loop runs out. */
  lemma CutAtPair(cs: seq<int>, s: seq<Unit>, pos: nat, ds: seq<int>, k: nat, cls: int -> nat)
    requires Going(cs, s, pos, ds, k, cls) && Second(ds, k, pos) < |ds| && IsPair(ds[Second(ds, k, pos)])
    requires Offset(ds, Second(ds, k, pos)) >= |s| - 2
    ensures Stopped(cs, s, ds, cls)
  {
    OffsetNext(ds, Second(ds, k, pos));
    NearEnd(ds, Second(ds, k, pos) + 1);
  }

  /** Behind a starter nothing is out of order. */
  lemma JumpOverStarter(cs: seq<int>, s: seq<Unit>, pos: nat, ds: seq<int>, k: nat, cls: int -> nat)
    requires Going(cs, s, pos, ds, k, cls) && Second(ds, k, pos) < |ds| && cls(ds[Second(ds, k, pos)]) == 0
    ensures var k' := Second(ds, k, pos) + 1;
      Going(cs, s, Offset(ds, k'), ds, k', cls) && Offset(ds, k') > pos
  {
    OffsetNext(ds, Second(ds, k, pos));
    if k < |ds| {
      OffsetNext(ds, k);
    }
  }

  /** A second code point that reads as a starter is passed over, or the loop ends with it. */
  lemma PassStarter(cs: seq<int>, s: seq<Unit>, pos: nat, ds: seq<int>, k: nat, cls: int -> nat,
                    p2: nat, u2: int, last: nat) returns (cut: bool)
    requires Going(cs, s, pos, ds, k, cls) && Second(ds, k, pos) < |ds|
    requires p2 == Offset(ds, Second(ds, k, pos)) && pos < p2 && cls(u2) == 0
    requires var c := ds[Second(ds, k, pos)];
      if IsPair(c) && p2 < |s| - 2 then u2 == c && last == p2 + 1 else last == p2 && (IsPair(c) || u2 == c)
    ensures cut ==> last + 1 >= |s| - 1 && Stopped(cs, s, ds, cls)
    ensures !cut ==> Going(cs, s, last + 1, ds, Second(ds, k, pos) + 1, cls)
  {
    var k2 := Second(ds, k, pos);
    cut := IsPair(ds[k2]) && p2 >= |s| - 2;
    if cut {
      CutAtPair(cs, s, pos, ds, k, cls);
    } else {
      OffsetNext(ds, k2);
      JumpOverStarter(cs, s, pos, ds, k, cls);
    }
  }

  /** A pair in order, or one whose first half is only half a pair, is left behind. */
  lemma StepOn(cs: seq<int>, s: seq<Unit>, pos: nat, ds: seq<int>, k: nat, cls: int -> nat, pos': nat)
    requires Going(cs, s, pos, ds, k, cls) && Second(ds, k, pos) < |ds|
    requires pos == Offset(ds, k) ==> cls(ds[k + 1]) == 0 || cls(ds[k]) <= cls(ds[k + 1])
    requires pos' == if pos == Offset(ds, k) && ds[k] > 0x1_0000 then pos + 2 else pos + 1
    ensures Going(cs, s, pos', ds, Second(ds, k, pos), cls)
  {
    OffsetNext(ds, k);
  }

  /** Two code points out of order have both been read whole, and neither is a surrogate. */
  lemma OutOfOrder(s: seq<Unit>, pos: nat, ds: seq<int>, k: nat, u1: int, u2: int, p2: nat,
                   version: nat, data: UnicodeData)
    requires SurrogatesAreStarters(data) && s == Text(ds) && Parsed(ds) && k < |ds| && Second(ds, k, pos) < |ds|
    requires if pos == Offset(ds, k) then u1 == ds[k] else IsLow(u1)
    requires p2 == Offset(ds, Second(ds, k, pos)) && (IsPair(u1) ==> p2 < |s| - 1)
    requires var c := ds[Second(ds, k, pos)];
      if IsPair(c) && p2 < |s| - 2 then u2 == c else if IsPair(c) then IsHigh(u2) else u2 == c
    requires data.Class(version, u1) > data.Class(version, u2) > 0
    ensures pos == Offset(ds, k) && k + 1 < |ds| && u1 == ds[k] && u2 == ds[k + 1]
    ensures !IsHigh(u1) && !IsLow(u1) && !IsHigh(u2) && !IsLow(u2)
    ensures k + 2 == |ds| ==> !IsPair(u1) && !IsPair(u2)
  {
    OffsetNext(ds, Second(ds, k, pos));
    OffsetEnd(ds);
  }

  lemma InOrder(s: seq<Unit>, pos: nat, ds: seq<int>, k: nat, u1: int, u2: int, p2: nat,
                version: nat, data: UnicodeData)
    requires SurrogatesAreStarters(data) && s == Text(ds) && Parsed(ds) && k < |ds| && Second(ds, k, pos) < |ds|
    requires if pos == Offset(ds, k) then u1 == ds[k] else IsLow(u1)
    requires p2 == Offset(ds, Second(ds, k, pos))
    requires var c := ds[Second(ds, k, pos)];
      if IsPair(c) && p2 < |s| - 2 then u2 == c else if IsPair(c) then IsHigh(u2) else u2 == c
    requires data.Class(version, u1) <= data.Class(version, u2) && data.Class(version, u2) > 0
    ensures pos == Offset(ds, k) ==> data.Class(version, ds[k]) <= data.Class(version, ds[k + 1])
    ensures pos != Offset(ds, k) ==> IsLow(u1)
  {}

  /** Exchanges two code points that are out of order and steps back, or steps on. */
  method Compare(s: seq<Unit>, pos: nat, u1: int, c1: nat, u2: int, c2: nat, version: nat, data: UnicodeData,
                 ghost cs: seq<int>, ghost ds: seq<int>, ghost k: nat, ghost p2: nat)
      returns (s': seq<Unit>, pos': nat, ghost ds': seq<int>, ghost k': nat)
    requires SurrogatesAreStarters(data)
    requires Going(cs, s, pos, ds, k, data.Classes(version)) && k < |ds| && Second(ds, k, pos) < |ds|
    requires if pos == Offset(ds, k) then u1 == ds[k] else IsLow(u1)
    requires p2 == Offset(ds, Second(ds, k, pos)) && (IsPair(u1) ==> p2 < |s| - 1)
    requires var c := ds[Second(ds, k, pos)];
      if IsPair(c) && p2 < |s| - 2 then u2 == c else if IsPair(c) then IsHigh(u2) else u2 == c
    requires c1 == data.Class(version, u1) && c2 == data.Class(version, u2) > 0
    ensures |s'| == |s| && Going(cs, s', pos', ds', k', data.Classes(version))
    ensures Weight(ds', data.Classes(version)) < Weight(ds, data.Classes(version)) || (ds' == ds && pos' > pos)
  {
    ghost var cls := data.Classes(version);
    s', pos', ds', k' := s, pos, ds, k;
    if c1 > c2 {
      OutOfOrder(s, pos, ds, k, u1, u2, p2, version, data);
      ExchangeLowersWeight(ds, k, cls);
      s', pos', k' := ExchangeAndStepBack(s, pos, u1, u2, cs, ds, k, cls);
      ds' := Exchange(ds, k);
    } else {
      pos' := pos + 1;
      if u1 > 0x1_0000 {
        pos' := pos' + 1;
      }
      InOrder(s, pos, ds, k, u1, u2, p2, version, data);
      StepOn(cs, s, pos, ds, k, cls, pos');
      k' := Second(ds, k, pos);
    }
  }

  /** One turn of the loop. */
  method Turn(s: seq<Unit>, pos: nat, version: nat, data: UnicodeData,
              ghost cs: seq<int>, ghost ds: seq<int>, ghost k: nat)
      returns (s': seq<Unit>, pos': nat, stop: bool, ghost cut: bool, ghost ds': seq<int>, ghost k': nat)
    requires SurrogatesAreStarters(data)
    requires Going(cs, s, pos, ds, k, data.Classes(version)) && pos < |s| - 1
    ensures |s'| == |s| && (cut ==> pos' >= |s| - 1)
    ensures stop || cut ==> Stopped(cs, s', ds', data.Classes(version))
    ensures !stop && !cut ==> Going(cs, s', pos', ds', k', data.Classes(version))
    ensures !stop && !cut ==>
      Weight(ds', data.Classes(version)) < Weight(ds, data.Classes(version)) || (ds' == ds && pos' > pos)
  {
    ghost var cls := data.Classes(version);
    s', pos', stop, cut, ds', k' := s, pos, false, false, ds, k;
    var l := |s| - 1;
    var u1, p1 := FirstPoint(s, pos, ds, k);
    var p2 := p1 + 1;
    ghost var k2 := Second(ds, k, pos);
    if IsPair(u1) && p2 >= l {
      StopAtPair(cs, s, pos, ds, k, cls);
      stop := true;
      return;
    }
    NearEnd(ds, k2);
    OffsetEnd(ds);
    var u2, last := CodePointAt(s, p2, l - 1, ds, k2);
    var c2 := if data.version(u2) > version then 0 else data.combining(u2);
    if c2 == 0 {
      pos' := last + 1;
      cut := PassStarter(cs, s, pos, ds, k, cls, p2, u2, last);
      k' := k2 + 1;
      return;
    }
    var c1 := if data.version(u1) > version then 0 else data.combining(u1);
    s', pos', ds', k' := Compare(s, pos, u1, c1, u2, c2, version, data, cs, ds, k, p2);
  }

  /** Orders the combining marks of `str`. The result is exactly `LoopOrder` of its code points. */
  method CanonicalOrderHelper(str: seq<Unit>, version: nat, data: UnicodeData) returns (s: seq<Unit>)
    requires SurrogatesAreStarters(data)
    ensures s == Text(LoopOrder(CodePoints(str), data.Classes(version)))
  {
    ghost var cls, cs := data.Classes(version), CodePoints(str);
    ghost var ds, k := cs, 0;
    s := str;
    CodePointsAreParsed(str);
    TextOfCodePoints(str);
    assert cs[..0] == [];
    var pos := 0;
    var stop := false;
    ghost var cut := false;
    while !stop && pos < |s| - 1
      invariant |s| == |str| && (cut ==> pos >= |s| - 1)
      invariant if stop || cut then Stopped(cs, s, ds, cls) else 0 <= pos && Going(cs, s, pos, ds, k, cls)
      decreases !stop, if cut then 0 else Weight(ds, cls), |s| - pos
    {
      s, pos, stop, cut, ds, k := Turn(s, pos, version, data, cs, ds, k);
    }
    if !stop && !cut {
      RunOut(cs, s, pos, ds, k, cls);
    }
    LoopResult(cs, ds, cls);
  }
}

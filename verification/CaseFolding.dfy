/**
 * What a search that ignores case compares: the text of the folded code points. Said without
 * looking at single units, and with what follows for the strings that find one another.
 */
module CaseFolding {
  import opened Units
  import opened Utf16Text
  import opened StringMatcher

  function Folded(c: int, foldDiff: int -> int): int {
    c + foldDiff(c)
  }

  function FoldedAll(cs: seq<int>, foldDiff: int -> int): (fs: seq<int>)
    ensures |fs| == |cs| && forall i :: 0 <= i < |cs| ==> fs[i] == Folded(cs[i], foldDiff)
  {
    if cs == [] then [] else FoldedAll(cs[..|cs| - 1], foldDiff) + [Folded(cs[|cs| - 1], foldDiff)]
  }

  /** A folded code point takes as many units, and for a pair only the low surrogate changes. */
  predicate KeepsHalf(c: int, f: int) {
    if IsPair(c) then 0x1_0000 <= c < 0x11_0000 && 0x1_0000 <= f < 0x11_0000 && High(f) == High(c) else !IsPair(f)
  }

  /** The column has scalar values for scalar values, and no difference for high surrogates. */
  ghost predicate FoldsScalars(foldDiff: int -> int) {
    && (forall c :: IsScalar(c) ==> IsScalar(Folded(c, foldDiff)))
    && (forall u :: IsHigh(u) ==> foldDiff(u) == 0)
  }

  ghost predicate AllKeepHalf(cs: seq<int>, foldDiff: int -> int) {
    forall i :: 0 <= i < |cs| ==> KeepsHalf(cs[i], Folded(cs[i], foldDiff))
  }

  /** A search that minds case compares units. */
  lemma PlainKeys(s: seq<Unit>, foldDiff: int -> int)
    ensures Keys(s, true, foldDiff) == s
  {}

  /** One code point is compared as its folded form exactly when that keeps the high surrogate. */
  lemma PointKeysExactly(c: int, foldDiff: int -> int)
    requires IsScalar(c) && FoldsScalars(foldDiff)
    ensures Keys(Encode(c), false, foldDiff) == Encode(Folded(c, foldDiff)) <==> KeepsHalf(c, Folded(c, foldDiff))
  {
    if IsPair(c) {
      PairKeys(c, foldDiff);
    } else {
      BasicKeys(c, foldDiff);
    }
  }

  lemma BasicKeys(c: int, foldDiff: int -> int)
    requires IsScalar(c) && !IsPair(c) && FoldsScalars(foldDiff)
    ensures Keys(Encode(c), false, foldDiff) == [Folded(c, foldDiff)]
  {}

  lemma PairKeys(c: int, foldDiff: int -> int)
    requires 0x1_0000 <= c < 0x11_0000 && FoldsScalars(foldDiff)
    ensures Keys(Encode(c), false, foldDiff) == Encode(Folded(c, foldDiff)) <==> KeepsHalf(c, Folded(c, foldDiff))
  {
    var f := Folded(c, foldDiff);
    JoinedAgain(c);
    SameHalf(c, f);
    assert Keys(Encode(c), false, foldDiff) == [High(c), (Low(c) + (f - c)) % 0x1_0000_0000];
  }

  lemma SameHalf(c: int, f: int)
    requires 0x1_0000 <= c < 0x11_0000 && IsScalar(f)
    ensures [High(c), (Low(c) + (f - c)) % 0x1_0000_0000] == Encode(f) <==> KeepsHalf(c, f)
  {
    if IsPair(f) && High(f) == High(c) {
      assert Low(f) == Low(c) + (f - c);
    }
  }

  /** Text is folded piece by piece where no pair is cut. */
  lemma KeysConcat(a: seq<Unit>, b: seq<Unit>, foldDiff: int -> int)
    requires Separate(a, b)
    ensures Keys(a + b, false, foldDiff) == Keys(a, false, foldDiff) + Keys(b, false, foldDiff)
  {
    var s := a + b;
    forall i | 0 <= i < |s|
      ensures KeyAt(s, i, false, foldDiff)
           == if i < |a| then KeyAt(a, i, false, foldDiff) else KeyAt(b, i - |a|, false, foldDiff)
    {
      if i < |a| {
        SameKey(s, i, a, i, foldDiff);
      } else {
        SameKey(s, i, b, i - |a|, foldDiff);
      }
    }
  }

  /** A key depends on the unit and on whether a high surrogate stands in front of it. */
  lemma SameKey(s: seq<Unit>, i: nat, t: seq<Unit>, j: nat, foldDiff: int -> int)
    requires i < |s| && j < |t| && s[i] == t[j] && (j > 0 ==> i > 0 && s[i - 1] == t[j - 1])
    requires j == 0 && i > 0 ==> !IsHigh(s[i - 1]) || !IsLow(s[i])
    ensures KeyAt(s, i, false, foldDiff) == KeyAt(t, j, false, foldDiff)
  {}

  /** What a search that ignores case compares is the text of the folded code points. */
  lemma {:induction false} KeysAreFoldedText(cs: seq<int>, foldDiff: int -> int)
    requires AllScalar(cs) && FoldsScalars(foldDiff) && AllKeepHalf(cs, foldDiff)
    ensures Keys(Text(cs), false, foldDiff) == Text(FoldedAll(cs, foldDiff))
  {
    if cs != [] {
      var init, c := cs[..|cs| - 1], cs[|cs| - 1];
      KeysAreFoldedText(init, foldDiff);
      TextsSeparate(cs);
      KeysConcat(Text(init), Encode(c), foldDiff);
      PointKeysExactly(c, foldDiff);
      FoldedLast(cs, foldDiff);
    }
  }

  lemma FoldedLast(cs: seq<int>, foldDiff: int -> int)
    requires cs != []
    ensures Text(FoldedAll(cs, foldDiff))
         == Text(FoldedAll(cs[..|cs| - 1], foldDiff)) + Encode(Folded(cs[|cs| - 1], foldDiff))
  {
    var init := FoldedAll(cs[..|cs| - 1], foldDiff);
    assert FoldedAll(cs, foldDiff)[..|cs| - 1] == init;
  }

  /** So a needle occurs where its folded text is the folded text of what stands there. */
  lemma OccursWhereFolded(hay: seq<int>, needle: seq<int>, j: int, foldDiff: int -> int)
    requires AllScalar(hay) && AllScalar(needle) && FoldsScalars(foldDiff)
    requires AllKeepHalf(hay, foldDiff) && AllKeepHalf(needle, foldDiff)
    ensures var h, n := Text(FoldedAll(hay, foldDiff)), Text(FoldedAll(needle, foldDiff));
      OccursAt(Keys(Text(hay), false, foldDiff), Keys(Text(needle), false, foldDiff), j)
      <==> 0 <= j && j + |n| <= |h| && h[j..j + |n|] == n
  {
    KeysAreFoldedText(hay, foldDiff);
    KeysAreFoldedText(needle, foldDiff);
    OccursAsSlice(Text(FoldedAll(hay, foldDiff)), Text(FoldedAll(needle, foldDiff)), j);
  }

  lemma OccursAsSlice(h: seq<Key>, n: seq<Key>, j: int)
    ensures OccursAt(h, n, j) <==> 0 <= j && j + |n| <= |h| && h[j..j + |n|] == n
  {
    if 0 <= j && j + |n| <= |h| {
      var slice := h[j..j + |n|];
      assert forall k :: 0 <= k < |n| ==> slice[k] == h[j + k];
    }
  }

  /** Two code points find one another exactly when they have the same folded form. */
  lemma FindOneAnother(u: int, w: int, foldDiff: int -> int, r: int)
    requires IsScalar(u) && IsScalar(w) && FoldsScalars(foldDiff)
    requires KeepsHalf(u, Folded(u, foldDiff)) && KeepsHalf(w, Folded(w, foldDiff))
    requires IsFirstOccurrence(Keys(Encode(u), false, foldDiff), Keys(Encode(w), false, foldDiff), 0, r)
    ensures r == if Folded(u, foldDiff) == Folded(w, foldDiff) then 0 else -1
  {
    var f, g := Folded(u, foldDiff), Folded(w, foldDiff);
    PointKeysExactly(u, foldDiff);
    PointKeysExactly(w, foldDiff);
    if f == g {
      assert OccursAt(Encode(f), Encode(g), 0);
    } else {
      PointsApart(f, g);
    }
  }

  /** No code point occurs in the units of another. */
  lemma PointsApart(f: int, g: int)
    requires IsScalar(f) && IsScalar(g) && f != g
    ensures forall j :: !OccursAt(Encode(f), Encode(g), j)
  {
    forall j
      ensures !OccursAt(Encode(f), Encode(g), j)
    {
      if OccursAt(Encode(f), Encode(g), j) {
        assert Encode(f)[j + 0] == Encode(g)[0];
        if IsPair(g) {
          assert Encode(f)[j + 1] == Encode(g)[1];
          JoinedAgain(f);
          JoinedAgain(g);
        }
      }
    }
  }

  /** If `v` is folded to itself, it and all that are folded to it find one another and nothing else. */
  lemma CaseVariants(u: int, v: int, w: int, foldDiff: int -> int, r: int)
    requires IsScalar(u) && IsScalar(w) && FoldsScalars(foldDiff)
    requires KeepsHalf(u, Folded(u, foldDiff)) && KeepsHalf(w, Folded(w, foldDiff))
    requires Folded(v, foldDiff) == v && Folded(u, foldDiff) == v
    requires IsFirstOccurrence(Keys(Encode(u), false, foldDiff), Keys(Encode(w), false, foldDiff), 0, r)
    ensures r == 0 <==> Folded(w, foldDiff) == v
    ensures w in {u, v} ==> r == 0
  {
    FindOneAnother(u, w, foldDiff, r);
  }

  /** U+0041 is found in U+0061, and the pair of U+10400 in that of U+10428. */
  lemma FoldingExample(foldDiff: int -> int, r: int, r': int)
    requires foldDiff(0x41) == 0x20 && foldDiff(0x61) == 0 && foldDiff(0x1_0400) == 0x28 && foldDiff(0x1_0428) == 0
    requires FoldsScalars(foldDiff)
    requires IsFirstOccurrence(Keys([0x61], false, foldDiff), Keys([0x41], false, foldDiff), 0, r)
    requires IsFirstOccurrence(Keys([0xd801, 0xdc28], false, foldDiff), Keys([0xd801, 0xdc00], false, foldDiff), 0, r')
    ensures r == 0 && r' == 0
    ensures Keys([0x41], false, foldDiff) == [0x61] && Keys([0xd801, 0xdc00], false, foldDiff) == [0xd801, 0xdc28]
  {
    PairExample();
    PointKeysExactly(0x41, foldDiff);
    PointKeysExactly(0x1_0400, foldDiff);
    FindOneAnother(0x61, 0x41, foldDiff, r);
    FindOneAnother(0x1_0428, 0x1_0400, foldDiff, r');
  }

  /**
   * In the table U+0451 shares a record with U+03F1, whose difference is -48; so the small letter IO is
   * not found by the capital one, U+0401, nor the other way round.
   */
  lemma SharedRecordExample(foldDiff: int -> int, r: int, r': int)
    requires foldDiff(0x401) == 0x50 && foldDiff(0x451) == -0x30 && FoldsScalars(foldDiff)
    requires IsFirstOccurrence(Keys([0x451], false, foldDiff), Keys([0x401], false, foldDiff), 0, r)
    requires IsFirstOccurrence(Keys([0x401], false, foldDiff), Keys([0x451], false, foldDiff), 0, r')
    ensures r == -1 && r' == -1
  {
    FindOneAnother(0x451, 0x401, foldDiff, r);
    FindOneAnother(0x401, 0x451, foldDiff, r');
  }

  lemma PairExample()
    ensures Encode(0x1_0400) == [0xd801, 0xdc00] && Encode(0x1_0428) == [0xd801, 0xdc28]
  {}
}

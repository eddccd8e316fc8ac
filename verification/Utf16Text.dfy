/** Code points of UTF-16 text, where a unit that is not part of a surrogate pair counts as itself. */
module Utf16Text {
  import opened Units

  /** How many units the last code point takes. */
  function LastWidth(s: seq<Unit>): (w: nat)
    requires s != []
    ensures 1 <= w <= |s|
  {
    if |s| >= 2 && IsLow(s[|s| - 1]) && IsHigh(s[|s| - 2]) then 2 else 1
  }

  function LastPoint(s: seq<Unit>): int
    requires s != []
  {
    if LastWidth(s) == 2 then Join(s[|s| - 2], s[|s| - 1]) else s[|s| - 1]
  }

  /** Surrogate pairs count as one code point, any other unit as itself. */
  function CodePoints(s: seq<Unit>): seq<int> {
    if s == [] then [] else CodePoints(s[..|s| - LastWidth(s)]) + [LastPoint(s)]
  }

  function Encode(c: int): seq<Unit> {
    if 0x1_0000 <= c < 0x11_0000 then [High(c), Low(c)] else if 0 <= c < 0x1_0000 then [c] else []
  }

  /** No surrogate pair straddles the border between `a` and `b`. */
  predicate Separate(a: seq<Unit>, b: seq<Unit>) {
    a == [] || b == [] || !IsHigh(a[|a| - 1]) || !IsLow(b[0])
  }

  lemma LastOfConcat(a: seq<Unit>, b: seq<Unit>)
    requires b != [] && Separate(a, b)
    ensures LastWidth(a + b) == LastWidth(b) && LastPoint(a + b) == LastPoint(b)
    ensures (a + b)[..|a + b| - LastWidth(b)] == a + b[..|b| - LastWidth(b)]
  {
    var s := a + b;
    assert s[|s| - 1] == b[|b| - 1];
    if |b| >= 2 {
      assert s[|s| - 2] == b[|b| - 2];
    } else if a != [] {
      assert s[|s| - 2] == a[|a| - 1];
    }
    assert s[..|s| - LastWidth(b)] == a + b[..|b| - LastWidth(b)];
  }

  lemma {:induction false} CodePointsConcat(a: seq<Unit>, b: seq<Unit>)
    requires Separate(a, b)
    ensures CodePoints(a + b) == CodePoints(a) + CodePoints(b)
  {
    if b == [] {
      assert a + b == a;
    } else {
      var init := b[..|b| - LastWidth(b)];
      LastOfConcat(a, b);
      CodePointsConcat(a, init);
      Regroup(CodePoints(a), CodePoints(init), [LastPoint(b)]);
    }
  }

  predicate NoSurrogates(s: seq<int>) {
    forall i :: 0 <= i < |s| ==> !IsHigh(s[i]) && !IsLow(s[i])
  }

  lemma {:induction false} CodePointsOfUnits(s: seq<Unit>)
    requires NoSurrogates(s)
    ensures CodePoints(s) == s
  {
    if s != [] {
      CodePointsOfUnits(s[..|s| - 1]);
      assert s == s[..|s| - 1] + [s[|s| - 1]];
    }
  }

  predicate HasPair(s: seq<Unit>) {
    exists i :: 0 < i < |s| && IsHigh(s[i - 1]) && IsLow(s[i])
  }

  lemma PairInFront(s: seq<Unit>)
    requires s != [] && LastWidth(s) == 1
    ensures HasPair(s) <==> HasPair(s[..|s| - 1])
  {
    var init := s[..|s| - 1];
    if HasPair(init) {
      var i :| 0 < i < |init| && IsHigh(init[i - 1]) && IsLow(init[i]);
      assert IsHigh(s[i - 1]) && IsLow(s[i]);
    }
    if HasPair(s) {
      var i :| 0 < i < |s| && IsHigh(s[i - 1]) && IsLow(s[i]);
      assert IsHigh(init[i - 1]) && IsLow(init[i]);
    }
  }

  /** Units are their own code points exactly when there is no surrogate pair. */
  lemma {:induction false} UnitsAreCodePoints(s: seq<Unit>)
    ensures |CodePoints(s)| <= |s|
    ensures CodePoints(s) == s <==> !HasPair(s)
  {
    if s != [] {
      UnitsAreCodePoints(s[..|s| - LastWidth(s)]);
      if LastWidth(s) == 2 {
        assert IsHigh(s[|s| - 2]) && IsLow(s[|s| - 1]);
      } else {
        var init := s[..|s| - 1];
        PairInFront(s);
        assert s == init + [s[|s| - 1]];
        assert CodePoints(s)[..|CodePoints(s)| - 1] == CodePoints(init);
      }
    }
  }

  /** The text of a sequence of code points. */
  function Text(cs: seq<int>): seq<Unit> {
    if cs == [] then [] else Text(cs[..|cs| - 1]) + Encode(cs[|cs| - 1])
  }

  lemma LastEncodes(s: seq<Unit>)
    requires s != []
    ensures Encode(LastPoint(s)) == s[|s| - LastWidth(s)..]
  {}

  lemma {:induction false} TextOfCodePoints(s: seq<Unit>)
    ensures Text(CodePoints(s)) == s
  {
    if s != [] {
      var w := LastWidth(s);
      var cs := CodePoints(s);
      TextOfCodePoints(s[..|s| - w]);
      assert cs == CodePoints(s[..|s| - w]) + [LastPoint(s)];
      assert cs[..|cs| - 1] == CodePoints(s[..|s| - w]);
      LastEncodes(s);
    }
  }

  lemma {:induction false} TextConcat(a: seq<int>, b: seq<int>)
    ensures Text(a + b) == Text(a) + Text(b)
  {
    if b == [] {
      assert a + b == a;
    } else {
      assert (a + b)[..|a + b| - 1] == a + b[..|b| - 1];
      TextConcat(a, b[..|b| - 1]);
    }
  }

  lemma TextOfOne(c: int)
    ensures Text([c]) == Encode(c)
  {
    assert [c][..0] == [];
  }

  /** Text from its front. */
  lemma FirstOfText(cs: seq<int>)
    requires Parsed(cs) && cs != []
    ensures Encode(cs[0]) != [] && Text(cs) == Encode(cs[0]) + Text(cs[1..]) && Parsed(cs[1..])
  {
    assert cs == [cs[0]] + cs[1..];
    TextConcat([cs[0]], cs[1..]);
    TextOfOne(cs[0]);
  }

  lemma {:induction false} TextOfUnits(cs: seq<int>)
    requires forall i :: 0 <= i < |cs| ==> 0 <= cs[i] < 0x1_0000
    ensures Text(cs) == cs
  {
    if cs != [] {
      TextOfUnits(cs[..|cs| - 1]);
      assert cs == cs[..|cs| - 1] + [cs[|cs| - 1]];
    }
  }

  /** A code point that takes two units. */
  predicate IsPair(c: int) {
    c >= 0x1_0000
  }

  /** A Unicode scalar value. */
  predicate IsScalar(c: int) {
    0 <= c < 0x11_0000 && !IsHigh(c) && !IsLow(c)
  }

  predicate AllScalar(cs: seq<int>) {
    forall i :: 0 <= i < |cs| ==> IsScalar(cs[i])
  }

  /** Code points of a text in which every high surrogate has its low one. */
  predicate NoHigh(cs: seq<int>) {
    forall i :: 0 <= i < |cs| ==> 0 <= cs[i] < 0x11_0000 && !IsHigh(cs[i])
  }

  /** A sequence that can come out of `CodePoints`: its lone surrogates do not form pairs. */
  predicate Parsed(cs: seq<int>) {
    && (forall i :: 0 <= i < |cs| ==> 0 <= cs[i] < 0x11_0000)
    && (forall i :: 0 < i < |cs| ==> !(IsHigh(cs[i - 1]) && IsLow(cs[i])))
  }

  lemma {:induction false} CodePointsAreParsed(s: seq<Unit>)
    ensures Parsed(CodePoints(s))
    ensures s != [] ==> (IsHigh(CodePoints(s)[|CodePoints(s)| - 1]) <==> IsHigh(s[|s| - 1]))
  {
    if s != [] {
      CodePointsAreParsed(s[..|s| - LastWidth(s)]);
    }
  }

  lemma TextsSeparate(cs: seq<int>)
    requires Parsed(cs) && cs != []
    ensures Separate(Text(cs[..|cs| - 1]), Encode(cs[|cs| - 1]))
  {
    var init := cs[..|cs| - 1];
    if init != [] {
      var c := init[|init| - 1];
      assert c == cs[|cs| - 2] && Encode(c) != [];
      assert Text(init)[|Text(init)| - 1] == Encode(c)[|Encode(c)| - 1];
    }
  }

  lemma {:induction false} CodePointsOfText(cs: seq<int>)
    requires Parsed(cs)
    ensures CodePoints(Text(cs)) == cs
  {
    if cs != [] {
      var init, last := cs[..|cs| - 1], cs[|cs| - 1];
      CodePointsOfText(init);
      TextsSeparate(cs);
      CodePointsConcat(Text(init), Encode(last));
      CodePointsOfOne(last);
      assert cs == init + [last];
    }
  }

  lemma CodePointsOfOne(c: int)
    requires 0 <= c < 0x11_0000
    ensures CodePoints(Encode(c)) == [c]
  {
    var s := Encode(c);
    assert s[..|s| - LastWidth(s)] == [];
  }

  // ---------- Positions in the text ----------

  /** Where code point `k` begins. */
  function Offset(ds: seq<int>, k: nat): nat
    requires k <= |ds|
  {
    |Text(ds[..k])|
  }

  lemma OffsetNext(ds: seq<int>, k: nat)
    requires k < |ds| && Parsed(ds)
    ensures Offset(ds, k + 1) == Offset(ds, k) + (if IsPair(ds[k]) then 2 else 1)
    ensures Offset(ds, k + 1) <= |Text(ds)|
    ensures forall j :: 0 <= j < |Encode(ds[k])| ==> Text(ds)[Offset(ds, k) + j] == Encode(ds[k])[j]
  {
    TextUpTo(ds, k);
    TextSplit(ds, k + 1);
    var before, units, rest := Text(ds[..k]), Encode(ds[k]), Text(ds[k + 1..]);
    forall j | 0 <= j < |units|
      ensures Text(ds)[Offset(ds, k) + j] == units[j]
    {
      InTheMiddle(before, units, rest, j);
    }
  }

  lemma InTheMiddle(a: seq<Unit>, b: seq<Unit>, c: seq<Unit>, j: nat)
    requires j < |b|
    ensures (a + b + c)[|a| + j] == b[j]
  {}

  lemma TextUpTo(ds: seq<int>, k: nat)
    requires k < |ds|
    ensures Text(ds[..k + 1]) == Text(ds[..k]) + Encode(ds[k])
  {
    assert ds[..k + 1][..k] == ds[..k];
  }

  lemma TextSplit(ds: seq<int>, k: nat)
    requires k <= |ds|
    ensures Text(ds) == Text(ds[..k]) + Text(ds[k..])
  {
    assert ds == ds[..k] + ds[k..];
    TextConcat(ds[..k], ds[k..]);
  }

  lemma OffsetEnd(ds: seq<int>)
    ensures Offset(ds, |ds|) == |Text(ds)|
  {
    assert ds[..|ds|] == ds;
  }
}

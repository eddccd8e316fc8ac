/**
 * The normalization corrections that qstring.cpp makes for versions older than a correction: it
 * puts back the mapping of that time, before the loops run.
 */
module Corrections {
  import opened Units
  import opened Utf16Text
  import opened QString

  /** From `version` on, `ucs4` no longer decomposes to `oldMapping`. */
  datatype Correction = Correction(ucs4: nat, oldMapping: nat, version: nat)

  /** The halves of a code point as if it were supplementary, whether or not it is. */
  function HighHalf(c: nat): Unit {
    (c / 0x400 + 0xd7c0) % 0x1_0000
  }

  function LowHalf(c: nat): Unit {
    c % 0x400 + 0xdc00
  }

  function Halves(c: nat): seq<Unit> {
    [HighHalf(c), LowHalf(c)]
  }

  function Corrected(s: seq<Unit>, corrections: seq<Correction>, version: nat): seq<Unit> {
    if corrections == [] then s
    else
      var t, n := Corrected(s, corrections[..|corrections| - 1], version), corrections[|corrections| - 1];
      if n.version > version then Replaced(t, Halves(n.ucs4), Halves(n.oldMapping)) else t
  }

  method Correct(str: seq<Unit>, corrections: seq<Correction>, version: nat) returns (s: seq<Unit>)
    ensures s == Corrected(str, corrections, version)
  {
    s := str;
    for i := 0 to |corrections|
      invariant s == Corrected(str, corrections[..i], version)
    {
      assert corrections[..i + 1][..i] == corrections[..i];
      var n := corrections[i];
      if n.version > version {
        s := ReplaceAll(s, Halves(n.ucs4), Halves(n.oldMapping), (u: int) => 0);
      }
    }
    assert corrections[..|corrections|] == corrections;
  }

  // ---------- What a correction does ----------

  /** The text of `cs` with every `c` written as `units`. */
  function Substituted(cs: seq<int>, c: int, units: seq<Unit>): seq<Unit> {
    if cs == [] then [] else (if cs[0] == c then units else Encode(cs[0])) + Substituted(cs[1..], c, units)
  }

  /** A unit in front that does not begin what is looked for is passed over. */
  lemma PassedOver(u: Unit, t: seq<Unit>, before: seq<Unit>, after: seq<Unit>)
    requires |before| == 2 && !(u == before[0] && t != [] && t[0] == before[1])
    ensures Replaced([u] + t, before, after) == [u] + Replaced(t, before, after)
  {
    assert ([u] + t)[1..] == t;
    if |t| >= 1 {
      assert ([u] + t)[..2] == [u, t[0]];
    }
  }

  /** So is a code point whose units do not begin what is looked for. */
  lemma PointPassedOver(c: int, t: seq<Unit>, before: seq<Unit>, after: seq<Unit>)
    requires |before| == 2 && 0 <= c < 0x11_0000
    requires if IsPair(c) then Encode(c) != before && !IsLow(before[0])
             else !(c == before[0] && t != [] && t[0] == before[1])
    ensures Replaced(Encode(c) + t, before, after) == Encode(c) + Replaced(t, before, after)
  {
    if IsPair(c) {
      assert before == [before[0], before[1]];
      PassedOver(Low(c), t, before, after);
      PassedOver(High(c), [Low(c)] + t, before, after);
      assert Encode(c) + t == [High(c)] + ([Low(c)] + t);
      Regroup([High(c)], [Low(c)], Replaced(t, before, after));
      assert [High(c)] + [Low(c)] == Encode(c);
    } else {
      PassedOver(c, t, before, after);
    }
  }

  /** Neither half of a pair can be made of two code points. */
  lemma NextUnit(cs: seq<int>)
    requires Parsed(cs) && cs != [] && !IsPair(cs[0])
    ensures var t := Text(cs[1..]);
      t != [] && IsLow(t[0]) ==> !IsHigh(cs[0]) && |cs| > 1 && t[0] == cs[1]
  {
    if |cs| > 1 {
      FirstOfText(cs[1..]);
    }
  }

  /** A supplementary code point is replaced wherever it occurs. */
  lemma {:induction false} SupplementaryReplaced(cs: seq<int>, c: int, after: seq<Unit>)
    requires Parsed(cs) && 0x1_0000 <= c < 0x11_0000
    ensures Replaced(Text(cs), Encode(c), after) == Substituted(cs, c, after)
  {
    if cs != [] {
      FirstOfText(cs);
      SupplementaryReplaced(cs[1..], c, after);
      if cs[0] == c {
        FoundAtOnce(Encode(c), Text(cs[1..]), after);
      } else {
        if IsPair(cs[0]) {
          OtherPair(cs[0], c);
        } else {
          NextUnit(cs);
        }
        PointPassedOver(cs[0], Text(cs[1..]), Encode(c), after);
      }
    }
  }

  lemma FoundAtOnce(before: seq<Unit>, t: seq<Unit>, after: seq<Unit>)
    requires before != []
    ensures Replaced(before + t, before, after) == after + Replaced(t, before, after)
  {
    assert (before + t)[..|before|] == before && (before + t)[|before|..] == t;
  }

  lemma OtherPair(c: int, d: int)
    requires 0x1_0000 <= c < 0x11_0000 && 0x1_0000 <= d < 0x11_0000 && c != d
    ensures Encode(c) != Encode(d)
  {
    assert Encode(c)[0] == High(c) && Encode(c)[1] == Low(c) && Encode(d)[0] == High(d) && Encode(d)[1] == Low(d);
  }

  /** The halves of a code point of the Basic Multilingual Plane do not occur in well-formed text. */
  lemma {:induction false} BasicNotFound(cs: seq<int>, c: nat, after: seq<Unit>)
    requires AllScalar(cs) && c < 0x1_0000
    ensures Replaced(Text(cs), Halves(c), after) == Text(cs)
  {
    if cs != [] {
      FirstOfText(cs);
      BasicNotFound(cs[1..], c, after);
      if !IsPair(cs[0]) {
        NextUnit(cs);
      }
      PointPassedOver(cs[0], Text(cs[1..]), Halves(c), after);
    }
  }

  lemma HalvesOfPair(c: nat)
    requires 0x1_0000 <= c < 0x11_0000
    ensures Halves(c) == Encode(c)
  {}

  /**
   * A correction puts the old mapping in place of its code point exactly when both are supplementary:
   * any other code point is not found, and any other mapping is written as two units that are not it.
   */
  lemma CorrectsExactly(cs: seq<int>, c: nat, mapping: nat)
    requires AllScalar(cs) && IsScalar(c) && IsScalar(mapping) && c != mapping && c in cs
    ensures Replaced(Text(cs), Halves(c), Halves(mapping)) == Substituted(cs, c, Encode(mapping))
       <==> IsPair(c) && IsPair(mapping)
  {
    if !IsPair(c) {
      BasicNotFound(cs, c, Halves(mapping));
      SubstitutedDiffers(cs, c, Encode(c), Encode(mapping));
      SubstitutedBySame(cs, c);
    } else {
      HalvesOfPair(c);
      SupplementaryReplaced(cs, c, Halves(mapping));
      if IsPair(mapping) {
        HalvesOfPair(mapping);
      } else {
        SubstitutedDiffers(cs, c, Halves(mapping), Encode(mapping));
      }
    }
  }

  lemma {:induction false} SubstitutedBySame(cs: seq<int>, c: int)
    requires AllScalar(cs)
    ensures Substituted(cs, c, Encode(c)) == Text(cs)
  {
    if cs != [] {
      FirstOfText(cs);
      SubstitutedBySame(cs[1..], c);
    }
  }

  /** Different units in the same places make different texts. */
  lemma {:induction false} SubstitutedDiffers(cs: seq<int>, c: int, a: seq<Unit>, b: seq<Unit>)
    requires c in cs && a != b && a != [] && b != [] && (a[0] != b[0] || |a| != |b|)
    ensures Substituted(cs, c, a) != Substituted(cs, c, b)
  {
    if cs[0] != c {
      SubstitutedDiffers(cs[1..], c, a, b);
      SameFront(Encode(cs[0]), Substituted(cs[1..], c, a), Substituted(cs[1..], c, b));
    } else if a[0] != b[0] {
      assert Substituted(cs, c, a)[0] == a[0] && Substituted(cs, c, b)[0] == b[0];
    } else {
      SubstitutedLength(cs, c, a, b);
    }
  }

  lemma SameFront(front: seq<Unit>, a: seq<Unit>, b: seq<Unit>)
    requires a != b
    ensures front + a != front + b
  {
    assert (front + a)[|front|..] == a && (front + b)[|front|..] == b;
  }

  lemma {:induction false} SubstitutedLength(cs: seq<int>, c: int, a: seq<Unit>, b: seq<Unit>)
    requires |a| != |b|
    ensures c in cs && |a| < |b| ==> |Substituted(cs, c, a)| < |Substituted(cs, c, b)|
    ensures c in cs && |a| > |b| ==> |Substituted(cs, c, a)| > |Substituted(cs, c, b)|
    ensures c !in cs ==> |Substituted(cs, c, a)| == |Substituted(cs, c, b)|
  {
    if cs != [] {
      SubstitutedLength(cs[1..], c, a, b);
    }
  }

  // ---------- One correction after the other ----------

  /** The text of `cs` with every code point written as the code points that `f` gives for it. */
  ghost function Mapped(cs: seq<int>, f: int -> seq<int>): seq<int> {
    if cs == [] then [] else f(cs[0]) + Mapped(cs[1..], f)
  }

  /** The code points that a correction writes. */
  function PointsWritten(n: Correction): seq<int> {
    if IsPair(n.oldMapping) then [n.oldMapping] else Halves(n.oldMapping)
  }

  /** What a code point has become after the corrections of `list`. */
  function After(c: int, list: seq<Correction>, version: nat): seq<int> {
    if list == [] then [c]
    else
      var n := list[|list| - 1];
      if n.version > version && c == n.ucs4 then PointsWritten(n) else After(c, list[..|list| - 1], version)
  }

  /** Supplementary code points, each corrected once, and not to one that is corrected later. */
  predicate Independent(list: seq<Correction>) {
    && (forall i :: 0 <= i < |list| ==> 0x1_0000 <= list[i].ucs4 < 0x11_0000 && list[i].oldMapping < 0x11_0000)
    && forall i, j :: 0 <= i < j < |list| ==>
         list[i].ucs4 != list[j].ucs4 && list[i].oldMapping != list[j].ucs4
  }

  lemma {:induction false} AfterIs(c: int, list: seq<Correction>, version: nat)
    ensures After(c, list, version) == [c]
      || exists i :: 0 <= i < |list| && c == list[i].ucs4 && After(c, list, version) == PointsWritten(list[i])
  {
    if list != [] {
      AfterIs(c, list[..|list| - 1], version);
    }
  }

  /** A later correction finds its own code point as it was, and nothing else. */
  lemma LaterFinds(c: int, list: seq<Correction>, version: nat)
    requires Independent(list) && list != []
    ensures var n, before := list[|list| - 1], After(c, list[..|list| - 1], version);
      if c == n.ucs4 then before == [c] else n.ucs4 !in before
  {
    AfterIs(c, list[..|list| - 1], version);
  }

  ghost function Replacing(c: int, ds: seq<int>): int -> seq<int> {
    (d: int) => if d == c then ds else [d]
  }

  lemma {:induction false} MappedText(cs: seq<int>, c: int, ds: seq<int>)
    requires Parsed(cs)
    ensures Substituted(cs, c, Text(ds)) == Text(Mapped(cs, Replacing(c, ds)))
  {
    if cs != [] {
      FirstOfText(cs);
      MappedText(cs[1..], c, ds);
      TextConcat(Replacing(c, ds)(cs[0]), Mapped(cs[1..], Replacing(c, ds)));
      TextOfOne(cs[0]);
    }
  }

  lemma {:induction false} MappedConcat(a: seq<int>, b: seq<int>, f: int -> seq<int>)
    ensures Mapped(a + b, f) == Mapped(a, f) + Mapped(b, f)
  {
    if a == [] {
      assert a + b == b;
    } else {
      assert (a + b)[1..] == a[1..] + b;
      MappedConcat(a[1..], b, f);
    }
  }

  lemma {:induction false} NothingMapped(cs: seq<int>, c: int, ds: seq<int>)
    requires c !in cs
    ensures Mapped(cs, Replacing(c, ds)) == cs
  {
    if cs != [] {
      NothingMapped(cs[1..], c, ds);
    }
  }

  ghost function AfterAll(list: seq<Correction>, version: nat): int -> seq<int> {
    (c: int) => After(c, list, version)
  }

  /** Replacing once more is replacing more. */
  lemma {:induction false} MappedTwice(cs: seq<int>, list: seq<Correction>, version: nat)
    requires Independent(list) && list != [] && list[|list| - 1].version > version
    ensures var n, init := list[|list| - 1], list[..|list| - 1];
      Mapped(Mapped(cs, AfterAll(init, version)), Replacing(n.ucs4, PointsWritten(n)))
      == Mapped(cs, AfterAll(list, version))
  {
    var n, init := list[|list| - 1], list[..|list| - 1];
    var f := Replacing(n.ucs4, PointsWritten(n));
    if cs != [] {
      MappedTwice(cs[1..], list, version);
      MappedConcat(After(cs[0], init, version), Mapped(cs[1..], AfterAll(init, version)), f);
      LaterFinds(cs[0], list, version);
      if cs[0] == n.ucs4 {
        assert [cs[0]][1..] == [] && Mapped([cs[0]], f) == PointsWritten(n) + Mapped([], f);
      } else {
        NothingMapped(After(cs[0], init, version), n.ucs4, PointsWritten(n));
      }
    }
  }

  lemma {:induction false} MappedByNone(cs: seq<int>, list: seq<Correction>, version: nat)
    requires list != [] && list[|list| - 1].version <= version
    ensures Mapped(cs, AfterAll(list, version)) == Mapped(cs, AfterAll(list[..|list| - 1], version))
  {
    if cs != [] {
      MappedByNone(cs[1..], list, version);
    }
  }

  lemma {:induction false} MappedIsNoHigh(cs: seq<int>, list: seq<Correction>, version: nat)
    requires NoHigh(cs) && Independent(list)
    ensures NoHigh(Mapped(cs, AfterAll(list, version)))
  {
    if cs != [] {
      MappedIsNoHigh(cs[1..], list, version);
      AfterIs(cs[0], list, version);
    }
  }

  lemma {:induction false} MappedByNothing(cs: seq<int>, version: nat)
    ensures Mapped(cs, AfterAll([], version)) == cs
  {
    if cs != [] {
      MappedByNothing(cs[1..], version);
    }
  }

  lemma HalvesAsText(n: Correction)
    requires n.oldMapping < 0x11_0000
    ensures Text(PointsWritten(n)) == Halves(n.oldMapping)
  {
    if IsPair(n.oldMapping) {
      HalvesOfPair(n.oldMapping);
      TextOfOne(n.oldMapping);
    } else {
      TextOfUnits(Halves(n.oldMapping));
    }
  }

  /** The loop over corrections of supplementary code points makes all of them, each in place. */
  lemma {:induction false} CorrectedIsMapped(cs: seq<int>, list: seq<Correction>, version: nat)
    requires NoHigh(cs) && Independent(list)
    ensures Corrected(Text(cs), list, version) == Text(Mapped(cs, AfterAll(list, version)))
  {
    if list == [] {
      MappedByNothing(cs, version);
    } else {
      var n, init := list[|list| - 1], list[..|list| - 1];
      CorrectedIsMapped(cs, init, version);
      if n.version > version {
        var ds := Mapped(cs, AfterAll(init, version));
        MappedIsNoHigh(cs, init, version);
        HalvesOfPair(n.ucs4);
        SupplementaryReplaced(ds, n.ucs4, Halves(n.oldMapping));
        HalvesAsText(n);
        MappedText(ds, n.ucs4, PointsWritten(n));
        MappedTwice(cs, list, version);
      } else {
        MappedByNone(cs, list, version);
      }
    }
  }

  lemma {:induction false} CorrectedConcat(s: seq<Unit>, a: seq<Correction>, b: seq<Correction>, version: nat)
    ensures Corrected(s, a + b, version) == Corrected(Corrected(s, a, version), b, version)
  {
    if b == [] {
      assert a + b == a;
    } else {
      assert (a + b)[..|a + b| - 1] == a + b[..|b| - 1];
      CorrectedConcat(s, a, b[..|b| - 1], version);
    }
  }

  // ---------- The six corrections ----------

  const FIRST_CORRECTION := Correction(0xf951, 0x96fb, 6)

  const OTHER_CORRECTIONS: seq<Correction> := [
    Correction(0x2f868, 0x2136a, 7), Correction(0x2f874, 0x5f33, 7), Correction(0x2f91f, 0x43ab, 7),
    Correction(0x2f95f, 0x7aae, 7), Correction(0x2f9bf, 0x4d57, 7)]

  /** The table of qunicodetables.cpp; version 6 is Unicode 3.2 and version 7 is Unicode 4.0. */
  const CORRECTIONS: seq<Correction> := [FIRST_CORRECTION] + OTHER_CORRECTIONS

  lemma OthersAreIndependent()
    ensures Independent(OTHER_CORRECTIONS)
  {}

  /** What they make of a well-formed text: the first does nothing, the others write what they write. */
  lemma CorrectedExactly(cs: seq<int>, version: nat)
    requires AllScalar(cs)
    ensures Corrected(Text(cs), CORRECTIONS, version) == Text(Mapped(cs, AfterAll(OTHER_CORRECTIONS, version)))
  {
    CorrectedConcat(Text(cs), [FIRST_CORRECTION], OTHER_CORRECTIONS, version);
    BasicNotFound(cs, 0xf951, Halves(0x96fb));
    assert [FIRST_CORRECTION][..0] == [];
    OthersAreIndependent();
    CorrectedIsMapped(cs, OTHER_CORRECTIONS, version);
  }

  /** What the table says a code point was decomposed to in an older version. */
  function Meant(c: int, version: nat): seq<int> {
    if version < 6 && c == 0xf951 then [0x96fb]
    else if version >= 7 then [c]
    else if c == 0x2f868 then [0x2136a]
    else if c == 0x2f874 then [0x5f33]
    else if c == 0x2f91f then [0x43ab]
    else if c == 0x2f95f then [0x7aae]
    else if c == 0x2f9bf then [0x4d57]
    else [c]
  }

  ghost function AllMeant(version: nat): int -> seq<int> {
    (c: int) => Meant(c, version)
  }

  /** The code points that the version has corrected, but for U+2F868. */
  predicate IsMiscorrected(c: int, version: nat) {
    (version < 6 && c == 0xf951) || (version < 7 && c in {0x2f874, 0x2f91f, 0x2f95f, 0x2f9bf})
  }

  lemma {:induction false} AfterHit(c: int, list: seq<Correction>, i: nat, version: nat)
    requires Independent(list) && i < |list| && c == list[i].ucs4 && list[i].version > version
    ensures After(c, list, version) == PointsWritten(list[i])
  {
    if i < |list| - 1 {
      AfterHit(c, list[..|list| - 1], i, version);
    }
  }

  lemma {:induction false} AfterMiss(c: int, list: seq<Correction>, version: nat)
    requires forall i :: 0 <= i < |list| && list[i].version > version ==> c != list[i].ucs4
    ensures After(c, list, version) == [c]
  {
    if list != [] {
      AfterMiss(c, list[..|list| - 1], version);
    }
  }

  lemma OthersAfter(c: int, version: nat)
    ensures After(c, OTHER_CORRECTIONS, version)
      == if version >= 7 then [c]
         else if c == 0x2f868 then [0x2136a]
         else if c == 0x2f874 then Halves(0x5f33)
         else if c == 0x2f91f then Halves(0x43ab)
         else if c == 0x2f95f then Halves(0x7aae)
         else if c == 0x2f9bf then Halves(0x4d57)
         else [c]
  {
    OthersAreIndependent();
    if version < 7 && exists i :: 0 <= i < 5 && c == OTHER_CORRECTIONS[i].ucs4 {
      var i :| 0 <= i < 5 && c == OTHER_CORRECTIONS[i].ucs4;
      AfterHit(c, OTHER_CORRECTIONS, i, version);
    } else {
      AfterMiss(c, OTHER_CORRECTIONS, version);
      assert OTHER_CORRECTIONS[0].ucs4 == 0x2f868 && OTHER_CORRECTIONS[1].ucs4 == 0x2f874;
      assert OTHER_CORRECTIONS[2].ucs4 == 0x2f91f && OTHER_CORRECTIONS[3].ucs4 == 0x2f95f;
      assert OTHER_CORRECTIONS[4].ucs4 == 0x2f9bf;
    }
  }

  /** One code point: what is written is what is meant, or is longer, or another unit. */
  lemma AfterOrMeant(c: int, version: nat)
    requires IsScalar(c)
    ensures var a, m := Text(After(c, OTHER_CORRECTIONS, version)), Text(Meant(c, version));
      if IsMiscorrected(c, version) then |a| > |m| || (|a| == |m| && a != m) else a == m
  {
    OthersAfter(c, version);
    if c == 0xf951 && version < 6 {
      TextOfOne(0xf951);
      TextOfOne(0x96fb);
    } else if IsMiscorrected(c, version) {
      HalvesAreLonger(c, version);
    }
  }

  lemma HalvesAreLonger(c: int, version: nat)
    requires version < 7 && c in {0x2f874, 0x2f91f, 0x2f95f, 0x2f9bf}
    ensures |Text(After(c, OTHER_CORRECTIONS, version))| == 2 && |Text(Meant(c, version))| == 1
  {
    OthersAfter(c, version);
    var m := Meant(c, version)[0];
    HalvesHaveTwo(m, After(c, OTHER_CORRECTIONS, version));
    TextOfOne(m);
    assert Meant(c, version) == [m];
  }

  lemma HalvesHaveTwo(m: nat, a: seq<int>)
    requires a == Halves(m)
    ensures |Text(a)| == 2
  {
    TextOfUnits(a);
  }

  lemma {:induction false} MappedLengths(cs: seq<int>, version: nat)
    requires AllScalar(cs)
    ensures |Text(Mapped(cs, AfterAll(OTHER_CORRECTIONS, version)))| >= |Text(Mapped(cs, AllMeant(version)))|
  {
    if cs != [] {
      MappedLengths(cs[1..], version);
      AfterOrMeant(cs[0], version);
      TextConcat(After(cs[0], OTHER_CORRECTIONS, version), Mapped(cs[1..], AfterAll(OTHER_CORRECTIONS, version)));
      TextConcat(Meant(cs[0], version), Mapped(cs[1..], AllMeant(version)));
    }
  }

  lemma FrontsDiffer(a: seq<Unit>, m: seq<Unit>, s: seq<Unit>, t: seq<Unit>)
    requires |a| >= |m| && |s| >= |t|
    ensures a + s == m + t <==> a == m && s == t
  {
    if a + s == m + t {
      assert (a + s)[..|m|] == a && (a + s)[|a|..] == s;
    }
  }

  lemma {:induction false} MappedAsMeant(cs: seq<int>, version: nat)
    requires AllScalar(cs)
    ensures Text(Mapped(cs, AfterAll(OTHER_CORRECTIONS, version))) == Text(Mapped(cs, AllMeant(version)))
       <==> forall i :: 0 <= i < |cs| ==> !IsMiscorrected(cs[i], version)
  {
    if cs != [] {
      MappedAsMeant(cs[1..], version);
      FirstAsMeant(cs[0], cs[1..], version);
      assert [cs[0]] + cs[1..] == cs;
      assert forall i :: 0 < i < |cs| ==> cs[i] == cs[1..][i - 1];
    }
  }

  lemma FirstAsMeant(c: int, cs: seq<int>, version: nat)
    requires IsScalar(c) && AllScalar(cs)
    ensures Text(Mapped([c] + cs, AfterAll(OTHER_CORRECTIONS, version))) == Text(Mapped([c] + cs, AllMeant(version)))
       <==> !IsMiscorrected(c, version)
            && Text(Mapped(cs, AfterAll(OTHER_CORRECTIONS, version))) == Text(Mapped(cs, AllMeant(version)))
  {
    var f, g := AfterAll(OTHER_CORRECTIONS, version), AllMeant(version);
    assert ([c] + cs)[1..] == cs;
    AfterOrMeant(c, version);
    MappedLengths(cs, version);
    TextConcat(f(c), Mapped(cs, f));
    TextConcat(g(c), Mapped(cs, g));
    FrontsDiffer(Text(f(c)), Text(g(c)), Text(Mapped(cs, f)), Text(Mapped(cs, g)));
  }

  /** The six corrections do what the table says exactly on text without the five that go wrong. */
  lemma CorrectionsWorkExactly(cs: seq<int>, version: nat)
    requires AllScalar(cs)
    ensures Corrected(Text(cs), CORRECTIONS, version) == Text(Mapped(cs, AllMeant(version)))
       <==> forall i :: 0 <= i < |cs| ==> !IsMiscorrected(cs[i], version)
  {
    CorrectedExactly(cs, version);
    MappedAsMeant(cs, version);
  }

  /** U+F951 stays, and U+2F874 becomes U+D7D7 and a low surrogate. */
  lemma CorrectionExample(version: nat)
    requires version < 6
    ensures Corrected([0xf951], CORRECTIONS, version) == [0xf951]
    ensures Corrected([0xd87e, 0xdc74], CORRECTIONS, version) == [0xd7d7, 0xdf33]
  {
    ExampleCorrected(0xf951, version);
    ExampleCorrected(0x2f874, version);
    assert Encode(0x2f874) == [0xd87e, 0xdc74] && Halves(0x5f33) == [0xd7d7, 0xdf33];
    TextOfOne(0xf951);
    TextOfUnits(Halves(0x5f33));
  }

  lemma ExampleCorrected(c: int, version: nat)
    requires IsScalar(c) && version < 7
    ensures Corrected(Encode(c), CORRECTIONS, version) == Text(After(c, OTHER_CORRECTIONS, version))
    ensures c == 0xf951 ==> After(c, OTHER_CORRECTIONS, version) == [c]
    ensures c == 0x2f874 ==> After(c, OTHER_CORRECTIONS, version) == Halves(0x5f33)
  {
    TextOfOne(c);
    CorrectedExactly([c], version);
    assert [c][1..] == [] && Mapped([], AfterAll(OTHER_CORRECTIONS, version)) == [];
    OthersAfter(c, version);
  }
}

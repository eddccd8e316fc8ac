/**
 * The right-to-left loop of qchar.cpp that decomposes a string in place by replacing code points and
 * looking at each replacement again.
 */
module DecomposeLoop {
  import opened Units
  import opened Utf16Text
  import opened QString
  import opened UnicodeTables
  import opened Decompose
  import opened DecompositionLoss
  import opened LoopResult

  /** The tests under which the loop leaves a code point alone. */
  method FindReplacement(ucs4: int, canonical: bool, version: nat, data: UnicodeData) returns (d: Option<seq<Unit>>)
    ensures d == data.Replacement(canonical, version)(ucs4)
    ensures d.Some? ==> data.version(ucs4) <= version && ucs4 <= LAST_UNICODE_CHAR
    ensures IsSyllable(ucs4) && data.version(ucs4) <= version ==> d == Some(Jamo(ucs4))
  {
    if data.version(ucs4) > version {
      return None;
    }
    var m := data.DecompositionHelper(ucs4);
    if m.None? || (canonical && m.value.tag != CANONICAL) {
      return None;
    }
    return Some(m.value.units);
  }

  /** Steps back over one code point. */
  method PreviousPoint(s: seq<Unit>, uc: nat) returns (ucs4: int, uc': nat)
    requires 0 < uc <= |s|
    ensures ucs4 == LastPoint(s[..uc]) && uc' == uc - LastWidth(s[..uc])
    ensures s[..uc'] == s[..uc][..uc'] && (LastWidth(s[..uc]) == 2 <==> ucs4 >= 0x1_0000)
  {
    uc' := uc - 1;
    ucs4 := s[uc'];
    if IsLow(ucs4) && uc' != 0 {
      var high := s[uc' - 1];
      if IsHigh(high) {
        uc' := uc' - 1;
        ucs4 := Join(high, ucs4);
      }
    }
    assert s[..uc'] == s[..uc][..uc'];
  }

  lemma StepKeeps(s: seq<Unit>, uc: nat, start: nat, rep: Replacements, rank: int -> nat)
    requires WellFounded(rep, rank) && Tidy(rep) && 0 < uc <= |s|
    requires rep(LastPoint(s[..uc])).None? && start == uc - LastWidth(s[..uc])
    ensures Written(s[..uc], s[uc..], rep, rank) == Written(s[..start], s[start..], rep, rank)
    ensures Looks(s[..start], rep, rank) < Looks(s[..uc], rep, rank)
  {
    KeepLast(s[..uc], rep, rank);
    CutTwice(s, start, uc);
  }

  lemma CutTwice(s: seq<Unit>, start: nat, uc: nat)
    requires start <= uc <= |s|
    ensures s[..uc][..start] == s[..start] && s[start..] == s[..uc][start..] + s[uc..]
  {}

  lemma StepReplaces(s: seq<Unit>, uc: nat, start: nat, s': seq<Unit>, d: seq<Unit>,
                     rep: Replacements, rank: int -> nat)
    requires WellFounded(rep, rank) && Tidy(rep) && 0 < uc <= |s|
    requires rep(LastPoint(s[..uc])) == Some(d) && start == uc - LastWidth(s[..uc])
    requires s' == s[..start] + d + Rest(s[start..], |d|)
    ensures Written(s[..uc], s[uc..], rep, rank) == Written(s'[..start + |d|], s'[start + |d|..], rep, rank)
    ensures Looks(s'[..start + |d|], rep, rank) < Looks(s[..uc], rep, rank)
  {
    ReplaceLast(s[..uc], rep, rank);
    CutTwice(s, start, uc);
    assert s'[..start + |d|] == s[..start] + d && s'[start + |d|..] == Rest(s[start..], |d|);
  }

  lemma LoopResultIs(s: seq<Unit>, rep: Replacements, rank: int -> nat)
    requires WellFounded(rep, rank) && Tidy(rep)
    ensures LoopableText(s, rep, rank) ==>
      if Fits(CodePoints(s), 0, true, rep, rank) then Written(s, [], rep, rank) == Decomposed(s, rep, rank)
      else Written(s, [], rep, rank) != Decomposed(s, rep, rank)
           && Seen(Written(s, [], rep, rank), |Decomposed(s, rep, rank)|)
    ensures Loopable(s, rep, rank) && PlainSurrogates(rep) ==> AllPlain(CodePoints(Written(s, [], rep, rank)), rep)
  {
    if LoopableText(s, rep, rank) {
      LoopDecomposesExactly(s, rep, rank);
    }
    if Loopable(s, rep, rank) && PlainSurrogates(rep) {
      WrittenIsPlain(s, [], rep, rank);
    }
  }

  /** The loop, from right to left. */
  method DecomposeHelper(str: seq<Unit>, canonical: bool, version: nat, data: UnicodeData, ghost rank: int -> nat)
      returns (s: seq<Unit>)
    requires WellFounded(data.Replacement(canonical, version), rank) && Tidy(data.Replacement(canonical, version))
    ensures var rep := data.Replacement(canonical, version);
      s == Written(str, [], rep, rank)
    ensures var rep := data.Replacement(canonical, version); LoopableText(str, rep, rank) ==>
      if Fits(CodePoints(str), 0, true, rep, rank) then s == Decomposed(str, rep, rank)
      else s != Decomposed(str, rep, rank) && Seen(s, |Decomposed(str, rep, rank)|)
    ensures var rep := data.Replacement(canonical, version);
      Loopable(str, rep, rank) && PlainSurrogates(rep) ==> AllPlain(CodePoints(s), rep)
  {
    ghost var rep := data.Replacement(canonical, version);
    s := str;
    var uc := |s|;
    assert s[..uc] == s && s[uc..] == [];
    while uc != 0
      invariant 0 <= uc <= |s| && Written(s[..uc], s[uc..], rep, rank) == Written(str, [], rep, rank)
      decreases Looks(s[..uc], rep, rank)
    {
      var ucs4, start := PreviousPoint(s, uc);
      var d := FindReplacement(ucs4, canonical, version, data);
      if d.None? {
        StepKeeps(s, uc, start, rep, rank);
        uc := start;
      } else {
        var s' := Replace(s, start, if ucs4 > 0x1_0000 then 2 else 1, d.value);
        StepReplaces(s, uc, start, s', d.value, rep, rank);
        s, uc := s', start + |d.value|;
      }
    }
    assert s[..0] == [] && s[0..] == s;
    LoopResultIs(str, rep, rank);
  }
}

/**
 * Canonical composition: the in-place loop of qchar.cpp on any UTF-16 text, what it amounts to on
 * code points, and the algorithm of section 3.11 of the Unicode Standard that it stands for.
 */
module Compose {
  import opened Units
  import opened UnicodeTables
  import opened Utf16Text

  // ---------- The loop on text ----------

  /** A code point passed where a 16-bit unit is expected. */
  function Cut(c: int): Unit {
    c % 0x1_0000
  }

  /** The composed part of the text and the loop's two variables about it. */
  datatype TextState = TextState(done: seq<Unit>, starter: nat, last: nat) {
    predicate Valid() {
      starter < |done| || (done == [] && starter == 0)
    }
  }

  /**
   * One turn of the loop. The ligature is looked up for the unit at `starter`, which behind an
   * empty text is the first unit of `c` itself; a pair that combines loses its low surrogate.
   */
  function StepText(st: TextState, c: int, data: UnicodeData): (st': TextState)
    requires st.Valid()
    ensures st'.Valid()
  {
    if !(0 <= c < 0x11_0000) then st
    else
      var w := st.done + Encode(c);
      var lig := data.LigatureHelper(w[st.starter], Cut(c));
      if (st.starter == |w| - 2 || data.combining(c) > st.last) && lig != 0 then
        st.(done := w[st.starter := lig][..|w| - 1])
      else
        TextState(w, if data.combining(c) == 0 then |w| - 1 else st.starter, data.combining(c))
  }

  function RunText(cs: seq<int>, data: UnicodeData): (st: TextState)
    ensures st.Valid()
  {
    if cs == [] then TextState([], 0, 0) else StepText(RunText(cs[..|cs| - 1], data), cs[|cs| - 1], data)
  }

  function Composed(s: seq<Unit>, data: UnicodeData): seq<Unit> {
    if |s| < 2 then s else RunText(CodePoints(s), data).done
  }

  /** In front of `pos` stands what composing the first `n` code points yields, behind it the rest. */
  ghost predicate Composing(cs: seq<int>, n: int, s: seq<Unit>, pos: int, starter: int, last: int, data: UnicodeData) {
    && Parsed(cs) && 0 <= n <= |cs| && 0 <= pos <= |s| && 0 <= starter && 0 <= last
    && RunText(cs[..n], data) == TextState(s[..pos], starter, last)
    && s[pos..] == Text(cs[n..])
  }

  /** The units in front of which the loop stands. */
  lemma NextPoint(cs: seq<int>, n: int, s: seq<Unit>, pos: int, starter: int, last: int, data: UnicodeData)
    requires Composing(cs, n, s, pos, starter, last, data) && pos < |s|
    ensures n < |cs| && starter <= pos && Text(cs[n..]) == Encode(cs[n]) + Text(cs[n + 1..])
    ensures if IsPair(cs[n])
            then pos + 1 < |s| && IsHigh(s[pos]) && IsLow(s[pos + 1]) && Join(s[pos], s[pos + 1]) == cs[n]
            else s[pos] == cs[n] && !(IsHigh(s[pos]) && pos + 1 < |s| && IsLow(s[pos + 1]))
  {
    var rest := cs[n..];
    FirstOfText(rest);
    assert s[pos] == s[pos..][0] && rest[1..] == cs[n + 1..];
    if pos + 1 < |s| {
      assert s[pos + 1] == s[pos..][1];
      if n + 1 < |cs| {
        FirstOfText(cs[n + 1..]);
      }
    }
  }

  lemma NextRun(cs: seq<int>, n: nat, data: UnicodeData)
    requires n < |cs|
    ensures RunText(cs[..n + 1], data) == StepText(RunText(cs[..n], data), cs[n], data)
  {
    assert cs[..n + 1][..n] == cs[..n];
  }

  lemma AfterEncoded(s: seq<Unit>, pos: nat, c: int, rest: seq<Unit>)
    requires pos < |s| && 0 <= c < 0x11_0000 && s[pos..] == Encode(c) + rest
    ensures var at := if IsPair(c) then pos + 1 else pos;
      s[at + 1..] == rest && s[..at + 1] == s[..pos] + Encode(c)
  {
    var at := if IsPair(c) then pos + 1 else pos;
    assert s[at + 1..] == s[pos..][at + 1 - pos..];
    assert s == s[..pos] + s[pos..];
  }

  lemma Removed(s: seq<Unit>, starter: nat, lig: Unit, at: nat)
    requires starter <= at < |s|
    ensures var t := s[starter := lig]; var t' := t[..at] + t[at + 1..];
      t'[..at] == s[..at + 1][starter := lig][..at] && t'[at..] == s[at + 1..]
  {}

  /** Where the loop's cursor stands once it has read the next code point. */
  ghost predicate Reading(cs: seq<int>, n: int, s: seq<Unit>, pos: int, starter: int, last: int, data: UnicodeData,
                          at: int)
  {
    && Composing(cs, n, s, pos, starter, last, data) && pos < |s| && n < |cs|
    && starter <= pos && at == (if IsPair(cs[n]) then pos + 1 else pos) < |s|
  }

  lemma ReadPoint(cs: seq<int>, n: int, s: seq<Unit>, pos: int, starter: int, last: int, data: UnicodeData, at: int)
    requires Reading(cs, n, s, pos, starter, last, data, at)
    ensures s[at + 1..] == Text(cs[n + 1..]) && s[..at + 1] == s[..pos] + Encode(cs[n])
    ensures s[..at + 1][starter] == s[starter]
    ensures RunText(cs[..n + 1], data) == StepText(TextState(s[..pos], starter, last), cs[n], data)
  {
    NextPoint(cs, n, s, pos, starter, last, data);
    NextRun(cs, n, data);
    AfterEncoded(s, pos, cs[n], Text(cs[n + 1..]));
  }

  /** Writing the ligature over the starter and removing the unit at `at` is a step. */
  lemma WriteAndRemove(cs: seq<int>, n: int, s: seq<Unit>, pos: int, starter: int, last: int, data: UnicodeData,
                       at: int, lig: Unit)
    requires Reading(cs, n, s, pos, starter, last, data, at)
    requires starter == at - 1 || data.combining(cs[n]) > last
    requires lig == data.LigatureHelper(s[starter], Cut(cs[n])) != 0
    ensures var t := s[starter := lig]; Composing(cs, n + 1, t[..at] + t[at + 1..], at, starter, last, data)
  {
    ReadPoint(cs, n, s, pos, starter, last, data, at);
    Removed(s, starter, lig, at);
  }

  /** Leaving the code point where it is, is one otherwise. */
  lemma LeavePoint(cs: seq<int>, n: int, s: seq<Unit>, pos: int, starter: int, last: int, data: UnicodeData,
                   at: int, starter': int)
    requires Reading(cs, n, s, pos, starter, last, data, at)
    requires starter == at - 1 || data.combining(cs[n]) > last ==> data.LigatureHelper(s[starter], Cut(cs[n])) == 0
    requires starter' == if data.combining(cs[n]) == 0 then at else starter
    ensures Composing(cs, n + 1, s, at + 1, starter', data.combining(cs[n]), data)
  {
    ReadPoint(cs, n, s, pos, starter, last, data, at);
  }

  /** Reads the code point at `pos`; `at` is its last unit. */
  method Current(s: seq<Unit>, pos: nat, ghost cs: seq<int>, ghost n: nat, ghost starter: int, ghost last: int,
                 ghost data: UnicodeData) returns (uc: int, at: nat)
    requires Composing(cs, n, s, pos, starter, last, data) && pos < |s|
    ensures Reading(cs, n, s, pos, starter, last, data, at) && uc == cs[n]
  {
    NextPoint(cs, n, s, pos, starter, last, data);
    uc, at := s[pos], pos;
    if IsHigh(uc) && pos < |s| - 1 && IsLow(s[pos + 1]) {
      uc, at := Join(s[pos], s[pos + 1]), pos + 1;
    }
  }

  /** One turn of the loop: either a ligature is written over the starter and a unit removed, or not. */
  method Turn(str: seq<Unit>, starter: nat, last: nat, pos: nat, data: UnicodeData, ghost cs: seq<int>, ghost n: nat)
      returns (s: seq<Unit>, starter': nat, last': nat, pos': nat)
    requires Composing(cs, n, str, pos, starter, last, data) && pos < |str|
    ensures Composing(cs, n + 1, s, pos', starter', last', data)
    ensures |s| - pos' < |str| - pos
  {
    s, starter', last' := str, starter, last;
    var uc;
    uc, pos' := Current(s, pos, cs, n, starter, last, data);
    var combining := data.combining(uc);
    if starter == pos' - 1 || combining > last {
      var ligature := data.LigatureHelper(s[starter], Cut(uc));
      if ligature != 0 {
        s := s[starter := ligature];
        s := s[..pos'] + s[pos' + 1..];
        WriteAndRemove(cs, n, str, pos, starter, last, data, pos', ligature);
        return;
      }
    }
    if combining == 0 {
      starter' := pos';
    }
    last' := combining;
    LeavePoint(cs, n, s, pos, starter, last, data, pos', starter');
    pos' := pos' + 1;
  }

  /** The loop. */
  method ComposeHelper(str: seq<Unit>, data: UnicodeData) returns (s: seq<Unit>)
    ensures s == Composed(str, data)
  {
    s := str;
    if |s| < 2 {
      return;
    }
    ghost var cs, n := CodePoints(str), 0;
    CodePointsAreParsed(str);
    TextOfCodePoints(str);
    assert cs[..0] == [] && cs[0..] == cs;
    var starter, lastCombining, pos := 0, 0, 0;
    while pos < |s|
      invariant Composing(cs, n, s, pos, starter, lastCombining, data)
      decreases |s| - pos
    {
      s, starter, lastCombining, pos := Turn(s, starter, lastCombining, pos, data, cs, n);
      n := n + 1;
    }
    AllComposed(cs, n, s, pos, starter, lastCombining, data);
  }

  lemma NoText(cs: seq<int>)
    requires Parsed(cs) && Text(cs) == []
    ensures cs == []
  {}

  lemma AllComposed(cs: seq<int>, n: int, s: seq<Unit>, pos: int, starter: int, last: int, data: UnicodeData)
    requires Composing(cs, n, s, pos, starter, last, data) && pos == |s|
    ensures s == RunText(cs, data).done
  {
    NoText(cs[n..]);
    assert cs[..n] == cs && s[..pos] == s;
  }

  // ---------- The same on code points ----------

  datatype State = State(done: seq<int>, starter: nat, last: nat) {
    predicate Valid() {
      starter < |done| || (done == [] && starter == 0)
    }
  }

  /** The code point that `u` would combine with; at the very start the loop tries `u` with itself. */
  function Base(st: State, u: int): int
    requires st.Valid()
  {
    if st.done == [] then u else st.done[st.starter]
  }

  predicate Combines(st: State, u: int, data: UnicodeData)
    requires st.Valid()
  {
    (st.starter == |st.done| - 1 || data.combining(u) > st.last) && data.Ligature(Base(st, u), u) != 0
  }

  function Step(st: State, u: int, data: UnicodeData): (st': State)
    requires st.Valid()
    ensures st'.Valid()
  {
    if Combines(st, u, data) then
      if st.done == [] then st
      else st.(done := st.done[st.starter := data.Ligature(Base(st, u), u)])
    else
      State(st.done + [u], if data.combining(u) == 0 then |st.done| else st.starter, data.combining(u))
  }

  function Run(cs: seq<int>, data: UnicodeData): (st: State)
    ensures st.Valid()
  {
    if cs == [] then State([], 0, 0) else Step(Run(cs[..|cs| - 1], data), cs[|cs| - 1], data)
  }

  lemma RunSnoc(cs: seq<int>, q: nat, data: UnicodeData)
    requires 0 < q <= |cs|
    ensures Run(cs[..q], data) == Step(Run(cs[..q - 1], data), cs[q - 1], data)
  {
    assert cs[..q][..q - 1] == cs[..q - 1];
  }

  lemma RunNext(before: seq<int>, u: int, data: UnicodeData)
    ensures Run(before + [u], data) == Step(Run(before, data), u, data)
  {
    assert (before + [u])[..|before|] == before;
  }

  /**
   * Surrogates take no part in ligatures, nor do supplementary marks, although they are looked up
   * with only 16 of their bits.
   */
  ghost predicate PairsDoNotCombine(data: UnicodeData) {
    && (forall a: Unit, b: Unit :: data.pair(a, b) != 0 ==>
         !IsHigh(a) && !IsLow(a) && !IsHigh(data.pair(a, b)) && !IsLow(data.pair(a, b)))
    && (forall a: Unit, c: int :: 0x1_0000 <= c < 0x11_0000 && data.combining(c) != 0 ==>
         data.LigatureHelper(a, Cut(c)) == 0)
  }

  lemma LigatureIsScalar(a: int, b: int, data: UnicodeData)
    requires PairsDoNotCombine(data) && data.Ligature(a, b) != 0
    ensures IsScalar(data.Ligature(a, b)) && IsScalar(a) && !IsPair(a) && !IsPair(b)
  {}

  /** Only starters combine with what follows them, and to starters. */
  ghost predicate LigaturesAreStarters(data: UnicodeData) {
    forall a: int, b: int :: data.Ligature(a, b) != 0 ==>
      data.combining(a) == 0 && data.combining(data.Ligature(a, b)) == 0
  }

  /** What composition needs of the tables. */
  ghost predicate ComposingTables(data: UnicodeData) {
    PairsDoNotCombine(data) && LigaturesAreStarters(data)
  }

  /** No starter has been read yet. */
  predicate StartsWithMark(st: State, data: UnicodeData) {
    st.done == [] || (st.starter == 0 && data.combining(st.done[0]) != 0)
  }

  /** A state on code points, as the loop has it on units: `starter` is the last unit of its code point. */
  function AsText(st: State, data: UnicodeData): TextState
    requires st.Valid()
  {
    TextState(Text(st.done), if StartsWithMark(st, data) then 0 else LastUnit(st.done, st.starter), st.last)
  }

  function LastUnit(ds: seq<int>, k: nat): nat
    requires k < |ds|
  {
    if Offset(ds, k + 1) == 0 then 0 else Offset(ds, k + 1) - 1
  }

  /** The unit at which a code point ends. */
  lemma LastUnitIs(ds: seq<int>, k: nat)
    requires k < |ds| && NoHigh(ds)
    ensures LastUnit(ds, k) < |Text(ds)| && LastUnit(ds, k) + 1 == Offset(ds, k + 1)
    ensures if IsPair(ds[k]) then IsLow(Text(ds)[LastUnit(ds, k)]) else Text(ds)[LastUnit(ds, k)] == ds[k]
    ensures LastUnit(ds, k) == |Text(ds)| - 1 <==> k == |ds| - 1
  {
    OffsetNext(ds, k);
    LastUnitIsLast(ds, k);
    assert Text(ds)[Offset(ds, k) + (|Encode(ds[k])| - 1)] == Encode(ds[k])[|Encode(ds[k])| - 1];
  }

  lemma LastUnitIsLast(ds: seq<int>, k: nat)
    requires k < |ds| && NoHigh(ds)
    ensures Offset(ds, k + 1) == |Text(ds)| <==> k == |ds| - 1
  {
    if k == |ds| - 1 {
      OffsetEnd(ds);
    } else {
      OffsetNext(ds, k + 1);
    }
  }

  lemma LastUnitBefore(ds: seq<int>, c: int, k: nat)
    requires k < |ds|
    ensures LastUnit(ds + [c], k) == LastUnit(ds, k)
  {
    assert (ds + [c])[..k + 1] == ds[..k + 1];
  }

  lemma TextNext(ds: seq<int>, c: int)
    ensures Text(ds + [c]) == Text(ds) + Encode(c)
  {
    assert (ds + [c])[..|ds|] == ds;
  }

  lemma SplitAt(ds: seq<int>, k: nat, d: int)
    requires k < |ds|
    ensures ds[k := d] == (ds[..k] + [d]) + ds[k + 1..] && ds[k := d][..k + 1] == ds[..k] + [d]
  {}

  lemma OverwriteUnit(a: seq<Unit>, u: Unit, v: Unit, b: seq<Unit>)
    ensures ((a + [u]) + b)[|a| := v] == (a + [v]) + b
  {}

  /** The text around code point `k`, when that is overwritten by a unit. */
  lemma TextAround(ds: seq<int>, k: nat, d: Unit)
    requires k < |ds|
    ensures Text(ds[k := d]) == (Text(ds[..k]) + [d]) + Text(ds[k + 1..])
    ensures LastUnit(ds[k := d], k) == |Text(ds[..k])|
  {
    SplitAt(ds, k, d);
    TextConcat(ds[..k] + [d], ds[k + 1..]);
    TextNext(ds[..k], d);
  }

  /** Overwriting a unit of its own overwrites that code point. */
  lemma OverwriteText(ds: seq<int>, k: nat, lig: Unit)
    requires k < |ds| && NoHigh(ds) && !IsPair(ds[k])
    ensures LastUnit(ds, k) < |Text(ds)|
    ensures Text(ds[k := lig]) == Text(ds)[LastUnit(ds, k) := lig]
    ensures LastUnit(ds[k := lig], k) == LastUnit(ds, k)
  {
    assert ds[k := ds[k]] == ds;
    TextAround(ds, k, ds[k]);
    TextAround(ds, k, lig);
    OverwriteUnit(Text(ds[..k]), ds[k], lig, Text(ds[k + 1..]));
  }

  /** The lookup on units agrees with the one on code points. */
  lemma SameCondition(st: State, c: int, data: UnicodeData)
    requires PairsDoNotCombine(data) && st.Valid() && NoHigh(st.done + [c]) && !StartsWithMark(st, data)
    ensures var t := AsText(st, data); var w := t.done + Encode(c);
      && t.Valid() && t.starter < |w| && (t.starter == |w| - 2 <==> !IsPair(c) && st.starter == |st.done| - 1)
      && (if IsPair(c) then data.combining(c) == 0 || data.LigatureHelper(w[t.starter], Cut(c)) == 0
          else data.LigatureHelper(w[t.starter], Cut(c)) == data.Ligature(Base(st, c), c))
  {
    assert c == (st.done + [c])[|st.done|];
    NoHighInit(st.done, c);
    LastUnitIs(st.done, st.starter);
  }

  lemma NoHighInit(cs: seq<int>, c: int)
    ensures NoHigh(cs + [c]) <==> NoHigh(cs) && 0 <= c < 0x11_0000 && !IsHigh(c)
    ensures AllScalar(cs + [c]) <==> AllScalar(cs) && IsScalar(c)
  {
    var all := cs + [c];
    assert all[|cs|] == c && forall i :: 0 <= i < |cs| ==> all[i] == cs[i];
  }

  lemma StepAsText(st: State, c: int, data: UnicodeData)
    requires ComposingTables(data) && st.Valid() && NoHigh(st.done + [c])
    ensures AsText(st, data).Valid() && StepText(AsText(st, data), c, data) == AsText(Step(st, c, data), data)
  {
    NoHighInit(st.done, c);
    if st.done == [] {
      FirstAsText(st, c, data);
    } else if StartsWithMark(st, data) {
      MarkAsText(st, c, data);
    } else if Combines(st, c, data) {
      CombineAsText(st, c, data);
    } else {
      LeaveAsText(st, c, data);
    }
  }

  lemma StepKeepsPoints(st: State, c: int, data: UnicodeData)
    requires PairsDoNotCombine(data) && st.Valid() && NoHigh(st.done + [c])
    ensures NoHigh(Step(st, c, data).done)
    ensures AllScalar(st.done + [c]) ==> AllScalar(Step(st, c, data).done)
  {
    NoHighInit(st.done, c);
    if Combines(st, c, data) {
      LigatureIsScalar(Base(st, c), c, data);
    }
  }

  lemma NothingOnItself(c: int, data: UnicodeData)
    requires ComposingTables(data) && 0 <= c < 0x11_0000
    ensures var w := Encode(c);
      (|w| == 2 || data.combining(c) > 0) ==> data.LigatureHelper(w[0], Cut(c)) == 0
    ensures data.combining(c) > 0 ==> data.Ligature(c, c) == 0
  {
    if !IsPair(c) && data.combining(c) > 0 {
      assert data.Ligature(c, c) == data.LigatureHelper(c, c);
    }
  }

  lemma FirstAsText(st: State, c: int, data: UnicodeData)
    requires ComposingTables(data) && st.Valid() && st.done == [] && 0 <= c < 0x11_0000 && !IsHigh(c)
    ensures StepText(AsText(st, data), c, data) == AsText(Step(st, c, data), data)
  {
    var w := Encode(c);
    TextOfOne(c);
    LastUnitIs([c], 0);
    NothingOnItself(c, data);
    assert Step(st, c, data) == State([c], 0, data.combining(c));
    assert StepText(AsText(st, data), c, data)
      == TextState(w, if data.combining(c) == 0 then |w| - 1 else 0, data.combining(c));
  }

  lemma FirstUnit(ds: seq<int>)
    requires ds != [] && NoHigh(ds)
    ensures Text(ds) != [] && Text(ds)[0] == Encode(ds[0])[0]
  {
    FirstOfText(ds);
  }

  /** Behind a mark at the very front, nothing combines. */
  lemma NothingOnMark(a: int, c: int, data: UnicodeData)
    requires ComposingTables(data) && data.combining(a) != 0 && 0 <= a < 0x11_0000 && 0 <= c < 0x11_0000
    ensures data.Ligature(a, c) == 0
    ensures !IsPair(c) || data.combining(c) > 0 ==> data.LigatureHelper(Encode(a)[0], Cut(c)) == 0
  {
    if !IsPair(a) && !IsPair(c) {
      assert data.Ligature(a, c) == data.LigatureHelper(a, c);
    }
  }

  lemma MarkAsText(st: State, c: int, data: UnicodeData)
    requires ComposingTables(data) && st.Valid() && NoHigh(st.done) && 0 <= c < 0x11_0000 && !IsHigh(c)
    requires st.done != [] && StartsWithMark(st, data)
    ensures AsText(st, data).Valid() && StepText(AsText(st, data), c, data) == AsText(Step(st, c, data), data)
  {
    var w := Text(st.done) + Encode(c);
    FirstUnit(st.done);
    NothingOnMark(st.done[0], c, data);
    TextNext(st.done, c);
    NoHighInit(st.done, c);
    LastUnitIs(st.done + [c], |st.done|);
    assert Step(st, c, data)
      == State(st.done + [c], if data.combining(c) == 0 then |st.done| else 0, data.combining(c));
    assert StepText(AsText(st, data), c, data)
      == TextState(w, if data.combining(c) == 0 then |w| - 1 else 0, data.combining(c));
  }

  lemma LeaveAsText(st: State, c: int, data: UnicodeData)
    requires ComposingTables(data) && st.Valid() && NoHigh(st.done + [c])
    requires !StartsWithMark(st, data) && !Combines(st, c, data)
    ensures AsText(st, data).Valid() && StepText(AsText(st, data), c, data) == AsText(Step(st, c, data), data)
  {
    NoHighInit(st.done, c);
    TextNext(st.done, c);
    LastUnitIs(st.done + [c], |st.done|);
    SameCondition(st, c, data);
    LastUnitBefore(st.done, c, st.starter);
  }

  lemma CombineAsText(st: State, c: int, data: UnicodeData)
    requires ComposingTables(data) && st.Valid() && NoHigh(st.done + [c])
    requires !StartsWithMark(st, data) && Combines(st, c, data)
    ensures AsText(st, data).Valid() && StepText(AsText(st, data), c, data) == AsText(Step(st, c, data), data)
  {
    var lig := data.Ligature(Base(st, c), c);
    NoHighInit(st.done, c);
    LigatureIsScalar(Base(st, c), c, data);
    SameCondition(st, c, data);
    OverwriteText(st.done, st.starter, lig);
    var t := AsText(st, data);
    assert (t.done + [c])[t.starter := lig][..|t.done|] == t.done[t.starter := lig];
  }

  /** The loop works on code points, whatever the text begins with. */
  lemma {:induction false} RunAsText(cs: seq<int>, data: UnicodeData)
    requires ComposingTables(data) && NoHigh(cs)
    ensures RunText(cs, data) == AsText(Run(cs, data), data) && NoHigh(Run(cs, data).done)
    ensures AllScalar(cs) ==> AllScalar(Run(cs, data).done)
  {
    if cs != [] {
      var init, c := cs[..|cs| - 1], cs[|cs| - 1];
      var done := Run(init, data).done;
      assert cs == init + [c];
      NoHighInit(init, c);
      RunAsText(init, data);
      NoHighInit(done, c);
      StepAsText(Run(init, data), c, data);
      StepKeepsPoints(Run(init, data), c, data);
    }
  }

  lemma ComposedIsRun(s: seq<Unit>, data: UnicodeData)
    requires ComposingTables(data)
    ensures Composed(s, data) == RunText(CodePoints(s), data).done
  {
    if |s| == 1 {
      assert s[..0] == [] && CodePoints(s) == [s[0]];
      RunOfUnit(s[0], data);
    }
  }

  lemma RunOfUnit(u: Unit, data: UnicodeData)
    requires ComposingTables(data)
    ensures RunText([u], data).done == [u]
  {
    assert [u][..0] == [];
    assert RunText([u][..0], data) == TextState([], 0, 0);
    NothingOnItself(u, data);
  }

  lemma ComposedAsPoints(s: seq<Unit>, data: UnicodeData)
    requires ComposingTables(data) && NoHigh(CodePoints(s))
    ensures Composed(s, data) == Text(Run(CodePoints(s), data).done)
    ensures NoHigh(Run(CodePoints(s), data).done)
    ensures AllScalar(CodePoints(s)) ==> AllScalar(Run(CodePoints(s), data).done)
  {
    ComposedIsRun(s, data);
    RunAsText(CodePoints(s), data);
  }

  /** Where units are code points, before and after. */
  lemma ComposedUnits(s: seq<Unit>, t: seq<Unit>, data: UnicodeData)
    requires ComposingTables(data) && CodePoints(s) == s && NoHigh(s) && Run(s, data).done == t && Text(t) == t
    ensures Composed(s, data) == t
  {
    ComposedAsPoints(s, data);
  }

  // ---------- The algorithm of the Standard ----------

  function LastStarter(s: seq<int>, data: UnicodeData): (i: Option<nat>)
    ensures i.Some? ==> i.value < |s| && data.combining(s[i.value]) == 0
    ensures i.Some? ==> forall k :: i.value < k < |s| ==> data.combining(s[k]) != 0
    ensures i.None? ==> forall k :: 0 <= k < |s| ==> data.combining(s[k]) != 0
  {
    if s == [] then None
    else if data.combining(s[|s| - 1]) == 0 then Some(|s| - 1)
    else LastStarter(s[..|s| - 1], data)
  }

  /** Something after index `i` is a starter or has at least the class of `u`. */
  predicate Blocked(s: seq<int>, i: nat, u: int, data: UnicodeData) {
    exists k :: i < k < |s| && (data.combining(s[k]) == 0 || data.combining(s[k]) >= data.combining(u))
  }

  function StandardStep(s: seq<int>, u: int, data: UnicodeData): seq<int> {
    match LastStarter(s, data)
    case None => s + [u]
    case Some(i) =>
      var ligature := data.Ligature(s[i], u);
      if !Blocked(s, i, u, data) && ligature != 0 then s[i := ligature] else s + [u]
  }

  function StandardCompose(s: seq<int>, data: UnicodeData): seq<int> {
    if s == [] then [] else StandardStep(StandardCompose(s[..|s| - 1], data), s[|s| - 1], data)
  }

  /** Canonically ordered and not beginning in the middle of a combining sequence. */
  predicate Composable(s: seq<int>, data: UnicodeData) {
    s != [] && data.combining(s[0]) == 0 &&
    forall i :: 0 < i < |s| ==> data.combining(s[i]) == 0 || data.combining(s[i - 1]) <= data.combining(s[i])
  }

  /** The loop's variables describe the tail behind the last starter; `prev` is the class read last. */
  ghost predicate Settled(st: State, prev: nat, data: UnicodeData) {
    && st.starter < |st.done| && LastStarter(st.done, data) == Some(st.starter)
    && (forall k :: st.starter < k < |st.done| ==> data.combining(st.done[k]) <= st.last)
    && st.last == data.combining(st.done[|st.done| - 1])
    && st.last <= prev
  }

  lemma BlockedWhen(st: State, prev: nat, u: int, data: UnicodeData)
    requires Settled(st, prev, data)
    ensures Blocked(st.done, st.starter, u, data)
       <==> !(st.starter == |st.done| - 1 || data.combining(u) > st.last)
  {
    if st.starter < |st.done| - 1 && data.combining(u) <= st.last {
      assert data.combining(st.done[|st.done| - 1]) >= data.combining(u);
    }
  }

  lemma {:induction false} LastStarterIs(s: seq<int>, i: nat, data: UnicodeData)
    requires i < |s| && data.combining(s[i]) == 0
    requires forall k :: i < k < |s| ==> data.combining(s[k]) != 0
    ensures LastStarter(s, data) == Some(i)
  {
    if i < |s| - 1 {
      LastStarterIs(s[..|s| - 1], i, data);
    }
  }

  lemma StepSettles(st: State, prev: nat, u: int, data: UnicodeData)
    requires LigaturesAreStarters(data) && Settled(st, prev, data)
    requires data.combining(u) == 0 || prev <= data.combining(u)
    ensures Settled(Step(st, u, data), data.combining(u), data)
    ensures Step(st, u, data).done == StandardStep(st.done, u, data)
  {
    var st' := Step(st, u, data);
    BlockedWhen(st, prev, u, data);
    LastStarterIs(st'.done, st'.starter, data);
  }

  lemma RunOfOne(s: seq<int>, data: UnicodeData)
    requires |s| == 1 && data.combining(s[0]) == 0
    ensures Run(s, data) == State(s, 0, 0)
  {
    assert s[..0] == [] && s == [s[0]];
    assert Run(s[..0], data) == State([], 0, 0);
  }

  lemma StandardOfOne(s: seq<int>, data: UnicodeData)
    requires |s| == 1 && data.combining(s[0]) == 0
    ensures StandardCompose(s, data) == s && LastStarter(s, data) == Some(0)
  {
    assert s[..0] == [] && s == [s[0]];
    assert StandardCompose(s[..0], data) == [] && LastStarter([], data) == None;
  }

  lemma {:induction false} RunSettles(s: seq<int>, data: UnicodeData)
    requires LigaturesAreStarters(data) && Composable(s, data)
    ensures Settled(Run(s, data), data.combining(s[|s| - 1]), data)
    ensures Run(s, data).done == StandardCompose(s, data)
  {
    if |s| == 1 {
      RunOfOne(s, data);
      StandardOfOne(s, data);
    } else {
      var init := s[..|s| - 1];
      assert Composable(init, data);
      RunSettles(init, data);
      StepSettles(Run(init, data), data.combining(s[|s| - 2]), s[|s| - 1], data);
    }
  }

  /** On well-formed, canonically ordered text that begins with a starter, the loop is the Standard's algorithm. */
  lemma ComposedIsStandard(s: seq<Unit>, data: UnicodeData)
    requires ComposingTables(data) && NoHigh(CodePoints(s)) && Composable(CodePoints(s), data)
    ensures Composed(s, data) == Text(StandardCompose(CodePoints(s), data))
  {
    ComposedAsPoints(s, data);
    RunSettles(CodePoints(s), data);
  }
}

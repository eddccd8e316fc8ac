/**
 * The other thing that composition may lose: the order of a supplementary mark at the end of the
 * text, because the ordering loop does not compare it.
 */
module TailLoss {
  import opened UnicodeTables
  import opened Utf16Text
  import opened CanonicalOrderLoop
  import opened Compose
  import opened Soundness
  import opened Recomposition

  // ---------- The tail ----------

  /** Every code point from index `from` on combines. */
  ghost predicate AllCombine(cs: seq<int>, from: int, data: UnicodeData) {
    forall k :: 0 <= from <= k < |cs| ==> Combines(Run(cs[..k], data), cs[k], data)
  }

  /**
   * A supplementary mark is the last code point that does not combine, and a mark of higher class is
   * last: the ordering loop will not compare the two when both are marks again.
   */
  ghost predicate LostAt(x: Setting, cs: seq<int>, j: int) {
    && 0 <= j < |cs| - 1 && IsPair(cs[j])
    && 0 < x.Cls()(cs[j]) < x.Cls()(cs[|cs| - 1])
    && AllCombine(cs, j + 1, x.data)
  }

  ghost predicate TailLost(x: Setting, cs: seq<int>) {
    exists j :: LostAt(x, cs, j)
  }

  /** The same, said of what composition leaves. */
  ghost predicate EndSkipped(x: Setting, cs: seq<int>) {
    var done := Run(cs, x.data).done;
    cs != [] && done != [] && Skips(done[|done| - 1], cs[|cs| - 1], x.Cls())
  }

  /** Combining changes nothing but the starter. */
  lemma CombineKeeps(st: State, u: int, data: UnicodeData)
    requires st.Valid() && st.done != [] && Combines(st, u, data)
    ensures var st' := Step(st, u, data);
      && |st'.done| == |st.done| && st'.starter == st.starter && st'.last == st.last
      && forall k :: 0 <= k < |st.done| && k != st.starter ==> st'.done[k] == st.done[k]
  {}

  /** What a code point `c` that does not combine leaves. */
  ghost predicate LeftBy(st: State, c: int, data: UnicodeData) {
    && st.starter < |st.done| && st.last == data.combining(c)
    && if data.combining(c) == 0 then st.starter == |st.done| - 1
       else st.starter < |st.done| - 1 && st.done[|st.done| - 1] == c
  }

  lemma LeftFirst(st: State, c: int, data: UnicodeData)
    requires st.Valid() && !Combines(st, c, data) && (data.combining(c) != 0 ==> st.done != [])
    ensures LeftBy(Step(st, c, data), c, data)
  {}

  lemma LeftNext(st: State, c: int, u: int, data: UnicodeData)
    requires LeftBy(st, c, data) && Combines(st, u, data)
    ensures LeftBy(Step(st, u, data), c, data)
  {
    CombineKeeps(st, u, data);
  }

  /** It stays so as long as all that follow combine. */
  lemma {:induction false} LeftAt(cs: seq<int>, j: nat, q: nat, data: UnicodeData)
    requires j < q <= |cs| && !Combines(Run(cs[..j], data), cs[j], data)
    requires data.combining(cs[j]) != 0 ==> Run(cs[..j], data).done != []
    requires forall k :: j < k < q ==> Combines(Run(cs[..k], data), cs[k], data)
    ensures LeftBy(Run(cs[..q], data), cs[j], data)
  {
    if q == j + 1 {
      LeftAtOnce(cs, j, data);
    } else {
      LeftAt(cs, j, q - 1, data);
      LeftSnoc(cs, cs[j], q - 1, data);
    }
  }

  lemma LeftAtOnce(cs: seq<int>, j: nat, data: UnicodeData)
    requires j < |cs| && !Combines(Run(cs[..j], data), cs[j], data)
    requires data.combining(cs[j]) != 0 ==> Run(cs[..j], data).done != []
    ensures LeftBy(Run(cs[..j + 1], data), cs[j], data)
  {
    RunSnoc(cs, j + 1, data);
    LeftFirst(Run(cs[..j], data), cs[j], data);
  }

  lemma LeftSnoc(cs: seq<int>, c: int, q: nat, data: UnicodeData)
    requires q < |cs| && LeftBy(Run(cs[..q], data), c, data) && Combines(Run(cs[..q], data), cs[q], data)
    ensures LeftBy(Run(cs[..q + 1], data), c, data)
  {
    RunSnoc(cs, q + 1, data);
    LeftNext(Run(cs[..q], data), c, cs[q], data);
  }

  /** The last code point that does not combine. */
  lemma {:induction false} LastLeft(cs: seq<int>, q: nat, data: UnicodeData) returns (j: nat)
    requires 0 < q <= |cs| && data.combining(cs[0]) == 0
    ensures j < q && !Combines(Run(cs[..j], data), cs[j], data)
    ensures forall k :: j < k < q ==> Combines(Run(cs[..k], data), cs[k], data)
  {
    j := q - 1;
    if q == 1 {
      assert cs[..0] == [];
    } else if Combines(Run(cs[..j], data), cs[j], data) {
      j := LastLeft(cs, q - 1, data);
    }
  }

  lemma {:induction false} RunNotEmpty(cs: seq<int>, q: nat, data: UnicodeData)
    requires 0 < q <= |cs| && data.combining(cs[0]) == 0
    ensures Run(cs[..q], data).done != []
  {
    RunSnoc(cs, q, data);
    if q == 1 {
      assert cs[..0] == [];
    } else {
      RunNotEmpty(cs, q - 1, data);
    }
  }

  lemma CombinedIsBasic(st: State, c: int, data: UnicodeData)
    requires st.Valid() && Combines(st, c, data)
    ensures !IsPair(c)
  {}

  lemma PairIsLeft(st: State, c: int, data: UnicodeData)
    requires st.Valid() && IsPair(c)
    ensures !Combines(st, c, data)
  {}

  /** The starter is one, also when ligatures have been written over it. */
  lemma {:induction false} StarterIs(cs: seq<int>, data: UnicodeData)
    requires LigaturesAreStarters(data) && cs != [] && data.combining(cs[0]) == 0
    ensures var st := Run(cs, data); st.done != [] && data.combining(st.done[st.starter]) == 0
  {
    if |cs| == 1 {
      RunOfOne(cs, data);
    } else {
      StarterIs(cs[..|cs| - 1], data);
    }
  }

  lemma KnownClass(x: Setting, u: int)
    ensures x.Cls()(u) == 0 || x.Cls()(u) == x.data.combining(u)
  {}

  /** Behind a mark that is left, a starter does not combine. */
  lemma LostTailHasNoStarter(x: Setting, cs: seq<int>, j: int, k: int)
    requires Begins(x, cs) && LostAt(x, cs, j) && j < k < |cs|
    ensures x.data.combining(cs[k]) != 0
  {
    LostIsLeft(x, cs, j);
    LeftAt(cs, j, k, x.data);
    KnownClass(x, cs[j]);
    assert Combines(Run(cs[..k], x.data), cs[k], x.data);
  }

  lemma LostIsLeft(x: Setting, cs: seq<int>, j: int)
    requires Begins(x, cs) && LostAt(x, cs, j)
    ensures j > 0 && !Combines(Run(cs[..j], x.data), cs[j], x.data) && Run(cs[..j], x.data).done != []
    ensures x.data.combining(cs[j]) != 0
    ensures forall k :: j < k < |cs| ==> Combines(Run(cs[..k], x.data), cs[k], x.data)
  {
    KnownClass(x, cs[j]);
    PairIsLeft(Run(cs[..j], x.data), cs[j], x.data);
    RunNotEmpty(cs, j, x.data);
  }

  /** The tail is lost exactly when what composition leaves at the end is not compared. */
  lemma TailLostExactly(x: Setting, cs: seq<int>)
    requires x.Sound() && Begins(x, cs)
    ensures TailLost(x, cs) <==> EndSkipped(x, cs)
  {
    if TailLost(x, cs) {
      var j :| LostAt(x, cs, j);
      LostIsSkipped(x, cs, j);
    }
    if EndSkipped(x, cs) {
      SkippedEndIsLost(x, cs);
    }
  }

  lemma LostIsSkipped(x: Setting, cs: seq<int>, j: int)
    requires Begins(x, cs) && LostAt(x, cs, j)
    ensures EndSkipped(x, cs)
  {
    LostIsLeft(x, cs, j);
    LeftAt(cs, j, |cs|, x.data);
    LeftIsSkipped(x, cs, j);
  }

  lemma LeftIsSkipped(x: Setting, cs: seq<int>, j: int)
    requires LostAt(x, cs, j) && x.data.combining(cs[j]) != 0 && LeftBy(Run(cs[..|cs|], x.data), cs[j], x.data)
    ensures EndSkipped(x, cs)
  {
    assert cs[..|cs|] == cs;
  }

  /** The code point that the end of a composed text was left by. */
  lemma EndIsLeft(cs: seq<int>, data: UnicodeData) returns (j: nat)
    requires cs != [] && data.combining(cs[0]) == 0
    ensures j < |cs| && LeftBy(Run(cs, data), cs[j], data) && AllCombine(cs, j + 1, data)
  {
    assert cs[..|cs|] == cs;
    j := LastLeft(cs, |cs|, data);
    if j > 0 {
      RunNotEmpty(cs, j, data);
    }
    LeftAt(cs, j, |cs|, data);
  }

  lemma SkippedEndIsLost(x: Setting, cs: seq<int>)
    requires x.Sound() && Begins(x, cs) && EndSkipped(x, cs)
    ensures TailLost(x, cs)
  {
    var done := Run(cs, x.data).done;
    var j := EndIsLeft(cs, x.data);
    StarterIs(cs, x.data);
    KnownClass(x, done[|done| - 1]);
    assert done[|done| - 1] == cs[j] && j < |cs| - 1;
    LastIsBasic(cs, j + 1, x.data);
    assert LostAt(x, cs, j);
  }

  lemma LastIsBasic(cs: seq<int>, from: nat, data: UnicodeData)
    requires from < |cs| && AllCombine(cs, from, data)
    ensures !IsPair(cs[|cs| - 1])
  {
    CombinedIsBasic(Run(cs[..|cs| - 1], data), cs[|cs| - 1], data);
  }
}

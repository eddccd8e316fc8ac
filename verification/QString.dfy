/** The operations of qstring.cpp that the loops of the other files edit their strings with. */
module QString {
  import opened Units
  import opened StringMatcher

  /** What is left of `t` when `n` units, or all there are, have been removed from its front. */
  function Rest(t: seq<Unit>, n: nat): (r: seq<Unit>) {
    if n < |t| then t[n..] else []
  }

  /** Removes up to `len` units from index `pos` on. */
  method Remove(s: seq<Unit>, pos: nat, len: nat) returns (s': seq<Unit>)
    ensures pos < |s| ==> s' == s[..pos] + Rest(s[pos..], len)
    ensures pos >= |s| ==> s' == s
  {
    if pos >= |s| {
      return s;
    } else if pos + len >= |s| {
      return s[..pos];
    } else if len > 0 {
      return s[..pos] + s[pos + len..];
    }
    return s;
  }

  method Insert(s: seq<Unit>, i: nat, unicode: seq<Unit>) returns (s': seq<Unit>)
    requires i <= |s|
    ensures s' == s[..i] + unicode + s[i..]
  {
    if |unicode| == 0 {
      return s;
    }
    return s[..i] + unicode + s[i..];
  }

  /**
   * Replaces by position. The source does not look at `len`: it removes as many units as it
   * inserts.
   */
  method Replace(s: seq<Unit>, pos: nat, len: nat, unicode: seq<Unit>) returns (s': seq<Unit>)
    requires pos < |s|
    ensures s' == s[..pos] + unicode + Rest(s[pos..], |unicode|)
  {
    s' := Remove(s, pos, |unicode|);
    s' := Insert(s', pos, unicode);
  }

  // ---------- Replacing a string by another ----------

  /** `s` with every occurrence of `before`, found from left to right, replaced by `after`. */
  function Replaced(s: seq<Unit>, before: seq<Unit>, after: seq<Unit>): seq<Unit>
    requires before != []
  {
    if |s| < |before| then s
    else if s[..|before|] == before then after + Replaced(s[|before|..], before, after)
    else [s[0]] + Replaced(s[1..], before, after)
  }

  lemma OccursHere(s: seq<Unit>, before: seq<Unit>, j: nat)
    requires j + |before| <= |s|
    ensures OccursAt(s, before, j) <==> s[j..][..|before|] == before
  {
    if s[j..][..|before|] == before {
      forall k | 0 <= k < |before|
        ensures s[j + k] == before[k]
      {
        assert s[j..][..|before|][k] == s[j + k];
      }
    }
  }

  lemma ReplacedHere(s: seq<Unit>, before: seq<Unit>, after: seq<Unit>, j: nat)
    requires before != [] && OccursAt(s, before, j)
    ensures Replaced(s[j..], before, after) == after + Replaced(s[j + |before|..], before, after)
  {
    OccursHere(s, before, j);
    assert s[j..][|before|..] == s[j + |before|..];
  }

  lemma KeptHere(s: seq<Unit>, before: seq<Unit>, after: seq<Unit>, j: nat)
    requires before != [] && j + |before| <= |s| && !OccursAt(s, before, j)
    ensures Replaced(s[j..], before, after) == [s[j]] + Replaced(s[j + 1..], before, after)
  {
    OccursHere(s, before, j);
    assert s[j..][1..] == s[j + 1..];
  }

  /** What lies before the first occurrence is kept. */
  lemma {:induction false} KeptUpTo(s: seq<Unit>, before: seq<Unit>, after: seq<Unit>, index: nat, found: nat)
    requires before != [] && index <= found <= |s| && found + |before| <= |s| + 1
    requires NoneBetween(s, before, index, found)
    ensures Replaced(s[index..], before, after) == s[index..found] + Replaced(s[found..], before, after)
    decreases found - index
  {
    var rest := Replaced(s[found..], before, after);
    if index == found {
      assert s[index..found] + rest == rest;
    } else {
      KeptHere(s, before, after, index);
      KeptUpTo(s, before, after, index + 1, found);
      SplitFirst(s, index, found, rest);
    }
  }

  lemma SplitFirst(s: seq<Unit>, index: nat, found: nat, rest: seq<Unit>)
    requires index < found <= |s|
    ensures s[index..found] + rest == [s[index]] + (s[index + 1..found] + rest)
  {
    assert s[index..found] == [s[index]] + s[index + 1..found];
    Regroup([s[index]], s[index + 1..found], rest);
  }

  lemma {:induction false} ReplacedBySame(s: seq<Unit>, before: seq<Unit>)
    requires before != []
    ensures Replaced(s, before, before) == s
    decreases |s|
  {
    if |s| >= |before| {
      if s[..|before|] == before {
        ReplacedBySame(s[|before|..], before);
      } else {
        ReplacedBySame(s[1..], before);
      }
    }
  }

  lemma KeysAreUnits(s: seq<Unit>, foldDiff: int -> int)
    ensures Keys(s, true, foldDiff) == s
  {}

  /** Replaces every occurrence of `before`; this is the branch for strings of equal length. */
  method ReplaceAll(str: seq<Unit>, before: seq<Unit>, after: seq<Unit>, foldDiff: int -> int) returns (s: seq<Unit>)
    requires |before| == |after| > 0
    ensures s == Replaced(str, before, after)
  {
    s := str;
    if |s| == 0 {
      return;
    } else if before == after {
      ReplacedBySame(str, before);
      return;
    }
    var matcher := new QStringMatcher(before, true, foldDiff);
    var index := 0;
    assert s[..index] == [] && s[index..] == s;
    while true
      invariant 0 <= index <= |s| && matcher.Valid() && matcher.pattern == before && matcher.caseSensitive
      invariant s[..index] + Replaced(s[index..], before, after) == Replaced(str, before, after)
      decreases |s| - index
    {
      var found := matcher.IndexIn(s, index);
      KeysAreUnits(s, matcher.foldDiff);
      KeysAreUnits(before, matcher.foldDiff);
      if found == -1 {
        Unfound(s, before, after, index);
        return;
      }
      FoundNext(s, before, after, index, found);
      s := s[..found] + after + s[found + |before|..];
      index := found + |before|;
    }
  }

  lemma Unfound(s: seq<Unit>, before: seq<Unit>, after: seq<Unit>, index: nat)
    requires before != [] && index <= |s| && IsFirstOccurrence(s, before, index, -1)
    ensures s[..index] + Replaced(s[index..], before, after) == s
  {
    var last := |s| + 1 - |before|;
    if index < last {
      KeptUpTo(s, before, after, index, last);
      assert s[index..] == s[index..last] + s[last..];
    }
  }

  lemma FoundNext(s: seq<Unit>, before: seq<Unit>, after: seq<Unit>, index: nat, found: int)
    requires |before| == |after| > 0 && index <= |s| && found != -1 && IsFirstOccurrence(s, before, index, found)
    ensures index <= found && found + |before| <= |s|
    ensures var s' := s[..found] + after + s[found + |before|..]; var index' := found + |before|;
      s'[..index'] + Replaced(s'[index'..], before, after) == s[..index] + Replaced(s[index..], before, after)
  {
    var rest := Replaced(s[found + |before|..], before, after);
    KeptUpTo(s, before, after, index, found);
    ReplacedHere(s, before, after, found);
    AfterReplacing(s, after, index, found);
    Regroup(s[..index], s[index..found], after + rest);
    Regroup(s[..found], after, rest);
  }

  lemma AfterReplacing(s: seq<Unit>, after: seq<Unit>, index: nat, found: nat)
    requires index <= found && found + |after| <= |s|
    ensures var s' := s[..found] + after + s[found + |after|..];
      && s'[..found + |after|] == s[..found] + after && s'[found + |after|..] == s[found + |after|..]
      && s[..found] == s[..index] + s[index..found]
  {}
}

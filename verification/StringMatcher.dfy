/** The skip-table search of qstringmatcher.cpp and the class that caches its table. */
module StringMatcher {
  import opened Units

  /** What a search compares: the units themselves, or their case-folded values. */
  type Key = Uint32

  /**
   * Case folding of the unit at `i`. A low surrogate is looked up together with the high
   * surrogate before it, but only its own unit is shifted by the difference found.
   * `foldDiff` stands for the caseFoldDiff column of the property table.
   */
  function FoldCase(s: seq<Unit>, i: nat, foldDiff: int -> int): Key
    requires i < |s|
  {
    var c := if IsLow(s[i]) && i > 0 && IsHigh(s[i - 1]) then Join(s[i - 1], s[i]) else s[i];
    (s[i] + foldDiff(c)) % 0x1_0000_0000
  }

  function KeyAt(s: seq<Unit>, i: nat, cs: bool, foldDiff: int -> int): Key
    requires i < |s|
  {
    if cs then s[i] else FoldCase(s, i, foldDiff)
  }

  /** The whole string as the search sees it. */
  function Keys(s: seq<Unit>, cs: bool, foldDiff: int -> int): (keys: seq<Key>)
    ensures |keys| == |s|
    ensures forall i :: 0 <= i < |s| ==> keys[i] == KeyAt(s, i, cs, foldDiff)
  {
    seq(|s|, i requires 0 <= i < |s| => KeyAt(s, i, cs, foldDiff))
  }

  // ---------- What a search must find ----------

  predicate OccursAt(hay: seq<Key>, needle: seq<Key>, j: int) {
    0 <= j && j + |needle| <= |hay| && forall k :: 0 <= k < |needle| ==> hay[j + k] == needle[k]
  }

  /** `r` is the first occurrence at or after `from`, or -1 when there is none. */
  ghost predicate IsFirstOccurrence(hay: seq<Key>, needle: seq<Key>, from: int, r: int) {
    && (r == -1 ==> forall j :: from <= j ==> !OccursAt(hay, needle, j))
    && (r != -1 ==> from <= r && OccursAt(hay, needle, r) && NoneBetween(hay, needle, from, r))
  }

  ghost predicate NoneBetween(hay: seq<Key>, needle: seq<Key>, lo: int, hi: int) {
    forall j :: lo <= j < hi ==> !OccursAt(hay, needle, j)
  }

  /** The specification determines the answer. */
  lemma FirstOccurrenceIsUnique(hay: seq<Key>, needle: seq<Key>, from: nat, r: int, r': int)
    requires IsFirstOccurrence(hay, needle, from, r) && IsFirstOccurrence(hay, needle, from, r')
    ensures r == r'
  {}

  /** An empty needle is found wherever the search may begin. */
  lemma EmptyNeedle(hay: seq<Key>, from: nat, r: int)
    requires IsFirstOccurrence(hay, [], from, r)
    ensures r == if from <= |hay| then from else -1
  {
    assert from <= |hay| ==> OccursAt(hay, [], from);
  }

  lemma OccurrenceKey(hay: seq<Key>, needle: seq<Key>, j: nat, k: nat)
    requires k < |needle| && j + k < |hay|
    ensures OccursAt(hay, needle, j) ==> hay[j + k] == needle[k]
  {}

  // ---------- The skip table ----------

  function LowByte(key: Key): Byte {
    key % 0x100
  }

  /**
   * `d` is the distance from the end of the needle back to the last key with low byte `b`,
   * or the length of the needle when there is no such key.
   */
  ghost predicate IsSkip(needle: seq<Key>, b: Byte, d: nat) {
    && d <= |needle|
    && (d < |needle| ==> LowByte(needle[|needle| - 1 - d]) == b)
    && forall k :: |needle| - d <= k < |needle| ==> LowByte(needle[k]) != b
  }

  ghost predicate IsSkipTable(table: seq<nat>, needle: seq<Key>) {
    |table| == 0x100 && forall b: Byte :: IsSkip(needle, b, table[b])
  }

  lemma SkipIsUnique(needle: seq<Key>, b: Byte, d: nat, d': nat)
    requires IsSkip(needle, b, d) && IsSkip(needle, b, d')
    ensures d == d'
  {}

  /** A needle has one skip table. */
  lemma SkipTableIsUnique(needle: seq<Key>, table: seq<nat>, table': seq<nat>)
    requires IsSkipTable(table, needle) && IsSkipTable(table', needle)
    ensures table == table'
  {
    forall b: Byte
      ensures table[b] == table'[b]
    {
      SkipIsUnique(needle, b, table[b], table'[b]);
    }
  }

  lemma SkipNext(needle: seq<Key>, at: nat, b: Byte, d: nat)
    requires at < |needle| && IsSkip(needle[..at], b, d)
    ensures IsSkip(needle[..at + 1], b, if LowByte(needle[at]) == b then 0 else d + 1)
  {}

  /** Fills the table front to back, so that the last unit with a given low byte wins. */
  method BmInitSkiptable(uc: seq<Unit>, skiptable: array<nat>, cs: bool, foldDiff: int -> int)
    requires skiptable.Length == 0x100
    modifies skiptable
    ensures IsSkipTable(skiptable[..], Keys(uc, cs, foldDiff))
  {
    ghost var keys := Keys(uc, cs, foldDiff);
    var l := |uc|;
    var i := 0;
    while i < 0x100
      invariant 0 <= i <= 0x100
      invariant forall b: nat :: b < i ==> skiptable[b] == l
    {
      skiptable[i] := l;
      i := i + 1;
    }
    var at := 0;
    while l > 0
      invariant 0 <= l && 0 <= at && at + l == |uc|
      invariant forall b: Byte :: l <= skiptable[b] && IsSkip(keys[..at], b, skiptable[b] - l)
    {
      ghost var before := skiptable[..];
      l := l - 1;
      skiptable[LowByte(KeyAt(uc, at, cs, foldDiff))] := l;
      forall b: Byte
        ensures l <= skiptable[b] && IsSkip(keys[..at + 1], b, skiptable[b] - l)
      {
        SkipNext(keys, at, b, before[b] - (l + 1));
      }
      at := at + 1;
    }
    assert keys[..at] == keys;
  }

  // ---------- Why each shift is safe ----------

  /** Shifting by the table entry of the key under the needle's last position loses nothing. */
  lemma ShiftBySkip(hay: seq<Key>, needle: seq<Key>, start: nat, last: nat, skip: nat)
    requires needle != [] && last == start + |needle| - 1 < |hay|
    requires IsSkip(needle, LowByte(hay[last]), skip)
    ensures NoneBetween(hay, needle, start, start + skip)
  {
    forall j | start <= j < start + skip
      ensures !OccursAt(hay, needle, j)
    {
      OccurrenceKey(hay, needle, j, last - j);
    }
  }

  /** Shifting past a key whose low byte is nowhere in the needle loses nothing. */
  lemma ShiftPastForeign(hay: seq<Key>, needle: seq<Key>, start: nat, at: nat)
    requires start <= at < start + |needle| <= |hay|
    requires IsSkip(needle, LowByte(hay[at]), |needle|)
    ensures NoneBetween(hay, needle, start, at + 1)
  {
    forall j | start <= j < at + 1
      ensures !OccursAt(hay, needle, j)
    {
      OccurrenceKey(hay, needle, j, at - j);
    }
  }

  /** After a mismatch at `at` the loop shifts past it if it is foreign, else by one. */
  lemma ShiftAfterMismatch(hay: seq<Key>, needle: seq<Key>, start: nat, at: nat, skip: nat, shift: nat)
    requires !OccursAt(hay, needle, start) && start <= at < start + |needle| <= |hay|
    requires IsSkip(needle, LowByte(hay[at]), skip) && shift == if skip == |needle| then at + 1 - start else 1
    ensures shift > 0 && NoneBetween(hay, needle, start, start + shift)
  {
    if skip == |needle| {
      ShiftPastForeign(hay, needle, start, at);
    } else {
      ShiftByOne(hay, needle, start);
    }
  }

  lemma ShiftByOne(hay: seq<Key>, needle: seq<Key>, start: int)
    requires !OccursAt(hay, needle, start)
    ensures NoneBetween(hay, needle, start, start + 1)
  {}

  lemma NoneExtended(hay: seq<Key>, needle: seq<Key>, lo: int, mid: int, hi: int)
    requires lo <= mid < hi && NoneBetween(hay, needle, lo, mid) && NoneBetween(hay, needle, mid, hi)
    ensures NoneBetween(hay, needle, lo, hi)
  {}

  lemma NoneBeyond(hay: seq<Key>, needle: seq<Key>, start: int)
    requires start + |needle| > |hay|
    ensures forall j :: start <= j ==> !OccursAt(hay, needle, j)
  {}

  /** The table entry for the key at `i`. */
  method LookUp(uc: seq<Unit>, i: nat, skiptable: array<nat>, ghost puc: seq<Unit>, cs: bool,
                foldDiff: int -> int) returns (skip: nat)
    requires i < |uc| && IsSkipTable(skiptable[..], Keys(puc, cs, foldDiff))
    ensures IsSkip(Keys(puc, cs, foldDiff), LowByte(Keys(uc, cs, foldDiff)[i]), skip)
  {
    var b: Byte := LowByte(KeyAt(uc, i, cs, foldDiff));
    skip := skiptable[b];
    assert skip == skiptable[..][b];
  }

  /**
   * The backwards comparison at one alignment: how many trailing keys of the needle agree
   * with the haystack, starting from `skip` known ones.
   */
  method MatchBackwards(uc: seq<Unit>, current: nat, puc: seq<Unit>, cs: bool, foldDiff: int -> int)
      returns (skip: nat)
    requires puc != [] && |puc| - 1 <= current < |uc|
    ensures skip <= |puc|
    ensures skip == |puc| <==> OccursAt(Keys(uc, cs, foldDiff), Keys(puc, cs, foldDiff), current - (|puc| - 1))
  {
    ghost var hay, needle := Keys(uc, cs, foldDiff), Keys(puc, cs, foldDiff);
    ghost var start := current - (|puc| - 1);
    skip := 0;
    while skip < |puc|
      invariant skip <= |puc|
      invariant forall k :: |puc| - skip <= k < |puc| ==> hay[start + k] == needle[k]
    {
      if KeyAt(uc, current - skip, cs, foldDiff) != KeyAt(puc, |puc| - 1 - skip, cs, foldDiff) {
        OccurrenceKey(hay, needle, start, |puc| - 1 - skip);
        return;
      }
      skip := skip + 1;
    }
  }

  /** How far to shift when only the last `skip` keys agree. */
  method MismatchShift(uc: seq<Unit>, current: nat, skip: nat, puc: seq<Unit>, skiptable: array<nat>, cs: bool,
                       foldDiff: int -> int, ghost start: nat) returns (shift: nat)
    requires IsSkipTable(skiptable[..], Keys(puc, cs, foldDiff))
    requires skip < |puc| && start + |puc| == current + 1 <= |uc|
    requires !OccursAt(Keys(uc, cs, foldDiff), Keys(puc, cs, foldDiff), start)
    ensures shift > 0 && NoneBetween(Keys(uc, cs, foldDiff), Keys(puc, cs, foldDiff), start, start + shift)
  {
    var at := current - skip;
    var entry := LookUp(uc, at, skiptable, puc, cs, foldDiff);
    shift := if entry == |puc| then |puc| - skip else 1;
    ShiftAfterMismatch(Keys(uc, cs, foldDiff), Keys(puc, cs, foldDiff), start, at, entry, shift);
  }

  /**
   * One alignment, whose last key is at `current`: a match, or how far to shift. Every shift
   * makes progress and passes over no occurrence.
   */
  method TryAlignment(uc: seq<Unit>, current: nat, puc: seq<Unit>, skiptable: array<nat>, cs: bool,
                      foldDiff: int -> int) returns (found: bool, skip: nat)
    requires IsSkipTable(skiptable[..], Keys(puc, cs, foldDiff))
    requires puc != [] && |puc| - 1 <= current < |uc|
    ensures var hay, needle, start := Keys(uc, cs, foldDiff), Keys(puc, cs, foldDiff), current - (|puc| - 1);
      if found then OccursAt(hay, needle, start) else skip > 0 && NoneBetween(hay, needle, start, start + skip)
  {
    ghost var hay, needle := Keys(uc, cs, foldDiff), Keys(puc, cs, foldDiff);
    var pl := |puc|;
    ghost var start := current - (pl - 1);
    skip := LookUp(uc, current, skiptable, puc, cs, foldDiff);
    if skip != 0 {
      ShiftBySkip(hay, needle, start, current, skip);
      return false, skip;
    }
    skip := MatchBackwards(uc, current, puc, cs, foldDiff);
    if skip > pl - 1 {
      return true, skip;
    }
    skip := MismatchShift(uc, current, skip, puc, skiptable, cs, foldDiff, start);
    return false, skip;
  }

  /**
   * The search. The source writes the loop twice, once on units and once on folded units;
   * `KeyAt` selects between the two readings here. Addresses into the haystack become indices.
   */
  method BmFind(uc: seq<Unit>, index: nat, puc: seq<Unit>, skiptable: array<nat>, cs: bool,
                foldDiff: int -> int) returns (r: int)
    requires IsSkipTable(skiptable[..], Keys(puc, cs, foldDiff))
    ensures IsFirstOccurrence(Keys(uc, cs, foldDiff), Keys(puc, cs, foldDiff), index, r)
  {
    ghost var hay, needle := Keys(uc, cs, foldDiff), Keys(puc, cs, foldDiff);
    var l, pl := |uc|, |puc|;
    if pl == 0 {
      return if index > l then -1 else index;
    }
    var current := index + (pl - 1);
    ghost var start := index;  // no occurrence begins in index..start
    while current < l
      invariant index <= start == current - (pl - 1)
      invariant NoneBetween(hay, needle, index, start)
    {
      var found, skip := TryAlignment(uc, current, puc, skiptable, cs, foldDiff);
      if found {
        return current - (pl - 1);
      }
      NoneExtended(hay, needle, index, start, start + skip);
      start := start + skip;
      if current > l - skip {
        break;
      }
      current := current + skip;
    }
    NoneBeyond(hay, needle, start);
    return -1;
  }

  /** The one-shot search: build a table, clamp the offset, search. */
  method FindStringBoyerMoore(haystack: seq<Unit>, haystackOffset: int, needle: seq<Unit>, cs: bool,
                              foldDiff: int -> int) returns (r: int)
    ensures IsFirstOccurrence(Keys(haystack, cs, foldDiff), Keys(needle, cs, foldDiff),
                              if haystackOffset < 0 then 0 else haystackOffset, r)
  {
    var skiptable := new nat[0x100];
    BmInitSkiptable(needle, skiptable, cs, foldDiff);
    var from := if haystackOffset < 0 then 0 else haystackOffset;
    r := BmFind(haystack, from, needle, skiptable, cs, foldDiff);
  }

  /** A pattern with its cached skip table. */
  class QStringMatcher {
    var pattern: seq<Unit>
    var caseSensitive: bool
    const skiptable: array<nat>
    const foldDiff: int -> int

    /** The cached table is the one that the current pattern and case flag call for. */
    ghost predicate Valid()
      reads this, skiptable
    {
      IsSkipTable(skiptable[..], Keys(pattern, caseSensitive, foldDiff))
    }

    constructor Empty(foldDiff: int -> int)
      ensures Valid() && fresh(skiptable) && this.foldDiff == foldDiff
      ensures pattern == [] && caseSensitive
    {
      pattern, caseSensitive := [], true;
      skiptable := new nat[0x100](_ => 0);
      this.foldDiff := foldDiff;
    }

    constructor (pattern: seq<Unit>, cs: bool, foldDiff: int -> int)
      ensures Valid() && fresh(skiptable) && this.foldDiff == foldDiff
      ensures this.pattern == pattern && caseSensitive == cs
    {
      this.pattern, caseSensitive := pattern, cs;
      skiptable := new nat[0x100];
      this.foldDiff := foldDiff;
      new;
      BmInitSkiptable(pattern, skiptable, cs, foldDiff);
    }

    constructor Copy(other: QStringMatcher)
      requires other.Valid()
      ensures Valid() && fresh(skiptable) && foldDiff == other.foldDiff
      ensures pattern == other.pattern && caseSensitive == other.caseSensitive
    {
      pattern, caseSensitive := [], true;
      skiptable := new nat[0x100];
      foldDiff := other.foldDiff;
      new;
      Assign(other);
    }

    /** Copies pattern, flag and table; the table is copied element by element, not shared. */
    method Assign(other: QStringMatcher)
      requires other.Valid() && other.foldDiff == foldDiff && skiptable.Length == 0x100
      requires other == this || other.skiptable != skiptable
      modifies this, skiptable
      ensures Valid() && other.Valid()
      ensures pattern == old(other.pattern) && caseSensitive == old(other.caseSensitive)
    {
      pattern := other.pattern;
      caseSensitive := other.caseSensitive;
      forall i | 0 <= i < 0x100 {
        skiptable[i] := other.skiptable[i];
      }
      assert skiptable[..] == old(other.skiptable[..]);
    }

    method SetPattern(pattern: seq<Unit>)
      requires Valid()
      modifies this, skiptable
      ensures Valid() && this.pattern == pattern && caseSensitive == old(caseSensitive)
    {
      BmInitSkiptable(pattern, skiptable, caseSensitive, foldDiff);
      this.pattern := pattern;
    }

    method SetCaseSensitivity(cs: bool)
      requires Valid()
      modifies this, skiptable
      ensures Valid() && pattern == old(pattern) && caseSensitive == cs
    {
      if cs == caseSensitive {
        return;
      }
      BmInitSkiptable(pattern, skiptable, cs, foldDiff);
      caseSensitive := cs;
    }

    /** Agrees with `FindStringBoyerMoore` on the current pattern and flag. */
    method IndexIn(str: seq<Unit>, from: int) returns (r: int)
      requires Valid()
      ensures IsFirstOccurrence(Keys(str, caseSensitive, foldDiff), Keys(pattern, caseSensitive, foldDiff),
                                if from < 0 then 0 else from, r)
    {
      r := BmFind(str, if from < 0 then 0 else from, pattern, skiptable, caseSensitive, foldDiff);
    }
  }
}

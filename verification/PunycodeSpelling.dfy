/**
 * What an encoder of RFC 3492 has to write: the simple procedure of section 6.3, which steps through all
 * code points and positions one by one as the decoder does, with nothing skipped.
 */
module PunycodeSpelling {
  import opened Units
  import opened Punycode
  import opened Arithmetic

  // ---------- What a sweep has seen ----------

  /** The units below `n`, in order. */
  function Below(s: seq<int>, n: int): (r: seq<int>)
    ensures |r| <= |s|
    ensures forall u :: u in r ==> u < n
  {
    if s == [] then []
    else Below(s[..|s| - 1], n) + (if s[|s| - 1] < n then [s[|s| - 1]] else [])
  }

  lemma {:induction false} BelowConcat(a: seq<int>, b: seq<int>, n: int)
    ensures Below(a + b, n) == Below(a, n) + Below(b, n)
  {
    if b == [] {
      assert a + b == a;
    } else {
      var last := |b| - 1;
      assert (a + b)[..|a + b| - 1] == a + b[..last];
      BelowConcat(a, b[..last], n);
    }
  }

  lemma {:induction false} BelowIsAll(s: seq<int>, n: int)
    ensures |Below(s, n)| == |s| <==> forall i :: 0 <= i < |s| ==> s[i] < n
    ensures |Below(s, n)| == |s| ==> Below(s, n) == s
  {
    if s != [] {
      var last := |s| - 1;
      BelowIsAll(s[..last], n);
      assert s == s[..last] + [s[last]];
    }
  }

  /** Raising the bound past values that do not occur selects nothing more. */
  lemma {:induction false} BelowSkips(s: seq<int>, n: int, m: int)
    requires n <= m && forall i :: 0 <= i < |s| ==> s[i] < n || m <= s[i]
    ensures Below(s, n) == Below(s, m)
  {
    if s != [] {
      BelowSkips(s[..|s| - 1], n, m);
    }
  }

  /** What the decoder holds when the pass for `n` has reached index `j`. */
  function Held(uc: seq<int>, n: int, j: nat): seq<int>
    requires j <= |uc|
  {
    Below(uc[..j], n + 1) + Below(uc[j..], n)
  }

  lemma BelowSnoc(s: seq<int>, n: int, j: nat)
    requires j < |s|
    ensures Below(s[..j + 1], n) == Below(s[..j], n) + (if s[j] < n then [s[j]] else [])
  {
    assert s[..j + 1][..j] == s[..j];
  }

  lemma BelowCons(s: seq<int>, n: int, j: nat)
    requires j < |s|
    ensures Below(s[j..], n) == (if s[j] < n then [s[j]] else []) + Below(s[j + 1..], n)
  {
    assert s[j..] == [s[j]] + s[j + 1..];
    BelowConcat([s[j]], s[j + 1..], n);
    assert Below([], n) == [] && [s[j]][..0] == [];
  }

  /** The unit `n` at index `j` enters between what was held before `j` and after it. */
  lemma HeldInsert(uc: seq<int>, n: int, j: nat)
    requires j < |uc| && uc[j] == n
    ensures Below(uc[..j + 1], n + 1) == Below(uc[..j], n + 1) + [n]
    ensures Below(uc[j..], n) == Below(uc[j + 1..], n)
  {
    BelowSnoc(uc, n + 1, j);
    BelowCons(uc, n, j);
  }

  lemma HeldKeep(uc: seq<int>, n: int, j: nat)
    requires j < |uc| && uc[j] != n
    ensures Held(uc, n, j + 1) == Held(uc, n, j)
    ensures |Below(uc[..j + 1], n + 1)| == |Below(uc[..j], n + 1)| + (if uc[j] < n then 1 else 0)
  {
    BelowSnoc(uc, n + 1, j);
    BelowCons(uc, n, j);
  }

  lemma {:induction false} BelowGrows(s: seq<int>, n: int)
    ensures |Below(s, n)| <= |Below(s, n + 1)|
    ensures n in s ==> |Below(s, n)| < |Below(s, n + 1)|
  {
    if s != [] {
      BelowGrows(s[..|s| - 1], n);
    }
  }

  // ---------- What is to be written ----------

  /** The digits from code point `n` and input index `j` on, when `delta` steps have not been written yet. */
  function Spelled(uc: seq<int>, n: int, j: nat, delta: nat, bias: nat, h: nat, b: nat): seq<Byte>
    requires j <= |uc|
    decreases 0x1_0000 - n, |uc| - j
  {
    if h >= |uc| || n >= 0x1_0000 then []
    else if j == |uc| then Spelled(uc, n + 1, 0, delta + 1, bias, h, b)
    else if uc[j] == n then
      EncodeInt(delta, bias, BASE) + Spelled(uc, n, j + 1, 0, Adapt(delta, h + 1, h == b), h + 1, b)
    else Spelled(uc, n, j + 1, if uc[j] < n then delta + 1 else delta, bias, h, b)
  }

  /** All of them, behind the basic code points. */
  function AllSpelled(uc: seq<int>): seq<Byte> {
    var b := |Below(uc, INITIAL_N)|;
    Spelled(uc, INITIAL_N, 0, 0, INITIAL_BIAS, b, b)
  }

  function Basic(uc: seq<Unit>): (r: seq<Byte>)
    ensures r == Below(uc, INITIAL_N)
  {
    if uc == [] then [] else Basic(uc[..|uc| - 1]) + if uc[|uc| - 1] < 0x80 then [uc[|uc| - 1]] else []
  }

  /** The label "xn--", the basic code points, a delimiter if there are any, and the digits. */
  function PunycodeOf(uc: seq<Unit>): seq<Byte> {
    var basic := Basic(uc);
    [0x78, 0x6e, 0x2d, 0x2d] + ((if basic == [] then [] else basic + [0x2d]) + AllSpelled(uc))
  }

  /** Digits are written in lower case. */
  lemma {:induction false} SpelledIsLower(uc: seq<int>, n: int, j: nat, delta: nat, bias: nat, h: nat, b: nat)
    requires j <= |uc|
    ensures AllLower(Spelled(uc, n, j, delta, bias, h, b))
    decreases 0x1_0000 - n, |uc| - j
  {
    if !(h >= |uc| || n >= 0x1_0000) {
      if j == |uc| {
        SpelledIsLower(uc, n + 1, 0, delta + 1, bias, h, b);
        assert Spelled(uc, n, j, delta, bias, h, b) == Spelled(uc, n + 1, 0, delta + 1, bias, h, b);
      } else if uc[j] == n {
        DigitsAreLower(delta, bias, BASE);
        SpelledIsLower(uc, n, j + 1, 0, Adapt(delta, h + 1, h == b), h + 1, b);
      } else {
        SpelledIsLower(uc, n, j + 1, if uc[j] < n then delta + 1 else delta, bias, h, b);
      }
    }
  }

  /** With `digits` written, the digits that are still to be written complete the label. */
  ghost predicate OnCourse(uc: seq<int>, digits: seq<Byte>, n: int, j: nat, delta: int, bias: int, h: int, b: int) {
    && j <= |uc| && 0 <= delta && 0 <= bias && 0 <= h && 0 <= b
    && digits + Spelled(uc, n, j, delta, bias, h, b) == AllSpelled(uc)
  }

  lemma CourseEmits(uc: seq<Unit>, digits: seq<Byte>, n: int, j: nat, delta: nat, bias: nat, h: nat, b: nat)
    requires j < |uc| && uc[j] == n && h < |uc| && OnCourse(uc, digits, n, j, delta, bias, h, b)
    ensures OnCourse(uc, digits + EncodeInt(delta, bias, BASE), n, j + 1, 0, Adapt(delta, h + 1, h == b), h + 1, b)
  {
    Regroup(digits, EncodeInt(delta, bias, BASE), Spelled(uc, n, j + 1, 0, Adapt(delta, h + 1, h == b), h + 1, b));
  }

  lemma CourseEnds(uc: seq<Unit>, digits: seq<Byte>, n: int, delta: int, bias: int, h: int, b: int)
    requires h >= |uc| && OnCourse(uc, digits, n, 0, delta, bias, h, b)
    ensures digits == AllSpelled(uc)
  {
    assert digits + [] == digits;
  }

  /** A pass in which nothing is written takes a step for every smaller unit, and one for its end. */
  lemma {:induction false} EmptyPass(uc: seq<int>, n: int, j: nat, delta: nat, bias: nat, h: nat, b: nat)
    requires j <= |uc| && n !in uc[j..]
    ensures Spelled(uc, n, j, delta, bias, h, b)
         == Spelled(uc, n + 1, 0, delta + |Below(uc[j..], n)| + 1, bias, h, b)
    decreases |uc| - j
  {
    if j < |uc| {
      assert uc[j] in uc[j..] && forall u :: u in uc[j + 1..] ==> u in uc[j..];
      BelowCons(uc, n, j);
      EmptyPass(uc, n, j + 1, if uc[j] < n then delta + 1 else delta, bias, h, b);
    }
  }

  /** So values that do not occur can be skipped all at once. */
  lemma {:induction false} SpelledSkips(uc: seq<int>, n: int, m: int, delta: nat, bias: nat, h: nat, b: nat,
                                        steps: nat)
    requires n <= m && h == |Below(uc, n)| && forall i :: 0 <= i < |uc| ==> uc[i] < n || m <= uc[i]
    requires steps == (m - n) * (h + 1)
    ensures Spelled(uc, n, 0, delta, bias, h, b) == Spelled(uc, m, 0, delta + steps, bias, h, b)
    decreases m - n
  {
    if n < m {
      BelowSkips(uc, n, n + 1);
      EmptyRound(uc, n, delta, bias, h, b);
      OneFactorMore(m - n - 1, h + 1);
      MulAtLeast(m - n - 1, h + 1);
      SpelledSkips(uc, n + 1, m, delta + h + 1, bias, h, b, steps - (h + 1));
    }
  }

  lemma EmptyRound(uc: seq<int>, n: int, delta: nat, bias: nat, h: nat, b: nat)
    requires h == |Below(uc, n)| && n !in uc
    ensures Spelled(uc, n, 0, delta, bias, h, b) == Spelled(uc, n + 1, 0, delta + h + 1, bias, h, b)
  {
    assert uc[0..] == uc;
    EmptyPass(uc, n, 0, delta, bias, h, b);
  }

  lemma OneFactorMore(q: int, d: int)
    ensures (q + 1) * d == q * d + d
  {}
}

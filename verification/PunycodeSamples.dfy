/** Labels and what they are encoded to, among them a sample string of section 7.1 of RFC 3492. */
module PunycodeSamples {
  import opened Units
  import opened Arithmetic
  import opened Punycode
  import opened PunycodeSpelling
  import opened PunycodeEncoder

  // ---------- From one insertion to the next ----------

  /** How many of the units from `i` to `k` are below `n`. */
  function Smaller(uc: seq<int>, n: int, i: nat, k: nat): nat
    requires i <= k <= |uc|
    decreases k - i
  {
    if i == k then 0 else (if uc[i] < n then 1 else 0) + Smaller(uc, n, i + 1, k)
  }

  lemma {:induction false} SmallerIsBelow(uc: seq<int>, n: int, i: nat)
    requires i <= |uc|
    ensures |Below(uc[i..], n)| == Smaller(uc, n, i, |uc|)
    decreases |uc| - i
  {
    if i < |uc| {
      BelowCons(uc, n, i);
      SmallerIsBelow(uc, n, i + 1);
    }
  }

  /** Units that are not `n` are passed over. */
  lemma {:induction false} PassedOver(uc: seq<int>, n: int, i: nat, k: nat, delta: nat, bias: nat, h: nat, b: nat)
    requires i <= k <= |uc| && forall l :: i <= l < k ==> uc[l] != n
    ensures Spelled(uc, n, i, delta, bias, h, b) == Spelled(uc, n, k, delta + Smaller(uc, n, i, k), bias, h, b)
    decreases k - i
  {
    if i < k {
      PassedOver(uc, n, i + 1, k, if uc[i] < n then delta + 1 else delta, bias, h, b);
    }
  }

  /** `m` at index `p` is the next unit to be written after index `j` of the pass for `n`. */
  predicate IsNext(uc: seq<int>, n: int, j: nat, m: int, p: nat) {
    && j <= |uc| && p < |uc| && n < m == uc[p] < 0x1_0000
    && (forall l :: 0 <= l < |uc| ==> uc[l] <= n || m <= uc[l])
    && (forall l :: j <= l < |uc| ==> uc[l] != n) && (forall l :: 0 <= l < p ==> uc[l] != m)
  }

  /** How far the decoder has to step for it. */
  function Distance(uc: seq<int>, n: int, j: nat, m: int, p: nat, h: nat): int
    requires IsNext(uc, n, j, m, p)
  {
    Smaller(uc, n, j, |uc|) + 1 + (m - n - 1) * (h + 1) + Smaller(uc, m, 0, p)
  }

  /** It is `v` steps away when `h` units have been written. */
  predicate IsStep(uc: seq<int>, n: int, j: nat, m: int, p: nat, v: nat, h: nat) {
    IsNext(uc, n, j, m, p) && h < |uc| && h == Smaller(uc, n + 1, 0, |uc|) && v == Distance(uc, n, j, m, p, h)
  }

  lemma NextPass(uc: seq<int>, n: int, m: int, delta: nat, steps: nat, bias: nat, h: nat, b: nat)
    requires n < m < 0x1_0000 && (forall l :: 0 <= l < |uc| ==> uc[l] <= n || m <= uc[l])
    requires h < |uc| && h == Smaller(uc, n + 1, 0, |uc|) && steps == (m - n - 1) * (h + 1)
    ensures Spelled(uc, n, |uc|, delta, bias, h, b) == Spelled(uc, m, 0, delta + 1 + steps, bias, h, b)
  {
    SmallerIsBelow(uc, n + 1, 0);
    assert uc[0..] == uc;
    SpelledSkips(uc, n + 1, m, delta + 1, bias, h, b, steps);
  }

  lemma NextWritten(uc: seq<int>, n: int, j: nat, m: int, p: nat, v: nat, bias: nat, h: nat, b: nat)
    requires IsStep(uc, n, j, m, p, v, h)
    ensures Spelled(uc, n, j, 0, bias, h, b)
         == EncodeInt(v, bias, BASE) + Spelled(uc, m, p + 1, 0, Adapt(v, h + 1, h == b), h + 1, b)
  {
    var delta, steps := Smaller(uc, n, j, |uc|), (m - n - 1) * (h + 1);
    MulAtLeast(m - n - 1, h + 1);
    PassedOver(uc, n, j, |uc|, 0, bias, h, b);
    NextPass(uc, n, m, delta, steps, bias, h, b);
    PassedOver(uc, m, 0, p, delta + 1 + steps, bias, h, b);
    assert Spelled(uc, m, p, v, bias, h, b)
      == EncodeInt(v, bias, BASE) + Spelled(uc, m, p + 1, 0, Adapt(v, h + 1, h == b), h + 1, b);
  }

  // ---------- With its digits and the next bias ----------

  /** `d` is the digit of `q` at position `k`, and `q'` what is left to be written. */
  predicate IsDigit(q: nat, bias: nat, k: nat, d: nat, q': nat) {
    var t := Threshold(k, bias);
    t <= d < BASE && q == q' * (BASE - t) + d
  }

  lemma OneDigit(q: nat, bias: nat, k: nat, d: nat, q': nat)
    requires IsDigit(q, bias, k, d, q')
    ensures EncodeInt(q, bias, k) == [EncodeDigit(d)] + EncodeInt(q', bias, k + BASE)
  {
    var t := Threshold(k, bias);
    MulAtLeast(q', BASE - t);
    DivModUnique(q - t, BASE - t, q', d - t);
  }

  /** How a bias comes about, in numbers that need no division but by 2, 35 and 700. */
  datatype Working = Working(more: nat, moreLeft: nat, e: nat, part: nat, partLeft: nat)

  /** `bias` is the next one, after a delta that is brought down at most twice. */
  predicate IsBias(delta: nat, numPoints: nat, firstTime: bool, w: Working, bias: nat) {
    var half := if firstTime then delta / 700 else delta / 2;
    var d := half + w.more;
    && half == w.more * numPoints + w.moreLeft && w.moreLeft < numPoints
    && w.e == (if d <= 455 then d else if d / 35 <= 455 then d / 35 else d / 1225) <= 455
    && 36 * w.e == w.part * (w.e + 38) + w.partLeft && w.partLeft < w.e + 38
    && bias == (if d <= 455 then 0 else if d / 35 <= 455 then 36 else 72) + w.part
  }

  lemma BiasIs(delta: nat, numPoints: nat, firstTime: bool, w: Working, bias: nat)
    requires numPoints > 0 && IsBias(delta, numPoints, firstTime, w, bias)
    ensures Adapt(delta, numPoints, firstTime) == bias
  {
    var half := if firstTime then delta / 700 else delta / 2;
    DivModUnique(half, numPoints, w.more, w.moreLeft);
    assert Scaled(delta, numPoints, firstTime) == half + w.more;
    DampedIs(half + w.more, w, bias);
  }

  lemma DampedIs(d: nat, w: Working, bias: nat)
    requires w.e == (if d <= 455 then d else if d / 35 <= 455 then d / 35 else d / 1225) <= 455
    requires 36 * w.e == w.part * (w.e + 38) + w.partLeft && w.partLeft < w.e + 38
    requires bias == (if d <= 455 then 0 else if d / 35 <= 455 then 36 else 72) + w.part
    ensures Damped(d, 0) == bias
  {
    DivModUnique(36 * w.e, w.e + 38, w.part, w.partLeft);
    DampedTwice(d);
  }

  lemma DampedTwice(d: nat)
    ensures Damped(d, 0) == if d <= 455 then 36 * d / (d + 38) else Damped(d / 35, 36)
    ensures Damped(d / 35, 36) == if d / 35 <= 455 then 36 + 36 * (d / 35) / (d / 35 + 38) else Damped(d / 1225, 72)
    ensures d / 1225 <= 455 ==> Damped(d / 1225, 72) == 72 + 36 * (d / 1225) / (d / 1225 + 38)
  {}

  lemma TwoDigits(v: nat, bias: nat, d0: nat, q1: nat)
    requires IsDigit(v, bias, BASE, d0, q1)
    requires q1 < Threshold(2 * BASE, bias)
    ensures EncodeInt(v, bias, BASE) == [EncodeDigit(d0), EncodeDigit(q1)]
  {
    OneDigit(v, bias, BASE, d0, q1);
  }

  lemma NextTwo(uc: seq<int>, n: int, j: nat, m: int, p: nat, v: nat, bias: nat, h: nat, b: nat,
                d0: nat, q1: nat, w: Working, next: nat)
    requires IsStep(uc, n, j, m, p, v, h) && IsBias(v, h + 1, h == b, w, next)
    requires IsDigit(v, bias, BASE, d0, q1) && q1 < Threshold(2 * BASE, bias)
    ensures Spelled(uc, n, j, 0, bias, h, b)
         == [EncodeDigit(d0), EncodeDigit(q1)] + Spelled(uc, m, p + 1, 0, next, h + 1, b)
  {
    NextWritten(uc, n, j, m, p, v, bias, h, b);
    BiasIs(v, h + 1, h == b, w, next);
    TwoDigits(v, bias, d0, q1);
  }

  lemma ThreeDigits(v: nat, bias: nat, d0: nat, q1: nat, d1: nat, q2: nat)
    requires IsDigit(v, bias, BASE, d0, q1) && IsDigit(q1, bias, 2 * BASE, d1, q2)
    requires q2 < Threshold(3 * BASE, bias)
    ensures EncodeInt(v, bias, BASE) == [EncodeDigit(d0), EncodeDigit(d1), EncodeDigit(q2)]
  {
    OneDigit(v, bias, BASE, d0, q1);
    OneDigit(q1, bias, 2 * BASE, d1, q2);
  }

  lemma NextThree(uc: seq<int>, n: int, j: nat, m: int, p: nat, v: nat, bias: nat, h: nat, b: nat,
                d0: nat, q1: nat, d1: nat, q2: nat, w: Working, next: nat)
    requires IsStep(uc, n, j, m, p, v, h) && IsBias(v, h + 1, h == b, w, next)
    requires IsDigit(v, bias, BASE, d0, q1) && IsDigit(q1, bias, 2 * BASE, d1, q2) && q2 < Threshold(3 * BASE, bias)
    ensures Spelled(uc, n, j, 0, bias, h, b)
         == [EncodeDigit(d0), EncodeDigit(d1), EncodeDigit(q2)] + Spelled(uc, m, p + 1, 0, next, h + 1, b)
  {
    NextWritten(uc, n, j, m, p, v, bias, h, b);
    BiasIs(v, h + 1, h == b, w, next);
    ThreeDigits(v, bias, d0, q1, d1, q2);
  }

  lemma FourDigits(v: nat, bias: nat, d0: nat, q1: nat, d1: nat, q2: nat, d2: nat, q3: nat)
    requires IsDigit(v, bias, BASE, d0, q1) && IsDigit(q1, bias, 2 * BASE, d1, q2)
    requires IsDigit(q2, bias, 3 * BASE, d2, q3) && q3 < Threshold(4 * BASE, bias)
    ensures EncodeInt(v, bias, BASE) == [EncodeDigit(d0), EncodeDigit(d1), EncodeDigit(d2), EncodeDigit(q3)]
  {
    OneDigit(v, bias, BASE, d0, q1);
    OneDigit(q1, bias, 2 * BASE, d1, q2);
    OneDigit(q2, bias, 3 * BASE, d2, q3);
  }

  lemma NextFour(uc: seq<int>, n: int, j: nat, m: int, p: nat, v: nat, bias: nat, h: nat, b: nat,
                d0: nat, q1: nat, d1: nat, q2: nat, d2: nat, q3: nat, w: Working, next: nat)
    requires IsStep(uc, n, j, m, p, v, h) && IsBias(v, h + 1, h == b, w, next)
    requires IsDigit(v, bias, BASE, d0, q1) && IsDigit(q1, bias, 2 * BASE, d1, q2)
    requires IsDigit(q2, bias, 3 * BASE, d2, q3) && q3 < Threshold(4 * BASE, bias)
    ensures Spelled(uc, n, j, 0, bias, h, b)
         == [EncodeDigit(d0), EncodeDigit(d1), EncodeDigit(d2), EncodeDigit(q3)]
            + Spelled(uc, m, p + 1, 0, next, h + 1, b)
  {
    NextWritten(uc, n, j, m, p, v, bias, h, b);
    BiasIs(v, h + 1, h == b, w, next);
    FourDigits(v, bias, d0, q1, d1, q2, d2, q3);
  }

  // ---------- U+00E4 U+00F6 ----------

  predicate IsUmlauts(uc: seq<int>) {
    |uc| == 2 && uc[0] == 0xe4 && uc[1] == 0xf6
  }

  /** "4ca" */
  lemma Umlaut1(uc: seq<int>)
    requires IsUmlauts(uc)
    ensures Spelled(uc, 0x80, 0, 0, 72, 0, 0)
         == [0x34, 0x63, 0x61] + Spelled(uc, 0xe4, 1, 0, 0, 1, 0)
  {
    NextThree(uc, 0x80, 0, 0xe4, 0, 100, 72, 0, 0, 30, 2, 2, 0, Working(0, 0, 0, 0, 0), 0);
  }

  lemma UmlautBias2()
    ensures IsBias(36, 2, false, Working(9, 0, 27, 14, 62), 14)
  {}

  /** "0b" */
  lemma Umlaut2(uc: seq<int>)
    requires IsUmlauts(uc)
    ensures Spelled(uc, 0xe4, 1, 0, 0, 1, 0)
         == [0x30, 0x62] + Spelled(uc, 0xf6, 2, 0, 14, 2, 0)
  {
    UmlautBias2();
    NextTwo(uc, 0xe4, 1, 0xf6, 1, 36, 0, 1, 0, 26, 1, Working(9, 0, 27, 14, 62), 14);
  }

  /** U+00E4 U+00F6 becomes "xn--4ca0b". */
  lemma UmlautSample(uc: seq<Unit>)
    requires uc == [0xe4, 0xf6]
    ensures PunycodeOf(uc) == [0x78, 0x6e, 0x2d, 0x2d, 0x34, 0x63, 0x61, 0x30, 0x62] && !Overflows(uc)
  {
    assert uc[..1][..0] == [];
    assert Below(uc, 0x80) == [];
    Umlaut1(uc);
    Umlaut2(uc);
    ShortInputsFit(uc);
    assert AllSpelled(uc) == [0x34, 0x63, 0x61] + ([0x30, 0x62] + []);
  }

  // ---------- Sample (L) of section 7.1: 3<nen>B<gumi><kinpachi><sensei> ----------

  predicate IsSensei(uc: seq<int>) {
    && |uc| == 8 && uc[0] == 0x33 && uc[1] == 0x5e74 && uc[2] == 0x42 && uc[3] == 0x7d44
    && uc[4] == 0x91d1 && uc[5] == 0x516b && uc[6] == 0x5148 && uc[7] == 0x751f
  }

  lemma SenseiStep1(uc: seq<int>)
    requires IsSensei(uc)
    ensures IsStep(uc, 0x80, 0, 0x5148, 6, 62042, 2)
  {}

  lemma SenseiStep2(uc: seq<int>)
    requires IsSensei(uc)
    ensures IsStep(uc, 0x5148, 7, 0x516b, 5, 139, 3)
  {}

  lemma SenseiStep3(uc: seq<int>)
    requires IsSensei(uc)
    ensures IsStep(uc, 0x516b, 6, 0x5e74, 1, 16683, 4)
  {}

  lemma SenseiStep4(uc: seq<int>)
    requires IsSensei(uc)
    ensures IsStep(uc, 0x5e74, 2, 0x751f, 7, 34821, 5)
  {}

  lemma SenseiStep5(uc: seq<int>)
    requires IsSensei(uc)
    ensures IsStep(uc, 0x751f, 8, 0x7d44, 3, 14592, 6)
  {}

  lemma SenseiStep6(uc: seq<int>)
    requires IsSensei(uc)
    ensures IsStep(uc, 0x7d44, 4, 0x91d1, 4, 42088, 7)
  {}

  lemma SenseiBias1()
    ensures IsBias(62042, 3, true, Working(29, 1, 117, 27, 27), 27)
  {}

  /** "ww4c" */
  lemma Sensei1(uc: seq<int>)
    requires IsSensei(uc)
    ensures Spelled(uc, 0x80, 0, 0, 72, 2, 2)
         == [0x77, 0x77, 0x34, 0x63] + Spelled(uc, 0x5148, 7, 0, 27, 3, 2)
  {
    SenseiStep1(uc);
    SenseiBias1();
    NextFour(uc, 0x80, 0, 0x5148, 6, 62042, 72, 2, 2, 22, 1772, 22, 50, 30, 2, Working(29, 1, 117, 27, 27), 27);
  }

  lemma SenseiBias2()
    ensures IsBias(139, 4, false, Working(17, 1, 86, 24, 120), 24)
  {}

  /** "5e" */
  lemma Sensei2(uc: seq<int>)
    requires IsSensei(uc)
    ensures Spelled(uc, 0x5148, 7, 0, 27, 3, 2)
         == [0x35, 0x65] + Spelled(uc, 0x516b, 6, 0, 24, 4, 2)
  {
    SenseiStep2(uc);
    SenseiBias2();
    NextTwo(uc, 0x5148, 7, 0x516b, 5, 139, 27, 3, 2, 31, 4, Working(17, 1, 86, 24, 120), 24);
  }

  lemma SenseiBias3()
    ensures IsBias(16683, 5, false, Working(1668, 1, 285, 31, 247), 67)
  {}

  /** "180e" */
  lemma Sensei3(uc: seq<int>)
    requires IsSensei(uc)
    ensures Spelled(uc, 0x516b, 6, 0, 24, 4, 2)
         == [0x31, 0x38, 0x30, 0x65] + Spelled(uc, 0x5e74, 2, 0, 67, 5, 2)
  {
    SenseiStep3(uc);
    SenseiBias3();
    NextFour(uc, 0x516b, 6, 0x5e74, 1, 16683, 24, 4, 2, 27, 694, 34, 66, 26, 4, Working(1668, 1, 285, 31, 247), 67);
  }

  lemma SenseiBias4()
    ensures IsBias(34821, 6, false, Working(2901, 4, 16, 10, 36), 82)
  {}

  /** "575a" */
  lemma Sensei4(uc: seq<int>)
    requires IsSensei(uc)
    ensures Spelled(uc, 0x5e74, 2, 0, 67, 5, 2)
         == [0x35, 0x37, 0x35, 0x61] + Spelled(uc, 0x751f, 8, 0, 82, 6, 2)
  {
    SenseiStep4(uc);
    SenseiBias4();
    NextFour(uc, 0x5e74, 2, 0x751f, 7, 34821, 67, 5, 2, 31, 994, 33, 31, 31, 0, Working(2901, 4, 16, 10, 36), 82);
  }

  lemma SenseiBias5()
    ensures IsBias(14592, 7, false, Working(1042, 2, 238, 31, 12), 67)
  {}

  /** "65l" */
  lemma Sensei5(uc: seq<int>)
    requires IsSensei(uc)
    ensures Spelled(uc, 0x751f, 8, 0, 82, 6, 2)
         == [0x36, 0x35, 0x6c] + Spelled(uc, 0x7d44, 4, 0, 67, 7, 2)
  {
    SenseiStep5(uc);
    SenseiBias5();
    NextThree(uc, 0x751f, 8, 0x7d44, 3, 14592, 82, 6, 2, 32, 416, 31, 11, Working(1042, 2, 238, 31, 12), 67);
  }

  lemma SenseiBias6()
    ensures IsBias(42088, 8, false, Working(2630, 4, 19, 12, 0), 84)
  {}

  /** "sy2b" */
  lemma Sensei6(uc: seq<int>)
    requires IsSensei(uc)
    ensures Spelled(uc, 0x7d44, 4, 0, 67, 7, 2)
         == [0x73, 0x79, 0x32, 0x62] + Spelled(uc, 0x91d1, 5, 0, 84, 8, 2)
  {
    SenseiStep6(uc);
    SenseiBias6();
    NextFour(uc, 0x7d44, 4, 0x91d1, 4, 42088, 67, 7, 2, 18, 1202, 24, 38, 28, 1, Working(2630, 4, 19, 12, 0), 84);
  }

  /** The first digit and the letter B. */
  lemma SenseiBasic(uc: seq<Unit>)
    requires IsSensei(uc)
    ensures Below(uc, 0x80) == [0x33, 0x42]
  {
    BelowCons(uc, 0x80, 0);
    BelowCons(uc, 0x80, 1);
    BelowCons(uc, 0x80, 2);
    BelowCons(uc, 0x80, 3);
    BelowCons(uc, 0x80, 4);
    BelowCons(uc, 0x80, 5);
    BelowCons(uc, 0x80, 6);
    BelowCons(uc, 0x80, 7);
    assert uc[0..] == uc && uc[8..] == [];
  }

  lemma SenseiDigits(uc: seq<Unit>)
    requires IsSensei(uc)
    ensures AllSpelled(uc) == [0x77, 0x77, 0x34, 0x63, 0x35, 0x65, 0x31, 0x38, 0x30, 0x65]
      + [0x35, 0x37, 0x35, 0x61, 0x36, 0x35, 0x6c, 0x73, 0x79, 0x32, 0x62]
  {
    SenseiBasic(uc);
    Sensei1(uc);
    Sensei2(uc);
    Sensei3(uc);
    Sensei4(uc);
    Sensei5(uc);
    Sensei6(uc);
  }

  /** It becomes "xn--3B-ww4c5e180e575a65lsy2b". */
  lemma SenseiSample(uc: seq<Unit>)
    requires IsSensei(uc)
    ensures PunycodeOf(uc) == [0x78, 0x6e, 0x2d, 0x2d, 0x33, 0x42, 0x2d]
      + ([0x77, 0x77, 0x34, 0x63, 0x35, 0x65, 0x31, 0x38, 0x30, 0x65]
         + [0x35, 0x37, 0x35, 0x61, 0x36, 0x35, 0x6c, 0x73, 0x79, 0x32, 0x62])
    ensures !Overflows(uc)
  {
    SenseiBasic(uc);
    SenseiDigits(uc);
    ShortInputsFit(uc);
  }
}

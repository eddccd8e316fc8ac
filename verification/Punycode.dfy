/**
 * Punycode as RFC 3492 defines it: the bias adaptation of section 6.1, the decoder of
 * section 6.2 and the digit sequences both directions share. The decoder works on
 * unbounded integers, so its only failures are malformed digits.
 */
module Punycode {
  import opened Units
  import opened Arithmetic

  const BASE := 36
  const TMIN := 1
  const TMAX := 26
  const SKEW := 38
  const DAMP := 700
  const INITIAL_BIAS := 72
  const INITIAL_N := 128
  const DELIMITER: Byte := 0x2d

  // ---------- Bias adaptation ----------

  function Adapt(delta: nat, numPoints: nat, firstTime: bool): nat
    requires numPoints > 0
  {
    var d := delta / (if firstTime then DAMP else 2);
    Damped(d + d / numPoints, 0)
  }

  function Damped(delta: nat, k: nat): nat {
    if delta > (BASE - TMIN) * TMAX / 2 then Damped(delta / (BASE - TMIN), k + BASE)
    else k + Ratio(delta)
  }

  function Ratio(delta: nat): nat {
    (BASE - TMIN + 1) * delta / (delta + SKEW)
  }

  /** The least power of 35 that brings `d` down to 455. */
  ghost predicate IsLeastShift(d: nat, j: nat) {
    Quotient(d, j) <= 455 && forall i :: 0 <= i < j ==> Quotient(d, i) > 455
  }

  /** 36 for every power, and a fraction of 36 for what is left. */
  function BiasAt(d: nat, j: nat): nat {
    36 * j + 36 * Quotient(d, j) / (Quotient(d, j) + 38)
  }

  function Quotient(d: nat, j: nat): nat {
    PowerIsPositive(35, j);
    d / Power(35, j)
  }

  lemma QuotientNext(d: nat, j: nat)
    ensures Quotient(d, 0) == d && Quotient(d, j + 1) == Quotient(d / 35, j)
  {
    PowerIsPositive(35, j);
    DivTwice(d, 35, Power(35, j));
  }

  lemma {:induction false} DampedExactly(d: nat, k: nat) returns (j: nat)
    ensures IsLeastShift(d, j)
    ensures Damped(d, k) == k + BiasAt(d, j)
  {
    QuotientNext(d, 0);
    if d <= 455 {
      j := 0;
    } else {
      j := DampedExactly(d / 35, k + 36);
      ShiftNext(d, j);
      j := j + 1;
    }
  }

  lemma ShiftNext(d: nat, j: nat)
    requires d > 455 && IsLeastShift(d / 35, j)
    ensures IsLeastShift(d, j + 1) && Quotient(d, j + 1) == Quotient(d / 35, j)
  {
    forall i | 0 <= i < j + 1
      ensures Quotient(d, i) > 455
    {
      QuotientNext(d, if i > 0 then i - 1 else 0);
    }
    QuotientNext(d, j);
  }

  /** The first delta is divided by 700, every other one by 2; then it is enlarged for the longer text. */
  function Scaled(delta: nat, numPoints: nat, firstTime: bool): nat
    requires numPoints > 0
  {
    var half: nat := if firstTime then delta / 700 else delta / 2;
    QuotientAtMost(half, numPoints);
    half + half / numPoints
  }

  /** What section 6.1 of RFC 3492 computes, without its loop. */
  lemma AdaptExactly(delta: nat, numPoints: nat, firstTime: bool)
    requires numPoints > 0
    ensures var d := Scaled(delta, numPoints, firstTime);
      exists j: nat :: IsLeastShift(d, j) && Adapt(delta, numPoints, firstTime) == BiasAt(d, j)
  {
    var d := Scaled(delta, numPoints, firstTime);
    var j := DampedExactly(d, 0);
    assert IsLeastShift(d, j) && Adapt(delta, numPoints, firstTime) == BiasAt(d, j);
  }

  /** There is only one such power. */
  lemma LeastShiftIsUnique(d: nat, i: nat, j: nat)
    requires IsLeastShift(d, i) && IsLeastShift(d, j)
    ensures i == j
  {}

  // ---------- Digits ----------

  /** The threshold is the distance from the bias, within 1 and 26. */
  lemma ThresholdExactly(k: nat, bias: nat)
    ensures Threshold(k, bias) == if k - bias < 1 then 1 else if k - bias > 26 then 26 else k - bias
  {}

  function Threshold(k: nat, bias: nat): (t: nat)
    ensures TMIN <= t <= TMAX
  {
    if k <= bias then TMIN else if k >= bias + TMAX then TMAX else k - bias
  }

  /** The digits 0..35 are a..z and 0..9. */
  function EncodeDigit(digit: nat): (c: Byte)
    requires digit < BASE
    ensures c != DELIMITER && DigitValue(c) == Some(digit) && IsLower(c)
  {
    digit + 22 + 75 * (if digit < 26 then 1 else 0)
  }

  /** One of a..z and 0..9, in ASCII. */
  predicate IsLower(c: Byte) {
    0x61 <= c <= 0x7a || 0x30 <= c <= 0x39
  }

  function DigitValue(c: Byte): Option<nat> {
    if 0x61 <= c <= 0x7a then Some(c - 0x61)
    else if 0x41 <= c <= 0x5a then Some(c - 0x41)
    else if 0x30 <= c <= 0x39 then Some(c - 0x30 + 26)
    else None
  }

  /** The digit written at a position with threshold `t` while `q` is not below it. */
  function LowDigit(q: nat, t: nat): (d: nat)
    requires TMIN <= t <= TMAX && t <= q
    ensures t <= d < BASE
  {
    t + (q - t) % (BASE - t)
  }

  /** What is left to write after that digit. */
  function HighDigits(q: nat, t: nat): (q': nat)
    requires TMIN <= t <= TMAX && t <= q
    ensures 10 * q' < q
  {
    DivMod(q - t, BASE - t);
    MulMonotone((q - t) / (BASE - t), 10, BASE - t);
    (q - t) / (BASE - t)
  }

  /** The variable-length digit sequence of `q`, from position `k` on. */
  function EncodeInt(q: nat, bias: nat, k: nat): (digits: seq<Byte>)
    ensures digits != [] && DELIMITER !in digits
    decreases q
  {
    var t := Threshold(k, bias);
    if q < t then [EncodeDigit(q)]
    else [EncodeDigit(LowDigit(q, t))] + EncodeInt(HighDigits(q, t), bias, k + BASE)
  }

  predicate AllLower(digits: seq<Byte>) {
    forall i :: 0 <= i < |digits| ==> IsLower(digits[i])
  }

  lemma {:induction false} DigitsAreLower(q: nat, bias: nat, k: nat)
    ensures AllLower(EncodeInt(q, bias, k))
    decreases q
  {
    var t := Threshold(k, bias);
    if q >= t {
      DigitsAreLower(HighDigits(q, t), bias, k + BASE);
    }
  }

  /** A decoded integer and how many digits it took. */
  datatype Decoded = Decoded(value: nat, digits: nat)

  /** Reads one integer: digits count `w`, the weight of position `k`, until one is below its threshold. */
  function DecodeInt(input: seq<Byte>, bias: nat, k: nat, w: nat): (r: Option<Decoded>)
    ensures r.Some? ==> 0 < r.value.digits <= |input|
  {
    if input == [] then None
    else
      match DigitValue(input[0])
      case None => None
      case Some(d) =>
        var t := Threshold(k, bias);
        if d < t then Some(Decoded(d * w, 1))
        else
          match DecodeInt(input[1..], bias, k + BASE, w * (BASE - t))
          case None => None
          case Some(rest) => Some(Decoded(d * w + rest.value, rest.digits + 1))
  }

  /** Every digit but the last reaches its threshold and the last does not. */
  ghost predicate StopsAtLast(digits: seq<Byte>, bias: nat, k: nat) {
    && digits != []
    && DigitValue(digits[0]).Some?
    && (if |digits| == 1 then DigitValue(digits[0]).value < Threshold(k, bias)
        else DigitValue(digits[0]).value >= Threshold(k, bias) && StopsAtLast(digits[1..], bias, k + BASE))
  }

  lemma {:induction false} EncodeIntStopsAtLast(q: nat, bias: nat, k: nat)
    ensures StopsAtLast(EncodeInt(q, bias, k), bias, k)
    decreases q
  {
    var t := Threshold(k, bias);
    if q >= t {
      var rest := EncodeInt(HighDigits(q, t), bias, k + BASE);
      EncodeIntStopsAtLast(HighDigits(q, t), bias, k + BASE);
      assert EncodeInt(q, bias, k)[1..] == rest && |rest| > 0;
    }
  }

  /** Unique decodability: the digits of `q` are read back as `q`, whatever follows them. */
  lemma {:induction false} DecodeEncodedInt(q: nat, bias: nat, k: nat, w: nat, rest: seq<Byte>)
    ensures DecodeInt(EncodeInt(q, bias, k) + rest, bias, k, w)
         == Some(Decoded(q * w, |EncodeInt(q, bias, k)|))
    decreases q
  {
    var t := Threshold(k, bias);
    if q < t {
      OneDigitRead(q, bias, k, w, rest);
    } else {
      DecodeEncodedInt(HighDigits(q, t), bias, k + BASE, w * (BASE - t), rest);
      DigitIsRead(LowDigit(q, t), EncodeInt(HighDigits(q, t), bias, k + BASE), bias, k, w, rest);
      DigitSum(q, t, w);
    }
  }

  lemma OneDigitRead(d: nat, bias: nat, k: nat, w: nat, rest: seq<Byte>)
    requires d < Threshold(k, bias)
    ensures DecodeInt([EncodeDigit(d)] + rest, bias, k, w) == Some(Decoded(d * w, 1))
  {}

  /** A digit that does not end the integer, and the digits behind it. */
  lemma DigitIsRead(d: nat, more: seq<Byte>, bias: nat, k: nat, w: nat, rest: seq<Byte>)
    requires Threshold(k, bias) <= d < BASE
    requires DecodeInt(more + rest, bias, k + BASE, w * (BASE - Threshold(k, bias))).Some?
    ensures var r := DecodeInt(more + rest, bias, k + BASE, w * (BASE - Threshold(k, bias))).value;
      DecodeInt(([EncodeDigit(d)] + more) + rest, bias, k, w) == Some(Decoded(d * w + r.value, r.digits + 1))
  {
    var input := ([EncodeDigit(d)] + more) + rest;
    assert input[0] == EncodeDigit(d) && input[1..] == more + rest;
  }

  lemma DigitSum(q: nat, t: nat, w: nat)
    requires TMIN <= t <= TMAX && t <= q
    ensures LowDigit(q, t) * w + HighDigits(q, t) * (w * (BASE - t)) == q * w
  {
    var d, q' := LowDigit(q, t), HighDigits(q, t);
    DivMod(q - t, BASE - t);
    assert q == d + q' * (BASE - t);
    Distribute(d, q', w, BASE - t);
  }

  lemma Distribute(d: int, q: int, w: int, b: int)
    ensures d * w + q * (w * b) == (d + q * b) * w
  {
    assert q * (w * b) == q * b * w;
  }

  // ---------- The decoder ----------

  /** The decoder's variables between two insertions. */
  datatype Decoder = Decoder(n: nat, i: nat, bias: nat, out: seq<int>)

  /** One insertion: `v` steps through the (code point, position) space, then insert. */
  function Insert(st: Decoder, v: nat): Decoder {
    var points := |st.out| + 1;
    var i := st.i + v;
    var n := st.n + i / points;
    Decoder(n, i % points + 1, Adapt(v, points, st.i == 0), st.out[..i % points] + [n] + st.out[i % points..])
  }

  function DecodeRun(input: seq<Byte>, st: Decoder): Option<Decoder>
    decreases |input|
  {
    if input == [] then Some(st)
    else
      match DecodeInt(input, st.bias, BASE, 1)
      case None => None
      case Some(v) => DecodeRun(input[v.digits..], Insert(st, v.value))
  }

  /** The index of the last delimiter. */
  function LastDelimiter(s: seq<Byte>): (p: Option<nat>)
    ensures p.Some? ==> p.value < |s|
  {
    if s == [] then None
    else if s[|s| - 1] == DELIMITER then Some(|s| - 1)
    else LastDelimiter(s[..|s| - 1])
  }

  /** Everything before the last delimiter is literal; the delimiter is consumed if anything was. */
  function Decode(s: seq<Byte>): Option<seq<int>> {
    var b := match LastDelimiter(s) case None => 0 case Some(p) => p;
    if exists i :: 0 <= i < b && s[i] >= INITIAL_N then None
    else
      match DecodeRun(if b > 0 then s[b + 1..] else s, Decoder(INITIAL_N, 0, INITIAL_BIAS, s[..b]))
      case None => None
      case Some(st) => Some(st.out)
  }

  lemma {:induction false} DecodeIntIgnoresRest(input: seq<Byte>, bias: nat, k: nat, w: nat, rest: seq<Byte>)
    requires DecodeInt(input, bias, k, w).Some?
    ensures DecodeInt(input + rest, bias, k, w) == DecodeInt(input, bias, k, w)
  {
    assert (input + rest)[1..] == input[1..] + rest;
    if DigitValue(input[0]).value >= Threshold(k, bias) {
      DecodeIntIgnoresRest(input[1..], bias, k + BASE, w * (BASE - Threshold(k, bias)), rest);
    }
  }

  /** A decoder run can be cut between two integers. */
  lemma {:induction false} DecodeRunAppend(input: seq<Byte>, rest: seq<Byte>, st: Decoder)
    requires DecodeRun(input, st).Some?
    ensures DecodeRun(input + rest, st) == DecodeRun(rest, DecodeRun(input, st).value)
    decreases |input|
  {
    if input == [] {
      assert input + rest == rest;
    } else {
      DecodeIntIgnoresRest(input, st.bias, BASE, 1, rest);
      var v := DecodeInt(input, st.bias, BASE, 1).value;
      assert (input + rest)[v.digits..] == input[v.digits..] + rest;
      DecodeRunAppend(input[v.digits..], rest, Insert(st, v.value));
    }
  }

  /** One more encoded integer is one more insertion. */
  lemma DecodeRunSnoc(input: seq<Byte>, st0: Decoder, st: Decoder, v: nat)
    requires DecodeRun(input, st0) == Some(st)
    ensures DecodeRun(input + EncodeInt(v, st.bias, BASE), st0) == Some(Insert(st, v))
  {
    var digits := EncodeInt(v, st.bias, BASE);
    DecodeRunAppend(input, digits, st0);
    DecodeEncodedInt(v, st.bias, BASE, 1, []);
    assert digits + [] == digits;
    assert digits[|digits|..] == [];
  }

  lemma {:induction false} LastDelimiterBefore(head: seq<Byte>, digits: seq<Byte>)
    requires DELIMITER !in digits
    ensures LastDelimiter(head + digits) == LastDelimiter(head)
    decreases |digits|
  {
    if digits == [] {
      assert head + digits == head;
    } else {
      var s := head + digits;
      assert s[..|s| - 1] == head + digits[..|digits| - 1];
      LastDelimiterBefore(head, digits[..|digits| - 1]);
    }
  }

  /** Literals, a delimiter if there are any, and digits that a run accepts: decoded to that run's output. */
  lemma DecodeParts(basic: seq<Byte>, digits: seq<Byte>)
    requires forall c :: c in basic ==> c < INITIAL_N
    requires DELIMITER !in digits
    ensures Decode((if basic == [] then [] else basic + [DELIMITER]) + digits)
         == match DecodeRun(digits, Decoder(INITIAL_N, 0, INITIAL_BIAS, basic))
            case None => None
            case Some(st) => Some(st.out)
  {
    var head := if basic == [] then [] else basic + [DELIMITER];
    var s := head + digits;
    LastDelimiterBefore(head, digits);
    if basic == [] {
      assert s == digits && s[..0] == basic;
    } else {
      assert LastDelimiter(s) == Some(|basic|);
      assert s[|basic| + 1..] == digits && s[..|basic|] == basic;
      assert forall i :: 0 <= i < |basic| ==> s[i] == basic[i] && basic[i] in basic;
    }
  }
}

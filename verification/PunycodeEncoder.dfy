/**
 * The encoder of qurl.cpp. It sweeps the code points upwards while `delta` counts how far the
 * decoder has to step; the loop invariants tie its variables to those of the decoder.
 */
module PunycodeEncoder {
  import opened Units
  import opened Arithmetic
  import opened Punycode
  import opened PunycodeSpelling
  import opened Utf16Text

  // ---------- Distances ----------

  /** The decoder, after `delta` more steps, stands at code point `n`, position `pos`. */
  predicate Reaches(st: Decoder, delta: int, n: int, pos: int) {
    st.n <= n && st.i + delta == (n - st.n) * (|st.out| + 1) + pos
  }

  lemma ReachesNext(st: Decoder, delta: int, n: int, m: int)
    requires Reaches(st, delta, n, 0) && n <= m
    ensures Reaches(st, delta + (m - n) * (|st.out| + 1), m, 0)
  {
    var points := |st.out| + 1;
    assert (n - st.n) * points + (m - n) * points == (m - st.n) * points;
  }

  lemma ReachesWrap(st: Decoder, delta: int, n: int)
    requires Reaches(st, delta, n, |st.out|)
    ensures Reaches(st, delta + 1, n + 1, 0)
  {
    var points := |st.out| + 1;
    assert (n + 1 - st.n) * points == (n - st.n) * points + points;
  }

  lemma InsertWhereReached(st: Decoder, delta: nat, n: nat, pos: nat)
    requires Reaches(st, delta, n, pos) && pos <= |st.out|
    ensures Insert(st, delta)
         == Decoder(n, pos + 1, Adapt(delta, |st.out| + 1, st.i == 0), st.out[..pos] + [n] + st.out[pos..])
  {
    DivModUnique(st.i + delta, |st.out| + 1, n - st.n, pos);
  }

  // ---------- When the encoder gives up ----------

  /** The largest non-basic unit below `m`, or 127. */
  function Previous(uc: seq<int>, m: int): (p: int)
    ensures p == INITIAL_N - 1 || (INITIAL_N <= p < m && p in uc)
    ensures forall u :: u in uc && INITIAL_N <= u < m ==> u <= p
  {
    if uc == [] then INITIAL_N - 1
    else
      var p, u := Previous(uc[..|uc| - 1], m), uc[|uc| - 1];
      assert forall v :: v in uc <==> v in uc[..|uc| - 1] || v == u;
      if p < u < m then u else p
  }

  /** How many units below `x` follow the last `x`. */
  function AfterLast(s: seq<int>, x: int): (d: nat)
    ensures d <= |s|
    ensures x in s ==> d < |s|
  {
    if s == [] || s[|s| - 1] == x then 0
    else AfterLast(s[..|s| - 1], x) + (if s[|s| - 1] < x then 1 else 0)
  }

  /** `delta` when the sweep reaches `n`. */
  function HeadDelta(uc: seq<int>, n: int): (d: nat)
    ensures d <= |uc| + 1
  {
    if n == INITIAL_N then 0 else AfterLast(uc, n - 1) + 1
  }

  /** `delta` once the sweep has moved on to the value `m`. */
  function PassDelta(uc: seq<int>, m: int): int {
    var n := Previous(uc, m) + 1;
    HeadDelta(uc, n) + (m - n) * (|Below(uc, m)| + 1)
  }

  /** Some value is too far from its predecessor for the 31 bits that the encoder allows itself. */
  ghost predicate Overflows(uc: seq<int>) {
    exists i :: 0 <= i < |uc| && INITIAL_N <= uc[i] && PassDelta(uc, uc[i]) > MAX_INT
  }

  ghost predicate FitBelow(uc: seq<Unit>, n: int) {
    forall i :: 0 <= i < |uc| && INITIAL_N <= uc[i] < n ==> PassDelta(uc, uc[i]) <= MAX_INT
  }

  /** No label that fits 32766 units overflows. */
  lemma ShortInputsFit(uc: seq<Unit>)
    requires |uc| <= 32766
    ensures forall i :: 0 <= i < |uc| && INITIAL_N <= uc[i] ==>
      PassDelta(uc, uc[i]) <= 0x1_0000 * (|uc| + 1) < 0x8000_0000
    ensures !Overflows(uc)
  {
    forall i | 0 <= i < |uc| && INITIAL_N <= uc[i]
      ensures PassDelta(uc, uc[i]) <= 0x1_0000 * (|uc| + 1)
    {
      var m := uc[i];
      var n, h := Previous(uc, m) + 1, |Below(uc, m)|;
      assert 0 <= m - n <= 0xffff - 128;
      MulMonotone(h + 1, m - n, 0xffff - 128);
      assert PassDelta(uc, m) == HeadDelta(uc, n) + (h + 1) * (m - n);
    }
  }

  // ---------- The encoder ----------

  /** "xn--" */
  const ACE_PREFIX: seq<Byte> := [0x78, 0x6e, 0x2d, 0x2d]

  /** Bias adaptation. No step leaves the range of a 32-bit unsigned integer. */
  method AdaptBias(delta: Uint32, numPoints: Uint32, firstTime: bool) returns (bias: Uint32)
    requires 0 < numPoints && delta < 0xffff_ffff
    ensures bias == Adapt(delta, numPoints, firstTime)
    ensures bias <= MAX_INT
  {
    var d: Uint32 := delta / (if firstTime then DAMP else 2);
    QuotientAtMost(d, numPoints);
    d := d + d / numPoints;
    ghost var start := d;
    assert Adapt(delta, numPoints, firstTime) == Damped(start, 0);
    var k: Uint32 := 0;
    while d > ((BASE - TMIN) * TMAX) / 2
      invariant Damped(start, 0) == Damped(d, k)
      invariant (k == 0 && d == start) || k + d <= 0x1000_0000
    {
      d := d / (BASE - TMIN);
      k := k + BASE;
    }
    RatioAtMost(d);
    return k + Ratio(d);
  }

  lemma RatioAtMost(d: nat)
    ensures Ratio(d) <= 36
  {
    var q := Ratio(d);
    DivMod(36 * d, d + SKEW);
    if q > 36 {
      MulGap(36, q, d + SKEW);
    }
  }

  /** Bounds `k` while `qq` is still to be written: it never nears the end of the 32-bit range. */
  ghost predicate PositionFits(k: int, qq: nat) {
    k + qq + (if qq == 0 then 0 else if qq < 4 then 40 else 80) <= 0x4000_0000
  }

  lemma NextPositionFits(k: int, qq: nat, t: nat)
    requires TMIN <= t <= TMAX && t <= qq < 0xffff_ffff && (k == BASE || PositionFits(k, qq))
    ensures PositionFits(k + BASE, HighDigits(qq, t))
  {}

  lemma AppendOneDigit(output: seq<Byte>, q: nat, bias: nat, k: nat)
    requires Threshold(k, bias) <= q
    ensures var t := Threshold(k, bias);
      (output + [EncodeDigit(LowDigit(q, t))]) + EncodeInt(HighDigits(q, t), bias, k + BASE)
      == output + EncodeInt(q, bias, k)
  {}

  /** Appends the digits of `delta`. */
  method AppendDigits(output: seq<Byte>, delta: Uint32, bias: Uint32) returns (output': seq<Byte>)
    requires delta < 0xffff_ffff && bias <= MAX_INT
    ensures output' == output + EncodeInt(delta, bias, BASE)
  {
    output' := output;
    var qq: Uint32, k: Uint32 := delta, BASE;
    while true
      invariant output' + EncodeInt(qq, bias, k) == output + EncodeInt(delta, bias, BASE)
      invariant qq < 0xffff_ffff && (k == BASE || PositionFits(k, qq))
      decreases qq
    {
      var t: Uint32 := if k <= bias then TMIN else if k >= bias + TMAX then TMAX else k - bias;
      if qq < t {
        return output' + [EncodeDigit(qq)];
      }
      NextPositionFits(k, qq, t);
      AppendOneDigit(output', qq, bias, k);
      output' := output' + [EncodeDigit(LowDigit(qq, t))];
      qq := HighDigits(qq, t);
      k := k + BASE;
    }
  }

  /** Appends `delta` and adapts the bias; the source's reference parameters become results. */
  method AppendEncode(output: seq<Byte>, delta: Uint32, bias: Uint32, b: Uint32, h: Uint32)
      returns (output': seq<Byte>, delta': Uint32, bias': Uint32, h': Uint32)
    requires delta < 0xffff_ffff && bias <= MAX_INT && h < MAX_INT
    ensures output' == output + EncodeInt(delta, bias, BASE)
    ensures delta' == 0 && bias' == Adapt(delta, h + 1, h == b) && h' == h + 1
    ensures bias' <= MAX_INT
  {
    output' := AppendDigits(output, delta, bias);
    bias' := AdaptBias(delta, h + 1, h == b);
    delta' := 0;
    h' := h + 1;
  }

  // ---------- The sweep ----------

  /** The encoder's variables at code point `n`, input index `j`, against a decoder that has read `digits`. */
  ghost predicate InStep(uc: seq<Unit>, n: int, j: nat, st: Decoder, digits: seq<Byte>,
                         delta: int, bias: int, h: int, b: int)
    requires j <= |uc|
  {
    Follows(uc, n, j, st, digits, delta, bias, h, b) && OnCourse(uc, digits, n, j, delta, bias, h, b)
  }

  /** That decoder holds what the sweep has passed, and `delta` leads it to where the sweep stands. */
  ghost predicate Follows(uc: seq<Unit>, n: int, j: nat, st: Decoder, digits: seq<Byte>,
                          delta: int, bias: int, h: int, b: int)
    requires j <= |uc|
  {
    && DELIMITER !in digits
    && DecodeRun(digits, Decoder(INITIAL_N, 0, INITIAL_BIAS, Below(uc, INITIAL_N))) == Some(st)
    && st.bias == bias
    && st.out == Held(uc, n, j)
    && h == |st.out|
    && (h == b <==> st.i == 0)
    && Reaches(st, delta, n, |Below(uc[..j], n + 1)|)
  }

  lemma InStepSkip(uc: seq<Unit>, n: int, j: nat, st: Decoder, digits: seq<Byte>,
                   delta: int, bias: int, h: int, b: int)
    requires j < |uc| && uc[j] != n && InStep(uc, n, j, st, digits, delta, bias, h, b)
    ensures InStep(uc, n, j + 1, st, digits, delta + (if uc[j] < n then 1 else 0), bias, h, b)
  {
    HeldKeep(uc, n, j);
  }

  lemma InStepEmit(uc: seq<Unit>, n: nat, j: nat, st: Decoder, digits: seq<Byte>,
                   delta: nat, bias: int, h: int, b: int)
    requires j < |uc| && uc[j] == n && InStep(uc, n, j, st, digits, delta, bias, h, b) && b <= h
    ensures InStep(uc, n, j + 1, Insert(st, delta), digits + EncodeInt(delta, bias, BASE),
                   0, Adapt(delta, h + 1, h == b), h + 1, b)
  {
    HeldLength(uc, n, j);
    CourseEmits(uc, digits, n, j, delta, bias, h, b);
    FollowsEmitted(uc, n, j, st, digits, delta, bias, h, b);
  }

  lemma FollowsEmitted(uc: seq<Unit>, n: nat, j: nat, st: Decoder, digits: seq<Byte>,
                       delta: nat, bias: int, h: int, b: int)
    requires j < |uc| && uc[j] == n && Follows(uc, n, j, st, digits, delta, bias, h, b) && b <= h
    ensures Follows(uc, n, j + 1, Insert(st, delta), digits + EncodeInt(delta, bias, BASE),
                    0, Adapt(delta, h + 1, h == b), h + 1, b)
  {
    var pos := |Below(uc[..j], n + 1)|;
    HeldInsert(uc, n, j);
    InsertWhereReached(st, delta, n, pos);
    DecodeRunSnoc(digits, Decoder(INITIAL_N, 0, INITIAL_BIAS, Below(uc, INITIAL_N)), st, delta);
    assert st.out[..pos] == Below(uc[..j], n + 1) && st.out[pos..] == Below(uc[j..], n);
    assert Insert(st, delta).out == Held(uc, n, j + 1);
    ReachedHere(Insert(st, delta), n, pos + 1);
  }

  lemma ReachedHere(st: Decoder, n: int, pos: int)
    requires st.n == n && st.i == pos
    ensures Reaches(st, 0, n, pos)
  {}

  /** Moving the sweep from one head to the next value that occurs. */
  lemma InStepRaise(uc: seq<Unit>, n: int, m: int, st: Decoder, digits: seq<Byte>,
                    delta: int, delta': int, bias: int, h: int, b: int)
    requires InStep(uc, n, 0, st, digits, delta, bias, h, b)
    requires n <= m && forall i :: 0 <= i < |uc| ==> uc[i] < n || m <= uc[i]
    requires delta' == delta + (m - n) * (h + 1)
    ensures InStep(uc, m, 0, st, digits, delta', bias, h, b)
  {
    BelowSkips(uc, n, m);
    assert uc[0..] == uc && uc[..0] == [];
    MulAtLeast(m - n, h + 1);
    SpelledSkips(uc, n, m, delta, bias, h, b, (m - n) * (h + 1));
    ReachesNext(st, delta, n, m);
  }

  /** A finished pass is the head of the next one. */
  lemma InStepWrap(uc: seq<Unit>, n: int, st: Decoder, digits: seq<Byte>,
                   delta: int, bias: int, h: int, b: int)
    requires InStep(uc, n, |uc|, st, digits, delta, bias, h, b) && n in uc
    ensures InStep(uc, n + 1, 0, st, digits, delta + 1, bias, h, b)
    ensures |Below(uc, n)| < h == |Below(uc, n + 1)|
  {
    assert uc[..|uc|] == uc && uc[|uc|..] == [] && uc[0..] == uc && uc[..0] == [];
    BelowGrows(uc, n);
    ReachesWrap(st, delta, n);
  }

  /** The least unit not below `n`. */
  method LeastFrom(uc: seq<Unit>, n: int) returns (m: Uint32)
    requires exists i :: 0 <= i < |uc| && n <= uc[i]
    ensures m in uc && n <= m
    ensures forall i :: 0 <= i < |uc| ==> uc[i] < n || m <= uc[i]
  {
    m := MAX_INT;
    for j := 0 to |uc|
      invariant m == MAX_INT || (m in uc && n <= m)
      invariant forall i :: 0 <= i < j && n <= uc[i] ==> m <= uc[i]
    {
      if uc[j] >= n && uc[j] < m {
        m := uc[j];
      }
    }
  }

  /** What `delta` has become at index `j` of a pass for `n` that began with `start`. */
  ghost predicate DeltaAt(uc: seq<Unit>, n: int, j: nat, start: int, delta: int)
    requires j <= |uc|
  {
    if n in uc[..j] then delta == AfterLast(uc[..j], n)
    else delta == start + |Below(uc[..j], n)|
  }

  lemma DeltaStep(uc: seq<Unit>, n: int, j: nat, start: int, delta: int)
    requires j < |uc| && DeltaAt(uc, n, j, start, delta)
    ensures DeltaAt(uc, n, j + 1, start, if uc[j] == n then 0 else if uc[j] < n then delta + 1 else delta)
  {
    assert uc[..j + 1][..j] == uc[..j];
    assert uc[..j + 1] == uc[..j] + [uc[j]];
  }

  /** At the head of a pass, the sweep's distance is the one the overflow condition speaks of. */
  lemma PassDeltaAtHead(uc: seq<Unit>, n: int, m: int)
    requires n == INITIAL_N || (INITIAL_N < n && n - 1 in uc)
    requires n <= m && forall i :: 0 <= i < |uc| ==> uc[i] < n || m <= uc[i]
    ensures PassDelta(uc, m) == HeadDelta(uc, n) + (m - n) * (|Below(uc, n)| + 1)
  {
    BelowSkips(uc, n, m);
    PreviousAtHead(uc, n, m);
  }

  lemma PreviousAtHead(uc: seq<Unit>, n: int, m: int)
    requires n == INITIAL_N || (INITIAL_N < n && n - 1 in uc)
    requires n <= m && forall i :: 0 <= i < |uc| ==> uc[i] < n || m <= uc[i]
    ensures Previous(uc, m) == n - 1
  {
    var p := Previous(uc, m);
    if p != INITIAL_N - 1 {
      assert p in uc && p < m;
    }
  }

  /** The overflow test of the source, and the distance to the next value when it passes. */
  method Advance(uc: seq<Unit>, n: Uint32, m: Uint32, delta: Uint32, h: Uint32) returns (ok: bool, delta': Uint32)
    requires n == INITIAL_N || (INITIAL_N < n && n - 1 in uc)
    requires n <= m && forall i :: 0 <= i < |uc| ==> uc[i] < n || m <= uc[i]
    requires h == |Below(uc, n)| < MAX_INT && delta == HeadDelta(uc, n) <= MAX_INT
    ensures ok <==> PassDelta(uc, m) <= MAX_INT
    ensures ok ==> delta' == delta + (m - n) * (h + 1) <= MAX_INT
  {
    PassDeltaAtHead(uc, n, m);
    ProductExceeds(m - n, h + 1, MAX_INT - delta);
    delta' := delta;
    ok := !(m - n > (MAX_INT - delta) / (h + 1));
    if ok {
      var product: Uint32 := (m - n) * (h + 1);
      delta' := delta + product;
    }
  }

  /** What one pass does at index `j`: count the unit, emit an integer for it, or pass over it. */
  method Visit(uc: seq<Unit>, j: nat, output: seq<Byte>, n: Uint32, delta: Uint32, bias: Uint32, b: Uint32, h: Uint32,
               ghost head: seq<Byte>, ghost digits: seq<Byte>, ghost st: Decoder)
      returns (output': seq<Byte>, delta': Uint32, bias': Uint32, h': Uint32,
               ghost digits': seq<Byte>, ghost st': Decoder)
    requires j < |uc| <= MAX_INT && delta <= MAX_INT + j && bias <= MAX_INT && b <= h
    requires InStep(uc, n, j, st, digits, delta, bias, h, b) && output == head + digits
    ensures InStep(uc, n, j + 1, st', digits', delta', bias', h', b)
    ensures delta' == if uc[j] == n then 0 else if uc[j] < n then delta + 1 else delta
    ensures bias' <= MAX_INT && b <= h'
    ensures output' == head + digits'
  {
    output', delta', bias', h' := output, delta, bias, h;
    digits', st' := digits, st;
    if uc[j] == n {
      InStepEmit(uc, n, j, st, digits, delta, bias, h, b);
      HeldLength(uc, n, j);
      st', digits' := Insert(st, delta), digits + EncodeInt(delta, bias, BASE);
      Regroup(head, digits, EncodeInt(delta, bias, BASE));
      output', delta', bias', h' := AppendEncode(output, delta, bias, b, h);
    } else {
      InStepSkip(uc, n, j, st, digits, delta, bias, h, b);
      if uc[j] < n {
        // The source tests here for wrap-around to zero; it cannot happen.
        assert delta + 1 < 0x1_0000_0000;
        delta' := delta + 1;
      }
    }
  }

  /** One pass over the input for the code point `n`: one integer for every unit equal to it. */
  method Pass(uc: seq<Unit>, output: seq<Byte>, n: Uint32, delta: Uint32, bias: Uint32, b: Uint32, h: Uint32,
              ghost head: seq<Byte>, ghost digits: seq<Byte>, ghost st: Decoder)
      returns (output': seq<Byte>, delta': Uint32, bias': Uint32, h': Uint32,
               ghost digits': seq<Byte>, ghost st': Decoder)
    requires |uc| <= MAX_INT && n in uc && delta <= MAX_INT && bias <= MAX_INT && b <= h
    requires InStep(uc, n, 0, st, digits, delta, bias, h, b) && output == head + digits
    ensures InStep(uc, n, |uc|, st', digits', delta', bias', h', b) && output' == head + digits'
    ensures delta' == AfterLast(uc, n) && bias' <= MAX_INT && b <= h'
  {
    output', delta', bias', h' := output, delta, bias, h;
    digits', st' := digits, st;
    for j := 0 to |uc|
      invariant InStep(uc, n, j, st', digits', delta', bias', h', b)
      invariant DeltaAt(uc, n, j, delta, delta') && delta' <= MAX_INT + j
      invariant bias' <= MAX_INT && b <= h'
      invariant output' == head + digits'
    {
      DeltaStep(uc, n, j, delta, delta');
      output', delta', bias', h', digits', st' := Visit(uc, j, output', n, delta', bias', b, h', head, digits', st');
    }
    PassEnds(uc, n, delta, delta');
  }

  lemma PassEnds(uc: seq<Unit>, n: int, start: int, delta: int)
    requires n in uc && DeltaAt(uc, n, |uc|, start, delta)
    ensures delta == AfterLast(uc, n)
  {
    assert uc[..|uc|] == uc;
  }

  lemma HeldLength(uc: seq<int>, n: int, j: nat)
    requires j < |uc| && uc[j] == n
    ensures |Held(uc, n, j)| < |uc|
  {
    HeldInsert(uc, n, j);
  }

  lemma Assembled(uc: seq<Unit>, basic: seq<Byte>, head: seq<Byte>, digits: seq<Byte>, st: Decoder)
    requires basic == Below(uc, INITIAL_N) && head == if basic == [] then [] else basic + [DELIMITER]
    requires DELIMITER !in digits && DecodeRun(digits, Decoder(INITIAL_N, 0, INITIAL_BIAS, basic)) == Some(st)
    requires st.out == uc
    ensures (ACE_PREFIX + (head + digits))[..4] == ACE_PREFIX
    ensures Decode((ACE_PREFIX + (head + digits))[4..]) == Some(uc)
  {
    DecodeParts(basic, digits);
    assert (ACE_PREFIX + (head + digits))[4..] == head + digits;
  }

  lemma FitUpTo(uc: seq<Unit>, n: int, m: int)
    requires FitBelow(uc, n) && PassDelta(uc, m) <= MAX_INT
    requires forall i :: 0 <= i < |uc| ==> uc[i] < n || m <= uc[i]
    ensures FitBelow(uc, m + 1)
  {
    forall i | 0 <= i < |uc| && INITIAL_N <= uc[i] < m + 1
      ensures PassDelta(uc, uc[i]) <= MAX_INT
    {
      assert uc[i] < n || uc[i] == m;
    }
  }

  /** What holds at every head of the outer loop. */
  ghost predicate AtHead(uc: seq<Unit>, n: int, st: Decoder, digits: seq<Byte>, delta: int, bias: int, h: int, b: int) {
    && (n == INITIAL_N || (INITIAL_N < n && n - 1 in uc))
    && 0 <= b <= h == |Below(uc, n)|
    && InStep(uc, n, 0, st, digits, delta, bias, h, b)
    && bias <= MAX_INT
    && delta == HeadDelta(uc, n) <= |uc|
    && FitBelow(uc, n)
  }

  lemma SweepStart(uc: seq<Unit>, b: int)
    requires b == |Below(uc, INITIAL_N)|
    ensures AtHead(uc, INITIAL_N, Decoder(INITIAL_N, 0, INITIAL_BIAS, Below(uc, INITIAL_N)), [], 0, INITIAL_BIAS, b, b)
  {
    assert uc[0..] == uc && uc[..0] == [];
    assert [] + AllSpelled(uc) == AllSpelled(uc);
  }

  /** The sweep is over when every unit lies below `n`. */
  lemma SweepDone(uc: seq<Unit>, n: int, st: Decoder, digits: seq<Byte>, delta: int, bias: int, h: int, b: int)
    requires AtHead(uc, n, st, digits, delta, bias, h, b) && h == |uc|
    ensures !Overflows(uc) && st.out == uc && digits == AllSpelled(uc) && DELIMITER !in digits
    ensures DecodeRun(digits, Decoder(INITIAL_N, 0, INITIAL_BIAS, Below(uc, INITIAL_N))) == Some(st)
  {
    CourseEnds(uc, digits, n, delta, bias, h, b);
    HeldAtStart(uc, n);
    BelowIsAll(uc, n);
  }

  lemma HeldAtStart(uc: seq<Unit>, n: int)
    ensures Held(uc, n, 0) == Below(uc, n)
  {
    assert uc[0..] == uc && uc[..0] == [];
  }

  /** From a head of the loop to the start of the pass for the next value `m`. */
  lemma HeadRaise(uc: seq<Unit>, n: int, m: int, st: Decoder, digits: seq<Byte>, delta: int, delta': int, bias: int,
                  h: int, b: int)
    requires AtHead(uc, n, st, digits, delta, bias, h, b) && PassDelta(uc, m) <= MAX_INT
    requires n <= m && forall i :: 0 <= i < |uc| ==> uc[i] < n || m <= uc[i]
    requires delta' == delta + (m - n) * (h + 1)
    ensures InStep(uc, m, 0, st, digits, delta', bias, h, b)
    ensures h == |Below(uc, m)| && INITIAL_N <= m && FitBelow(uc, m + 1)
  {
    InStepRaise(uc, n, m, st, digits, delta, delta', bias, h, b);
    BelowSkips(uc, n, m);
    FitUpTo(uc, n, m);
  }

  /** From the end of the pass for `m` to the next head. */
  lemma HeadWrap(uc: seq<Unit>, m: int, st: Decoder, digits: seq<Byte>, delta: int, bias: int, h: int, b: int)
    requires InStep(uc, m, |uc|, st, digits, delta, bias, h, b) && m in uc && INITIAL_N <= m
    requires FitBelow(uc, m + 1) && delta == AfterLast(uc, m) && bias <= MAX_INT && 0 <= b <= h
    ensures AtHead(uc, m + 1, st, digits, delta + 1, bias, h, b)
    ensures |Below(uc, m)| < h <= |uc|
  {
    InStepWrap(uc, m, st, digits, delta, bias, h, b);
  }

  lemma SomeLeft(uc: seq<Unit>, n: int)
    requires |Below(uc, n)| < |uc|
    ensures exists i :: 0 <= i < |uc| && n <= uc[i]
  {
    BelowIsAll(uc, n);
  }

  /** The pass for `m` and the two increments behind it. */
  method PassAndStep(uc: seq<Unit>, output: seq<Byte>, m: Uint32, delta: Uint32, bias: Uint32, b: Uint32, h: Uint32,
                     ghost head: seq<Byte>, ghost digits: seq<Byte>, ghost st: Decoder)
      returns (output': seq<Byte>, n': Uint32, delta': Uint32, bias': Uint32, h': Uint32,
               ghost digits': seq<Byte>, ghost st': Decoder)
    requires |uc| <= MAX_INT && INITIAL_N <= m && m in uc && delta <= MAX_INT && bias <= MAX_INT && b <= h
    requires InStep(uc, m, 0, st, digits, delta, bias, h, b) && output == head + digits && FitBelow(uc, m + 1)
    ensures AtHead(uc, n', st', digits', delta', bias', h', b)
    ensures output' == head + digits' && |Below(uc, m)| < h' <= |uc|
  {
    output', delta', bias', h', digits', st' := Pass(uc, output, m, delta, bias, b, h, head, digits, st);
    HeadWrap(uc, m, st', digits', delta', bias', h', b);
    n', delta' := m + 1, delta' + 1;
  }

  /** One round of the outer loop: find the next value, step to it, make the pass. */
  method Round(uc: seq<Unit>, output: seq<Byte>, n: Uint32, delta: Uint32, bias: Uint32, b: Uint32, h: Uint32,
               ghost head: seq<Byte>, ghost digits: seq<Byte>, ghost st: Decoder)
      returns (ok: bool, output': seq<Byte>, n': Uint32, delta': Uint32, bias': Uint32, h': Uint32,
               ghost digits': seq<Byte>, ghost st': Decoder)
    requires h < |uc| <= MAX_INT && AtHead(uc, n, st, digits, delta, bias, h, b) && output == head + digits
    ensures !ok ==> Overflows(uc)
    ensures ok ==> AtHead(uc, n', st', digits', delta', bias', h', b)
    ensures ok ==> output' == head + digits' && h < h' <= |uc|
  {
    SomeLeft(uc, n);
    var m := LeastFrom(uc, n);
    output', n', delta', bias', h', digits', st' := output, n, delta, bias, h, digits, st;
    ok, delta' := Advance(uc, n, m, delta, h);
    if ok {
      HeadRaise(uc, n, m, st, digits, delta, delta', bias, h, b);
      output', n', delta', bias', h', digits', st' :=
        PassAndStep(uc, output, m, delta', bias, b, h, head, digits, st);
    }
  }

  /** The outer loop: rounds until no unit is left. */
  method Sweep(uc: seq<Unit>, head: seq<Byte>, b: Uint32)
      returns (ok: bool, output: seq<Byte>, ghost digits: seq<Byte>, ghost st: Decoder)
    requires b == |Below(uc, INITIAL_N)| < |uc| <= MAX_INT
    ensures ok <==> !Overflows(uc)
    ensures ok ==> output == head + digits && digits == AllSpelled(uc) && DELIMITER !in digits && st.out == uc
    ensures ok ==> DecodeRun(digits, Decoder(INITIAL_N, 0, INITIAL_BIAS, Below(uc, INITIAL_N))) == Some(st)
  {
    var n: Uint32, delta: Uint32, bias: Uint32, h: Uint32 := INITIAL_N, 0, INITIAL_BIAS, b;
    output, digits := head, [];
    st := Decoder(INITIAL_N, 0, INITIAL_BIAS, Below(uc, INITIAL_N));
    SweepStart(uc, b);
    ok := true;
    while h < |uc|
      invariant AtHead(uc, n, st, digits, delta, bias, h, b) && h <= |uc|
      invariant output == head + digits
      decreases |uc| - h
    {
      ok, output, n, delta, bias, h, digits, st := Round(uc, output, n, delta, bias, b, h, head, digits, st);
      if !ok {
        return;
      }
    }
    SweepDone(uc, n, st, digits, delta, bias, h, b);
  }

  method CopyBasic(uc: seq<Unit>) returns (output: seq<Byte>)
    ensures output == Below(uc, INITIAL_N)
  {
    output := [];
    for j := 0 to |uc|
      invariant output == Below(uc[..j], INITIAL_N)
    {
      assert uc[..j + 1][..j] == uc[..j];
      if uc[j] < 0x80 {
        output := output + [uc[j]];
      }
    }
    assert uc[..|uc|] == uc;
  }

  /**
   * The encoder. A label with only basic code points comes back unchanged; any other one
   * comes back empty exactly when a distance overflows, and otherwise behind the ACE prefix
   * in a form that the decoder of RFC 3492 turns back into the input. Surrogates are encoded one by
   * one, so that the decoder's code points are those of the label only without surrogate pairs.
   */
  method ToPunycode(uc: seq<Unit>) returns (output: seq<Byte>)
    requires |uc| <= MAX_INT
    ensures (forall i :: 0 <= i < |uc| ==> uc[i] < 0x80) ==> output == uc
    ensures (exists i :: 0 <= i < |uc| && uc[i] >= 0x80) ==>
      if Overflows(uc) then output == []
      else output == PunycodeOf(uc) && |output| >= 4 && output[..4] == ACE_PREFIX && Decode(output[4..]) == Some(uc)
           && (Decode(output[4..]) == Some(CodePoints(uc)) <==> !HasPair(uc))
  {
    output := CopyBasic(uc);
    BelowIsAll(uc, INITIAL_N);
    if |output| == |uc| {
      return;
    }
    var b: Uint32 := |output|;
    ghost var basic := output;
    if b > 0 {
      output := output + [DELIMITER];
    }
    ghost var head := output;
    var ok;
    ghost var digits, st;
    ok, output, digits, st := Sweep(uc, output, b);
    if !ok {
      return [];
    }
    Assembled(uc, basic, head, digits, st);
    UnitsAreCodePoints(uc);
    output := ACE_PREFIX + output;
  }
}

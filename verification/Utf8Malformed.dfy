/**
 * UTF-8 where something is wrong: what the encoder keeps of ill-formed text and how much it counts,
 * and what the decoder writes for bytes that are not UTF-8.
 */
module Utf8Malformed {
  import opened Units
  import opened Utf16Text
  import opened Utf8
  import opened Utf8Codec
  import opened Utf8RoundTrip

  // ---------- The form of section 3 of RFC 3629 ----------

  predicate IsTail(b: int) {
    0x80 <= b <= 0xbf
  }

  /** The table of that section, with the least code point of each length. */
  predicate IsForm(b: seq<Byte>, c: int) {
    var x: seq<int> := b;
    if |x| == 1 then x[0] < 0x80 && c == x[0]
    else if |x| == 2 then
      0xc0 <= x[0] < 0xe0 && IsTail(x[1]) && c >= 0x80 && c == (x[0] - 0xc0) * 0x40 + (x[1] - 0x80)
    else if |x| == 3 then
      && 0xe0 <= x[0] < 0xf0 && IsTail(x[1]) && IsTail(x[2])
      && c >= 0x800 && c == (x[0] - 0xe0) * 0x1000 + (x[1] - 0x80) * 0x40 + (x[2] - 0x80)
    else
      && |x| == 4 && 0xf0 <= x[0] < 0xf8 && IsTail(x[1]) && IsTail(x[2]) && IsTail(x[3]) && c >= 0x1_0000
      && c == (x[0] - 0xf0) * 0x4_0000 + (x[1] - 0x80) * 0x1000 + (x[2] - 0x80) * 0x40 + (x[3] - 0x80)
  }

  /** Its bytes are the only ones that the table has for a code point. */
  lemma FormExactly(b: seq<Byte>, c: int)
    requires IsScalar(c)
    ensures IsForm(b, c) <==> b == PointBytes(c)
  {
    PointBytesAreForm(c);
    if !IsForm(b, c) {
      return;
    }
    if |b| == 2 {
      OnlyTwo(b, c);
    } else if |b| == 3 {
      OnlyThree(b, c);
    } else if |b| == 4 {
      OnlyFour(b, c);
    }
  }

  lemma PointBytesAreForm(c: int)
    requires IsScalar(c)
    ensures IsForm(PointBytes(c), c)
  {
    SixBitsOf(c);
    SixBitsOf(c / 0x40);
    SixBitsOf(c / 0x1000);
  }

  lemma OnlyTwo(b: seq<Byte>, c: int)
    requires IsScalar(c) && |b| == 2 && IsForm(b, c)
    ensures b == PointBytes(c)
  {
    var x: seq<int> := b;
    TwoParts(c, x[0] - 0xc0, x[1] - 0x80);
  }

  lemma OnlyThree(b: seq<Byte>, c: int)
    requires IsScalar(c) && |b| == 3 && IsForm(b, c)
    ensures b == PointBytes(c)
  {
    var x: seq<int> := b;
    SixBitsOf(c);
    TwoParts(c, (x[0] - 0xe0) * 0x40 + (x[1] - 0x80), x[2] - 0x80);
    TwoParts(c / 0x40, x[0] - 0xe0, x[1] - 0x80);
  }

  lemma OnlyFour(b: seq<Byte>, c: int)
    requires IsScalar(c) && |b| == 4 && IsForm(b, c)
    ensures b == PointBytes(c)
  {
    var x: seq<int> := b;
    SixBitsOf(c);
    TwoParts(c, ((x[0] - 0xf0) * 0x40 + (x[1] - 0x80)) * 0x40 + (x[2] - 0x80), x[3] - 0x80);
    TwoParts(c / 0x40, (x[0] - 0xf0) * 0x40 + (x[1] - 0x80), x[2] - 0x80);
    TwoParts(c / 0x1000, x[0] - 0xf0, x[1] - 0x80);
  }

  lemma SixBitsOf(c: nat)
    ensures c == c / 0x40 * 0x40 + c % 0x40 && 0 <= c % 0x40 < 0x40
    ensures c / 0x40 / 0x40 == c / 0x1000 && c / 0x1000 / 0x40 == c / 0x4_0000
  {}

  /** Quotient and remainder are the only two parts that make it up. */
  lemma TwoParts(c: int, q: int, r: int)
    requires c >= 0
    ensures 0 <= r < 0x40 ==> (c == q * 0x40 + r <==> q == c / 0x40 && r == c % 0x40)
  {}

  /** The characters of the examples in section 7. */
  lemma FormExamples()
    ensures PointBytes(0x41) == [0x41] && PointBytes(0x391) == [0xce, 0x91] && PointBytes(0x2262) == [0xe2, 0x89, 0xa2]
    ensures PointBytes(0x2_33b4) == [0xf0, 0xa3, 0x8e, 0xb4] && PointBytes(0xfeff) == BYTE_ORDER_MARK
  {}

  // ---------- Encoding ill-formed text ----------

  /** The code points that are written, the units that are counted, a high surrogate at the end. */
  datatype Survey = Survey(points: seq<int>, dropped: nat, waiting: Option<Unit>)

  /** From the front: an unpaired high surrogate takes the next unit with it, whatever that is. */
  function Surveyed(s: seq<Unit>): (r: Survey)
    ensures AllScalar(r.points)
  {
    if s == [] then Survey([], 0, None)
    else if IsLow(s[0]) then
      var r := Surveyed(s[1..]);
      r.(dropped := r.dropped + 1)
    else if !IsHigh(s[0]) then
      var r := Surveyed(s[1..]);
      r.(points := [s[0]] + r.points)
    else if |s| == 1 then Survey([], 0, Some(s[0]))
    else
      var r := Surveyed(s[2..]);
      if IsLow(s[1]) then r.(points := [Join(s[0], s[1])] + r.points) else r.(dropped := r.dropped + 1)
  }

  lemma {:induction false} RawBytesCons(c: int, cs: seq<int>)
    requires IsScalar(c) && AllScalar(cs) && AllScalar([c] + cs)
    ensures RawBytes([c] + cs) == EncodePoint(c) + RawBytes(cs)
  {
    if cs == [] {
      assert [c] + cs == [c] && [c][..0] == [];
    } else {
      var init, last := cs[..|cs| - 1], cs[|cs| - 1];
      var all := [c] + cs;
      assert all[..|all| - 1] == [c] + init && all[|all| - 1] == last;
      RawBytesCons(c, init);
      Regroup(EncodePoint(c), RawBytes(init), EncodePoint(last));
    }
  }

  lemma UnitsFromFront(e: Encoded, s: seq<Unit>, k: nat)
    requires e.Valid() && k <= |s|
    ensures EncodeUnits(e, s) == EncodeUnits(EncodeUnits(e, s[..k]), s[k..])
  {
    assert s == s[..k] + s[k..];
    EncodeUnitsConcat(e, s[..k], s[k..]);
  }

  /** The first unit, and the first two. */
  lemma FirstUnits(e: Encoded, s: seq<Unit>)
    requires e.Valid() && s != []
    ensures EncodeUnits(e, s[..1]) == EncodeUnit(e, s[0])
    ensures |s| >= 2 ==> EncodeUnits(e, s[..2]) == EncodeUnit(EncodeUnit(e, s[0]), s[1])
  {
    assert s[..1][..0] == [];
    if |s| >= 2 {
      assert s[..2][..1] == s[..1];
    }
  }

  /** What the encoder writes, counts and keeps of any text. */
  lemma {:induction false} EncodesSurveyed(e: Encoded, s: seq<Unit>)
    requires e.pending.None?
    ensures IsSurveyed(e, s)
    decreases |s|
  {
    if s == [] {
      assert e.bytes + [] == e.bytes;
    } else if !IsHigh(s[0]) {
      EncodesSurveyed(EncodeUnit(e, s[0]), s[1..]);
      UnitSurveyed(e, s);
    } else if |s| == 1 {
      FirstUnits(e, s);
      assert s[..1] == s && e.bytes + [] == e.bytes;
    } else {
      EncodesSurveyed(EncodeUnit(EncodeUnit(e, s[0]), s[1]), s[2..]);
      TwoSurveyed(e, s);
    }
  }

  /** The encoder's result for `s` is what was surveyed. */
  ghost predicate IsSurveyed(e: Encoded, s: seq<Unit>)
    requires e.pending.None?
  {
    var r := Surveyed(s);
    EncodeUnits(e, s) == Encoded(e.bytes + RawBytes(r.points), r.waiting, e.invalid + r.dropped)
  }

  lemma UnitSurveyed(e: Encoded, s: seq<Unit>)
    requires e.pending.None? && s != [] && !IsHigh(s[0]) && IsSurveyed(EncodeUnit(e, s[0]), s[1..])
    ensures IsSurveyed(e, s)
  {
    FirstUnits(e, s);
    UnitsFromFront(e, s, 1);
    if !IsLow(s[0]) {
      OnePointMore(e.bytes, s[0], Surveyed(s[1..]).points);
    }
  }

  lemma TwoSurveyed(e: Encoded, s: seq<Unit>)
    requires e.pending.None? && |s| >= 2 && IsHigh(s[0])
    requires IsSurveyed(EncodeUnit(EncodeUnit(e, s[0]), s[1]), s[2..])
    ensures IsSurveyed(e, s)
  {
    FirstUnits(e, s);
    UnitsFromFront(e, s, 2);
    if IsLow(s[1]) {
      OnePointMore(e.bytes, Join(s[0], s[1]), Surveyed(s[2..]).points);
    }
  }

  lemma OnePointMore(bytes: seq<Byte>, c: int, cs: seq<int>)
    requires IsScalar(c) && AllScalar(cs) && AllScalar([c] + cs)
    ensures bytes + EncodePoint(c) + RawBytes(cs) == bytes + RawBytes([c] + cs)
  {
    RawBytesCons(c, cs);
    Regroup(bytes, EncodePoint(c), RawBytes(cs));
  }

  lemma PointsFromFront(s: seq<Unit>)
    requires s != []
    ensures CodePoints(s) == [FrontPoint(s)] + CodePoints(s[FrontWidth(s)..])
  {
    var c := FrontPoint(s);
    FrontEncodes(s);
    FrontIs(s, FrontWidth(s), c);
  }

  /** The first code point and how many units it takes. */
  function FrontWidth(s: seq<Unit>): (k: nat)
    requires s != []
    ensures 0 < k <= |s|
  {
    if |s| >= 2 && IsHigh(s[0]) && IsLow(s[1]) then 2 else 1
  }

  function FrontPoint(s: seq<Unit>): (c: nat)
    requires s != []
    ensures c < 0x11_0000
  {
    if FrontWidth(s) == 2 then Join(s[0], s[1]) else s[0]
  }

  lemma FrontEncodes(s: seq<Unit>)
    requires s != []
    ensures s[..FrontWidth(s)] == Encode(FrontPoint(s))
  {}

  lemma FrontIs(s: seq<Unit>, k: nat, c: int)
    requires 0 < k <= |s| && 0 <= c < 0x11_0000 && s[..k] == Encode(c) && Separate(s[..k], s[k..])
    ensures CodePoints(s) == [c] + CodePoints(s[k..])
  {
    assert s == s[..k] + s[k..];
    CodePointsConcat(s[..k], s[k..]);
    CodePointsOfOne(c);
  }

  /** Nothing is counted and nothing waits exactly where the text has no unpaired surrogate. */
  lemma {:induction false} NothingDroppedExactly(s: seq<Unit>)
    ensures var r := Surveyed(s);
      && (r.dropped == 0 && r.waiting.None? <==> AllScalar(CodePoints(s)))
      && (AllScalar(CodePoints(s)) ==> r.points == CodePoints(s))
    decreases |s|
  {
    if s != [] {
      PointsFromFront(s);
      NothingDroppedExactly(s[FrontWidth(s)..]);
      ScalarCons(FrontPoint(s), CodePoints(s[FrontWidth(s)..]));
    }
  }

  lemma ScalarCons(c: int, cs: seq<int>)
    ensures AllScalar([c] + cs) <==> IsScalar(c) && AllScalar(cs)
  {
    var all := [c] + cs;
    assert all[0] == c;
    assert forall i :: 0 < i < |all| ==> all[i] == cs[i - 1];
    assert forall i :: 0 <= i < |cs| ==> cs[i] == all[i + 1];
  }

  /** An unpaired low surrogate is dropped, and an unpaired high one with the letter behind it. */
  lemma UnpairedExample()
    ensures EncodeUnits(Encoded([], None, 0), [0xdc00, 0x61]) == Encoded([0x61], None, 1)
    ensures EncodeUnits(Encoded([], None, 0), [0xd800, 0x61, 0x62]) == Encoded([0x62], None, 1)
  {
    OneLetter(0x61);
    OneLetter(0x62);
    EncodesSurveyed(Encoded([], None, 0), [0xdc00, 0x61]);
    EncodesSurveyed(Encoded([], None, 0), [0xd800, 0x61, 0x62]);
    assert [0xdc00, 0x61][1..] == [0x61] && [0xd800, 0x61, 0x62][2..] == [0x62];
  }

  lemma OneLetter(u: Unit)
    requires u < 0x80
    ensures Surveyed([u]) == Survey([u], 0, None) && RawBytes([u]) == [u] && [] + RawBytes([u]) == [u]
  {
    assert [u][1..] == [] && [u][..0] == [] && [u] + [] == [u];
    assert Surveyed([u][1..]) == Survey([], 0, None);
  }

  // ---------- Decoding what is not UTF-8 ----------

  /** How many bytes have to follow a lead byte. */
  function MoreThan(lead: Byte): nat {
    if 0xc0 <= lead < 0xe0 then 1 else if 0xe0 <= lead < 0xf0 then 2 else if 0xf0 <= lead < 0xf8 then 3 else 0
  }

  /** Index `i` has a lead byte, behind it `k` bytes that may follow one. */
  predicate LeadAndTails(b: seq<Byte>, i: nat, k: nat) {
    i + k < |b| && MoreThan(b[i]) > 0 && forall j :: i < j <= i + k ==> IsTail(b[j])
  }

  /** A byte below 0x80 is a character; one that cannot lead, or that follows nothing, is replaced. */
  lemma SingleByte(b: seq<Byte>, i: nat, replacement: Unit)
    requires i < |b| && MoreThan(b[i]) == 0
    ensures Scan(b, i, replacement) == if b[i] < 0x80 then After([b[i]], 0, Scan(b, i + 1, replacement))
                                       else After([replacement], 1, Scan(b, i + 1, replacement))
  {}

  lemma {:induction false} FollowBreaks(b: seq<Byte>, j: nat, end: nat, need: nat, uc: nat)
    requires j <= end < |b| && end - j < need && !IsTail(b[end]) && forall l :: j <= l < end ==> IsTail(b[l])
    ensures Follow(b, j, need, uc) == Broken
    decreases end - j
  {
    if j < end {
      FollowBreaks(b, j + 1, end, need - 1, uc * 0x40 + b[j] % 0x40);
    }
  }

  function Repeated(u: Unit, n: nat): seq<Unit> {
    seq(n, _ => u)
  }

  lemma {:induction false} TailsReplaced(b: seq<Byte>, i: nat, end: nat, replacement: Unit)
    requires i <= end <= |b| && forall j :: i <= j < end ==> IsTail(b[j])
    ensures Scan(b, i, replacement) == After(Repeated(replacement, end - i), end - i, Scan(b, end, replacement))
    decreases end - i
  {
    if i < end {
      SingleByte(b, i, replacement);
      TailsReplaced(b, i + 1, end, replacement);
      AfterAfter([replacement], 1, Repeated(replacement, end - i - 1), end - i - 1, Scan(b, end, replacement));
      assert [replacement] + Repeated(replacement, end - i - 1) == Repeated(replacement, end - i);
    } else {
      var r := Scan(b, end, replacement);
      assert Repeated(replacement, 0) + r.units == r.units;
    }
  }

  /** A sequence that breaks off is replaced byte by byte, and what breaks it is read afresh. */
  lemma BrokenSequence(b: seq<Byte>, i: nat, k: nat, replacement: Unit)
    requires LeadAndTails(b, i, k) && k < MoreThan(b[i]) && i + k + 1 < |b| && !IsTail(b[i + k + 1])
    ensures Scan(b, i, replacement)
         == After(Repeated(replacement, k + 1), k + 1, Scan(b, i + k + 1, replacement))
  {
    var p := Opened(b[i]);
    FollowBreaks(b, i + 1, i + k + 1, p.need, p.uc);
    TailsReplaced(b, i + 1, i + k + 1, replacement);
    AfterAfter([replacement], 1, Repeated(replacement, k), k, Scan(b, i + k + 1, replacement));
    assert [replacement] + Repeated(replacement, k) == Repeated(replacement, k + 1);
  }

  /** What a whole sequence stands for: a code point that may appear, in its only form, or nothing. */
  ghost predicate StandsFor(b: seq<Byte>, c: int) {
    IsAccepted(c) && IsForm(b, c)
  }

  /** The bits of a lead byte and of those behind it. */
  function BitsOf(x: seq<int>): int
    requires 2 <= |x| <= 4
  {
    if |x| == 2 then (x[0] - 0xc0) * 0x40 + (x[1] - 0x80)
    else if |x| == 3 then (x[0] - 0xe0) * 0x1000 + (x[1] - 0x80) * 0x40 + (x[2] - 0x80)
    else (x[0] - 0xf0) * 0x4_0000 + (x[1] - 0x80) * 0x1000 + (x[2] - 0x80) * 0x40 + (x[3] - 0x80)
  }

  lemma FollowOne(b: seq<Byte>, j: nat, need: nat, uc: nat)
    requires j < |b| && need > 0 && IsTail(b[j])
    ensures Follow(b, j, need, uc) == Follow(b, j + 1, need - 1, uc * 0x40 + b[j] % 0x40)
  {}

  /** Up to three tails. */
  lemma FollowAll(b: seq<Byte>, j: nat, need: nat, uc: nat)
    requires 0 < need <= 3 && j + need <= |b| && forall l :: j <= l < j + need ==> IsTail(b[l])
    ensures Follow(b, j, need, uc) == Complete(WithTails(uc, b[j..j + need]), j + need)
  {
    FollowOne(b, j, need, uc);
    var u1 := uc * 0x40 + b[j] % 0x40;
    if need > 1 {
      FollowOne(b, j + 1, need - 1, u1);
      if need > 2 {
        FollowOne(b, j + 2, 1, u1 * 0x40 + b[j + 1] % 0x40);
      }
    }
  }

  function WithTails(uc: nat, tails: seq<Byte>): nat
    requires 0 < |tails| <= 3
  {
    var u1 := uc * 0x40 + tails[0] % 0x40;
    if |tails| == 1 then u1
    else if |tails| == 2 then u1 * 0x40 + tails[1] % 0x40
    else (u1 * 0x40 + tails[1] % 0x40) * 0x40 + tails[2] % 0x40
  }

  lemma BitsAre(x: seq<Byte>)
    requires 2 <= |x| <= 4 && MoreThan(x[0]) == |x| - 1 && forall j :: 0 < j < |x| ==> IsTail(x[j])
    ensures BitsOf(x) == WithTails(Opened(x[0]).uc, x[1..])
  {
    LeadBits(x[0]);
    forall j | 0 < j < |x|
      ensures x[1..][j - 1] % 0x40 == x[j] as int - 0x80
    {
      TailBits(x[j]);
    }
  }

  lemma LeadBits(lead: Byte)
    requires MoreThan(lead) > 0
    ensures var base := if MoreThan(lead) == 1 then 0xc0 else if MoreThan(lead) == 2 then 0xe0 else 0xf0;
      Opened(lead).uc == lead as int - base && Opened(lead).need == MoreThan(lead)
  {}

  lemma TailBits(b: Byte)
    requires IsTail(b)
    ensures b % 0x40 == b as int - 0x80
  {}

  lemma FollowsWhole(b: seq<Byte>, i: nat)
    requires i < |b| && LeadAndTails(b, i, MoreThan(b[i]))
    ensures var p, end := Opened(b[i]), i + MoreThan(b[i]) + 1;
      BitsOf(b[i..end]) >= 0 && Follow(b, i + 1, p.need, p.uc) == Complete(BitsOf(b[i..end]), end)
  {
    var p, end := Opened(b[i]), i + MoreThan(b[i]) + 1;
    FollowAll(b, i + 1, p.need, p.uc);
    BitsAre(b[i..end]);
    assert b[i..end][1..] == b[i + 1..end];
  }

  /** The value is rejected exactly when the bytes are the form of nothing that may appear. */
  lemma RejectedExactly(x: seq<Byte>, c: int)
    requires 2 <= |x| <= 4 && MoreThan(x[0]) == |x| - 1 && (forall j :: 0 < j < |x| ==> IsTail(x[j]))
    requires BitsOf(x) >= 0
    ensures StandsFor(x, c) <==> c == BitsOf(x) && !IsRejected(c, Opened(x[0]).minUc)
  {}

  /** A whole sequence is read as the code point whose form it is, or else replaced by one character. */
  lemma WholeSequence(b: seq<Byte>, i: nat, replacement: Unit)
    requires i < |b| && LeadAndTails(b, i, MoreThan(b[i]))
    ensures var end := i + MoreThan(b[i]) + 1;
      && (forall c :: StandsFor(b[i..end], c) ==>
           Scan(b, i, replacement) == After(Encode(c), 0, Scan(b, end, replacement)))
      && ((forall c :: !StandsFor(b[i..end], c)) ==>
           Scan(b, i, replacement) == After([replacement], 1, Scan(b, end, replacement)))
  {
    var x, p := b[i..i + MoreThan(b[i]) + 1], Opened(b[i]);
    FollowsWhole(b, i);
    RejectedExactly(x, BitsOf(x));
    forall c | StandsFor(x, c)
      ensures c == BitsOf(x) && !IsRejected(c, p.minUc) && ValueUnits(c, p.minUc, replacement) == Encode(c)
    {
      RejectedExactly(x, c);
      ValueIsText(c, p.minUc, replacement);
    }
  }

  /** Bytes at the end that begin a sequence stay pending; the state holds no other bytes than these. */
  lemma UnfinishedSequence(b: seq<Byte>, i: nat, replacement: Unit)
    requires i < |b| && LeadAndTails(b, i, |b| - i - 1) && |b| - i - 1 < MoreThan(b[i])
    ensures var r := Scan(b, i, replacement);
      r.units == [] && r.invalid == 0 && r.tail == |b| - i && Shaped(r.pending) && PendingBytes(r.pending) == b[i..]
  {
    var p := Opened(b[i]);
    OpenedIsShaped(b[i]);
    FollowStaysOpen(b, i, i + 1, p);
  }

  lemma {:induction false} FollowStaysOpen(b: seq<Byte>, i: nat, j: nat, p: Pending)
    requires i < j <= |b| < j + p.need && Shaped(p) && PendingBytes(p) == b[i..j]
    requires forall l :: j <= l < |b| ==> IsTail(b[l])
    ensures var f := Follow(b, j, p.need, p.uc);
      && f.Open? && Shaped(Pending(f.need, f.uc, p.minUc)) && PendingBytes(Pending(f.need, f.uc, p.minUc)) == b[i..]
    decreases p.need
  {
    if j == |b| {
      assert b[i..j] == b[i..];
    } else {
      var q := Pending(p.need - 1, p.uc * 0x40 + b[j] % 0x40, p.minUc);
      FollowerIsTaken(p, b[j]);
      SliceNext(b, i, j);
      FollowStaysOpen(b, i, j + 1, q);
      assert Follow(b, j, p.need, p.uc) == Follow(b, j + 1, q.need, q.uc);
    }
  }

  lemma SliceNext(b: seq<Byte>, i: nat, j: nat)
    requires i <= j < |b|
    ensures b[i..j + 1] == b[i..j] + [b[j]]
  {}

  // ---------- Examples ----------

  /** FF is read as U+FFFD, or as U+0000 if the state asks for that. */
  lemma ReplacedExample(headerDone: bool)
    ensures DecodeCall(DecoderState(headerDone, NOTHING), [0xff], ReplacementFor(false)).units == [0xfffd]
    ensures DecodeCall(DecoderState(headerDone, NOTHING), [0xff], ReplacementFor(true)).units == [0]
  {
    SingleByte([0xff], 0, 0xfffd);
    SingleByte([0xff], 0, 0);
  }

  /** E2 82 41, a sequence that breaks off, is two replacements and U+0041. */
  lemma BrokenExample()
    ensures Scan([0xe2, 0x82, 0x41], 0, 0xfffd).units == [0xfffd, 0xfffd, 0x41]
    ensures Scan([0xe2, 0x82, 0x41], 0, 0xfffd).invalid == 2
  {
    BrokenThree([0xe2, 0x82, 0x41], 0xfffd);
  }

  lemma BrokenThree(b: seq<Byte>, replacement: Unit)
    requires |b| == 3 && MoreThan(b[0]) == 2 && IsTail(b[1]) && b[2] < 0x80
    ensures var r := Scan(b, 0, replacement); r.units == [replacement, replacement, b[2]] && r.invalid == 2
  {
    BrokenSequence(b, 0, 1, replacement);
    SingleByte(b, 2, replacement);
    assert Scan(b, 3, replacement).units == [];
    assert Repeated(replacement, 2) == [replacement, replacement];
  }

  /** C0 80, an overlong form, and ED A0 80, a surrogate, are one replacement each. */
  lemma RejectedExample()
    ensures Scan([0xc0, 0x80], 0, 0xfffd).units == [0xfffd] && Scan([0xed, 0xa0, 0x80], 0, 0xfffd).units == [0xfffd]
  {
    NothingStoodFor([0xc0, 0x80]);
    NothingStoodFor([0xed, 0xa0, 0x80]);
  }

  lemma NothingStoodFor(b: seq<Byte>)
    requires b in {[0xc0, 0x80], [0xed, 0xa0, 0x80]}
    ensures Scan(b, 0, 0xfffd).units == [0xfffd]
  {
    WholeSequence(b, 0, 0xfffd);
    assert b[0..|b|] == b;
  }
}

/**
 * What the two UTF-8 converters guarantee together: which bytes decode without complaint, which
 * strings survive the round trip, and that neither depends on how the data is cut into calls.
 */
module Utf8RoundTrip {
  import opened Converter
  import opened Units
  import opened Utf16Text
  import opened Utf8

  // ---------- The encoder across calls ----------

  function EncodeCalls(st: EncoderState, chunks: seq<seq<Unit>>): (r: (seq<Byte>, EncoderState))
    requires st.Valid()
    decreases |chunks|
  {
    if chunks == [] then ([], st)
    else
      var (bytes, st') := EncodeCall(st, chunks[0]);
      var (more, st'') := EncodeCalls(st', chunks[1..]);
      (bytes + more, st'')
  }

  lemma {:induction false} EncodeUnitsConcat(e: Encoded, a: seq<Unit>, b: seq<Unit>)
    requires e.Valid()
    ensures EncodeUnits(e, a + b) == EncodeUnits(EncodeUnits(e, a), b)
  {
    if b == [] {
      assert a + b == a;
    } else {
      assert (a + b)[..|a + b| - 1] == a + b[..|b| - 1];
      EncodeUnitsConcat(e, a, b[..|b| - 1]);
    }
  }

  /** What was written before a call plays no part in it. */
  lemma {:induction false} EncodeUnitsPrefix(bytes: seq<Byte>, pending: Option<Unit>, invalid: nat, s: seq<Unit>)
    requires pending.Some? ==> IsHigh(pending.value)
    ensures var r := EncodeUnits(Encoded([], pending, invalid), s);
      EncodeUnits(Encoded(bytes, pending, invalid), s) == r.(bytes := bytes + r.bytes)
  {
    if s != [] {
      EncodeUnitsPrefix(bytes, pending, invalid, s[..|s| - 1]);
      EncodeUnitPrefix(bytes, EncodeUnits(Encoded([], pending, invalid), s[..|s| - 1]), s[|s| - 1]);
    }
  }

  lemma EncodeUnitPrefix(bytes: seq<Byte>, e: Encoded, u: Unit)
    requires e.Valid()
    ensures var r := EncodeUnit(e, u);
      EncodeUnit(e.(bytes := bytes + e.bytes), u) == r.(bytes := bytes + r.bytes)
  {
    var r := EncodeUnit(e, u);
    if r.bytes != e.bytes {
      var added := r.bytes[|e.bytes|..];
      assert bytes + (e.bytes + added) == (bytes + e.bytes) + added;
    }
  }

  lemma EncodeTwoCalls(st: EncoderState, a: seq<Unit>, b: seq<Unit>)
    requires st.Valid()
    ensures var (bytes, st') := EncodeCall(st, a);
      var (more, st'') := EncodeCall(st', b);
      EncodeCall(st, a + b) == (bytes + more, st'')
  {
    var e := Encoded(if st.headerDone then [] else BYTE_ORDER_MARK, st.pending, st.invalid);
    var f := EncodeUnits(e, a);
    EncodeUnitsConcat(e, a, b);
    EncodeUnitsPrefix(f.bytes, f.pending, f.invalid, b);
  }

  /** Encoding in pieces gives the bytes, the one header and the final state of a single call. */
  lemma {:induction false} EncoderIsSplitIndependent(st: EncoderState, chunks: seq<seq<Unit>>)
    requires st.Valid() && chunks != []
    ensures EncodeCalls(st, chunks) == EncodeCall(st, Flatten(chunks))
    decreases |chunks|
  {
    var first, rest := chunks[0], chunks[1..];
    var (bytes, st') := EncodeCall(st, first);
    if rest == [] {
      assert Flatten(chunks) == first + [] == first;
      assert EncodeCalls(st', rest) == ([], st') && bytes + [] == bytes;
    } else {
      EncoderIsSplitIndependent(st', rest);
      EncodeTwoCalls(st, first, Flatten(rest));
    }
  }

  // ---------- How much the encoder writes ----------

  predicate TakesThree(u: Unit) {
    u >= 0x800 && !IsHigh(u) && !IsLow(u)
  }

  /** A carried surrogate is completed by the first unit, and all that follow take three bytes. */
  predicate IsLongest(pending: Option<Unit>, s: seq<Unit>)
    requires pending.Some? ==> IsHigh(pending.value)
  {
    && pending.Some? && s != [] && IsLow(s[0]) && !IsRaw(Join(pending.value, s[0]))
    && forall i :: 1 <= i < |s| ==> TakesThree(s[i])
  }

  lemma LongestNext(pending: Option<Unit>, s: seq<Unit>)
    requires (pending.Some? ==> IsHigh(pending.value)) && |s| > 1
    ensures IsLongest(pending, s) <==> IsLongest(pending, s[..|s| - 1]) && TakesThree(s[|s| - 1])
  {
    var init := s[..|s| - 1];
    assert init[0] == s[0];
    if IsLongest(pending, init) && TakesThree(s[|s| - 1]) {
      forall i | 1 <= i < |s|
        ensures TakesThree(s[i])
      {
        if i < |s| - 1 {
          assert init[i] == s[i];
        }
      }
    }
  }

  /**
   * Three bytes for each unit are enough, save for one more exactly when a carried surrogate is
   * completed and all that follow takes three bytes.
   */
  lemma {:induction false} EncoderBounded(pending: Option<Unit>, invalid: nat, s: seq<Unit>)
    requires pending.Some? ==> IsHigh(pending.value)
    ensures var e := EncodeUnits(Encoded([], pending, invalid), s);
      && |e.bytes| <= 3 * |s| + 1
      && (|e.bytes| > 3 * |s| <==> IsLongest(pending, s))
      && (e.pending.Some? && s != [] ==> IsHigh(s[|s| - 1]) && |e.bytes| <= 3 * |s| - 2)
  {
    if s != [] {
      var init := s[..|s| - 1];
      EncoderBounded(pending, invalid, init);
      if init != [] {
        LongestNext(pending, s);
        assert s[|s| - 2] == init[|init| - 1];
      }
    }
  }

  // ---------- How much the decoder writes ----------

  lemma {:induction false} ScanBounded(b: seq<Byte>, i: nat, replacement: Unit)
    requires i <= |b|
    ensures var r := Scan(b, i, replacement); |r.units| + r.tail <= |b| - i
    decreases |b| - i, 1
  {
    if i == |b| {
    } else if b[i] < 0x80 || FollowersOf(b[i]) == 0 {
      ScanBounded(b, i + 1, replacement);
    } else {
      var p := Opened(b[i]);
      ResolveBounded(b, i, Follow(b, i + 1, p.need, p.uc), p.minUc, replacement);
    }
  }

  lemma {:induction false} ResolveBounded(b: seq<Byte>, error: int, f: Followed, minUc: nat, replacement: Unit)
    requires error == -1 || 0 <= error < |b|
    requires f.Complete? ==> error + 2 <= f.end <= |b|
    requires f.Open? ==> f.need > 0
    ensures var r := Resolve(b, error, f, minUc, replacement); |r.units| + r.tail <= |b| - error
    decreases |b| - error, 0
  {
    match f
    case Complete(uc, end) => ScanBounded(b, end, replacement);
    case Broken => ScanBounded(b, error + 1, replacement);
    case Open(need, uc) =>
  }

  /**
   * At most one unit for each byte, replacements of an unfinished tail included, and one more for a
   * carried sequence.
   */
  lemma ChunkBounded(p: Pending, b: seq<Byte>, replacement: Unit)
    ensures var r := ScanChunk(p, b, replacement);
      |r.units| <= |b| + (if p.need > 0 then 1 else 0) && (p.need == 0 ==> |r.units| + r.tail <= |b|)
  {
    if p.need == 0 {
      ScanBounded(b, 0, replacement);
    } else {
      ResolveBounded(b, -1, Follow(b, 0, p.need, p.uc), p.minUc, replacement);
    }
  }

  // ---------- Decoding without errors is a fold ----------

  datatype Folded = Folded(units: seq<Unit>, pending: Pending)

  function FoldByte(p: Pending, ch: Byte): Option<Folded> {
    if p.need == 0 then
      if ch < 0x80 then Some(Folded([ch], NOTHING))
      else if FollowersOf(ch) > 0 then Some(Folded([], Opened(ch)))
      else None
    else if !IsFollower(ch) then None
    else
      var uc := p.uc * 0x40 + ch % 0x40;
      if p.need > 1 then Some(Folded([], Pending(p.need - 1, uc, p.minUc)))
      else if IsRejected(uc, p.minUc) then None
      else Some(Folded(ValueUnits(uc, p.minUc, 0), NOTHING))
  }

  /** Reads from index `i` and gives up at the first error. */
  function Fold(p: Pending, b: seq<Byte>, i: nat): Option<Folded>
    requires i <= |b|
    decreases |b| - i
  {
    if i == |b| then Some(Folded([], p))
    else
      match FoldByte(p, b[i])
      case None => None
      case Some(f) =>
        match Fold(f.pending, b, i + 1)
        case None => None
        case Some(g) => Some(Folded(f.units + g.units, g.pending))
  }

  ghost predicate Agree(r: Scanned, f: Option<Folded>) {
    if r.invalid == 0 then f == Some(Folded(r.units, r.pending)) else f.None?
  }

  lemma NothingFirst(f: Option<Folded>)
    ensures f.Some? ==> [] + f.value.units == f.value.units
  {}

  lemma {:induction false} ScanIsFold(b: seq<Byte>, i: nat, replacement: Unit)
    requires i <= |b|
    ensures Agree(Scan(b, i, replacement), Fold(NOTHING, b, i))
    decreases |b| - i
  {
    if i < |b| {
      if b[i] < 0x80 {
        ScanIsFold(b, i + 1, replacement);
      } else if FollowersOf(b[i]) > 0 {
        ResolveIsFold(b, i, i + 1, Opened(b[i]), replacement);
        NothingFirst(Fold(Opened(b[i]), b, i + 1));
      }
    }
  }

  lemma {:induction false} ResolveIsFold(b: seq<Byte>, error: int, i: nat, p: Pending, replacement: Unit)
    requires -1 <= error < i <= |b| && p.need > 0
    ensures Agree(Resolve(b, error, Follow(b, i, p.need, p.uc), p.minUc, replacement), Fold(p, b, i))
    decreases |b| - i
  {
    if i < |b| && IsFollower(b[i]) {
      var uc := p.uc * 0x40 + b[i] % 0x40;
      if p.need > 1 {
        ResolveIsFold(b, error, i + 1, Pending(p.need - 1, uc, p.minUc), replacement);
        NothingFirst(Fold(Pending(p.need - 1, uc, p.minUc), b, i + 1));
      } else {
        assert Follow(b, i, 1, p.uc) == Follow(b, i + 1, 0, uc) == Complete(uc, i + 1);
        ScanIsFold(b, i + 1, replacement);
      }
    }
  }

  /** A pending sequence, or the canonical absence of one. */
  predicate IsPending(p: Pending) {
    p.need == 0 ==> p == NOTHING
  }

  lemma ChunkIsFold(p: Pending, b: seq<Byte>, replacement: Unit)
    requires IsPending(p)
    ensures Agree(ScanChunk(p, b, replacement), Fold(p, b, 0))
  {
    if p.need == 0 {
      ScanIsFold(b, 0, replacement);
    } else {
      ResolveIsFold(b, -1, 0, p, replacement);
    }
  }

  function Then(f: Option<Folded>, b: seq<Byte>): Option<Folded> {
    match f
    case None => None
    case Some(x) =>
      match Fold(x.pending, b, 0)
      case None => None
      case Some(y) => Some(Folded(x.units + y.units, y.pending))
  }

  lemma {:induction false} FoldShift(p: Pending, a: seq<Byte>, b: seq<Byte>, j: nat)
    requires j <= |b|
    ensures Fold(p, a + b, |a| + j) == Fold(p, b, j)
    decreases |b| - j
  {
    if j < |b| {
      match FoldByte(p, b[j])
      case None =>
      case Some(f) => FoldShift(f.pending, a, b, j + 1);
    }
  }

  lemma Associate(units: seq<Unit>, g: Folded, b: seq<Byte>)
    ensures var h := Fold(g.pending, b, 0);
      h.Some? ==> (units + g.units) + h.value.units == units + (g.units + h.value.units)
  {}

  lemma {:induction false} FoldConcat(p: Pending, a: seq<Byte>, b: seq<Byte>, i: nat)
    requires i <= |a|
    ensures Fold(p, a + b, i) == Then(Fold(p, a, i), b)
    decreases |a| - i
  {
    if i == |a| {
      FoldShift(p, a, b, 0);
      NothingFirst(Fold(p, b, 0));
    } else {
      match FoldByte(p, a[i])
      case None =>
      case Some(f) =>
        FoldConcat(f.pending, a, b, i + 1);
        match Fold(f.pending, a, i + 1) {
          case None =>
          case Some(g) => Associate(f.units, g, b);
        }
    }
  }

  // ---------- The decoder across calls ----------

  datatype ChunksScanned = ChunksScanned(units: seq<Unit>, invalid: nat, pending: Pending)

  /** One chunk after the other, with the header taken for done. */
  function ScanChunks(p: Pending, chunks: seq<seq<Byte>>, replacement: Unit): ChunksScanned
    decreases |chunks|
  {
    if chunks == [] then ChunksScanned([], 0, p)
    else
      var r := ScanChunk(p, chunks[0], replacement);
      var d := ScanChunks(r.pending, chunks[1..], replacement);
      ChunksScanned(r.units + d.units, r.invalid + d.invalid, d.pending)
  }

  lemma {:induction false} ScansAreFold(p: Pending, chunks: seq<seq<Byte>>, replacement: Unit)
    requires IsPending(p)
    ensures var d := ScanChunks(p, chunks, replacement);
      if d.invalid == 0 then Fold(p, Flatten(chunks), 0) == Some(Folded(d.units, d.pending))
      else Fold(p, Flatten(chunks), 0).None?
    decreases |chunks|
  {
    if chunks != [] {
      ChunkIsFold(p, chunks[0], replacement);
      FoldConcat(p, chunks[0], Flatten(chunks[1..]), 0);
      ScansAreFold(ScanChunk(p, chunks[0], replacement).pending, chunks[1..], replacement);
    }
  }

  /** Whether there are errors does not depend on the cuts, and without errors nothing else does. */
  lemma ScansAreSplitIndependent(p: Pending, chunks: seq<seq<Byte>>, replacement: Unit)
    requires IsPending(p)
    ensures var d, r := ScanChunks(p, chunks, replacement), ScanChunk(p, Flatten(chunks), replacement);
      && (d.invalid == 0 <==> r.invalid == 0)
      && (r.invalid == 0 ==> d == ChunksScanned(r.units, 0, r.pending))
  {
    ScansAreFold(p, chunks, replacement);
    ChunkIsFold(p, Flatten(chunks), replacement);
  }

  // ---------- Which bytes decode without errors ----------

  /** The scalar values that the decoder lets through; it replaces U+FFFE and U+FFFF. */
  predicate IsAccepted(c: int) {
    IsScalar(c) && c != 0xfffe && c != 0xffff
  }

  predicate AllAccepted(cs: seq<int>)
    ensures AllAccepted(cs) ==> AllScalar(cs)
  {
    forall i :: 0 <= i < |cs| ==> IsAccepted(cs[i])
  }

  /** Appending six bits, and taking them off again. */
  lemma SixBits(u: nat, ch: Byte)
    requires IsFollower(ch)
    ensures (u * 0x40 + ch % 0x40) / 0x40 == u && 0x80 + (u * 0x40 + ch % 0x40) % 0x40 == ch
  {}

  lemma SixBitsBack(c: nat)
    ensures IsFollower(0x80 + c % 0x40) && c / 0x40 * 0x40 + (0x80 + c % 0x40) % 0x40 == c
  {}

  lemma TwelveBits(c: nat)
    ensures c / 0x40 / 0x40 == c / 0x1000 && c / 0x1000 / 0x40 == c / 0x4_0000
  {}

  lemma ValueIsText(c: nat, minUc: nat, r: Unit)
    requires IsAccepted(c) && minUc <= c
    ensures !IsRejected(c, minUc) && ValueUnits(c, minUc, r) == Encode(c)
  {}

  lemma FoldPoint(c: int)
    requires IsAccepted(c)
    ensures Fold(NOTHING, PointBytes(c), 0) == Some(Folded(Encode(c), NOTHING))
  {
    var b := PointBytes(c);
    if c < 0x80 {
      assert Fold(NOTHING, b, 1) == Some(Folded([], NOTHING));
      assert FoldByte(NOTHING, b[0]) == Some(Folded([c], NOTHING));
      assert [b[0]] + [] == Encode(c);
    } else {
      FoldFollowers(c);
      LeadOpens(c);
      NothingFirst(Fold(Opened(b[0]), b, 1));
    }
  }

  /** The pending sequence behind the lead byte of `c`. */
  function Lead(c: int): Pending
    requires 0x80 <= c < 0x11_0000
  {
    if c < 0x800 then Pending(1, c / 0x40, 0x80)
    else if c < 0x1_0000 then Pending(2, c / 0x1000, 0x800)
    else Pending(3, c / 0x4_0000, 0x1_0000)
  }

  lemma LeadOpens(c: int)
    requires IsScalar(c) && c >= 0x80
    ensures FollowersOf(PointBytes(c)[0]) > 0 && Opened(PointBytes(c)[0]) == Lead(c)
  {
    TopBits(if c < 0x800 then c / 0x40 else if c < 0x1_0000 then c / 0x1000 else c / 0x4_0000);
  }

  lemma TopBits(q: nat)
    ensures (q < 0x20 ==> (0xc0 + q) % 0x20 == q) && (q < 0x10 ==> (0xe0 + q) % 0x10 == q)
    ensures q < 0x8 ==> (0xf0 + q) % 0x8 == q
  {}

  lemma FoldFollowers(c: int)
    requires IsAccepted(c) && c >= 0x80
    ensures Fold(Lead(c), PointBytes(c), 1) == Some(Folded(Encode(c), NOTHING))
  {
    var b := PointBytes(c);
    TwelveBits(c);
    FoldLast(Pending(1, c / 0x40, Lead(c).minUc), b, c);
    if c >= 0x1_0000 {
      FoldMiddle(Lead(c), b, 1, c / 0x1000);
      FoldMiddle(Pending(2, c / 0x1000, 0x1_0000), b, 2, c / 0x40);
    } else if c >= 0x800 {
      FoldMiddle(Lead(c), b, 1, c / 0x40);
    }
  }

  lemma FoldLast(p: Pending, b: seq<Byte>, c: int)
    requires IsAccepted(c) && p.need == 1 && p.uc == c / 0x40 && p.minUc <= c
    requires b != [] && b[|b| - 1] == 0x80 + c % 0x40
    ensures Fold(p, b, |b| - 1) == Some(Folded(Encode(c), NOTHING))
  {
    SixBitsBack(c);
    ValueIsText(c, p.minUc, 0);
    var f := FoldByte(p, b[|b| - 1]);
    assert f == Some(Folded(Encode(c), NOTHING));
    assert Encode(c) + [] == Encode(c);
  }

  lemma FoldMiddle(p: Pending, b: seq<Byte>, i: nat, uc: nat)
    requires p.need > 1 && i < |b| && p.uc == uc / 0x40 && b[i] == 0x80 + uc % 0x40
    ensures Fold(p, b, i) == Fold(Pending(p.need - 1, uc, p.minUc), b, i + 1)
  {
    SixBitsBack(uc);
    assert FoldByte(p, b[i]) == Some(Folded([], Pending(p.need - 1, uc, p.minUc)));
    NothingFirst(Fold(Pending(p.need - 1, uc, p.minUc), b, i + 1));
  }

  lemma {:induction false} FoldBytes(cs: seq<int>)
    requires AllAccepted(cs)
    ensures Fold(NOTHING, Bytes(cs), 0) == Some(Folded(Text(cs), NOTHING))
  {
    if cs != [] {
      var init, last := cs[..|cs| - 1], cs[|cs| - 1];
      FoldBytes(init);
      FoldPoint(last);
      FoldConcat(NOTHING, Bytes(init), PointBytes(last), 0);
    }
  }

  lemma {:induction false} BytesConcat(a: seq<int>, b: seq<int>)
    requires AllScalar(a) && AllScalar(b) && AllScalar(a + b)
    ensures Bytes(a + b) == Bytes(a) + Bytes(b)
  {
    if b == [] {
      assert a + b == a;
    } else {
      var init := b[..|b| - 1];
      assert (a + b)[..|a + b| - 1] == a + init && (a + b)[|a + b| - 1] == b[|b| - 1];
      BytesConcat(a, init);
      Regroup(Bytes(a), Bytes(init), PointBytes(b[|b| - 1]));
    }
  }

  // ---------- What error-free bytes are ----------

  /** A pending sequence that the decoder can have come to. */
  predicate Shaped(p: Pending) {
    || p == NOTHING
    || (p.minUc == 0x80 && p.need == 1 && p.uc < 0x20)
    || (p.minUc == 0x800 && ((p.need == 2 && p.uc < 0x10) || (p.need == 1 && p.uc < 0x400)))
    || (p.minUc == 0x1_0000
        && ((p.need == 3 && p.uc < 0x8) || (p.need == 2 && p.uc < 0x200) || (p.need == 1 && p.uc < 0x8000)))
  }

  /** The bytes that it has taken so far. */
  function PendingBytes(p: Pending): seq<Byte>
    requires Shaped(p)
  {
    if p == NOTHING then []
    else if p.minUc == 0x80 then [0xc0 + p.uc]
    else if p.minUc == 0x800 then
      if p.need == 2 then [0xe0 + p.uc] else [0xe0 + p.uc / 0x40, 0x80 + p.uc % 0x40]
    else if p.need == 3 then [0xf0 + p.uc]
    else if p.need == 2 then [0xf0 + p.uc / 0x40, 0x80 + p.uc % 0x40]
    else [0xf0 + p.uc / 0x1000, 0x80 + p.uc / 0x40 % 0x40, 0x80 + p.uc % 0x40]
  }

  lemma {:induction false} FollowIsShaped(b: seq<Byte>, i: nat, p: Pending)
    requires i <= |b| && Shaped(p) && p.need > 0
    ensures var f := Follow(b, i, p.need, p.uc); f.Open? ==> Shaped(Pending(f.need, f.uc, p.minUc))
    decreases p.need
  {
    if i < |b| && IsFollower(b[i]) && p.need > 1 {
      FollowerIsTaken(p, b[i]);
      FollowIsShaped(b, i + 1, Pending(p.need - 1, p.uc * 0x40 + b[i] % 0x40, p.minUc));
    }
  }

  lemma {:induction false} ScanIsShaped(b: seq<Byte>, i: nat, replacement: Unit)
    requires i <= |b|
    ensures Shaped(Scan(b, i, replacement).pending)
    decreases |b| - i, 1
  {
    if i < |b| {
      if b[i] < 0x80 || FollowersOf(b[i]) == 0 {
        ScanIsShaped(b, i + 1, replacement);
      } else {
        OpenedIsShaped(b[i]);
        ResolveIsShaped(b, i, i + 1, Opened(b[i]), replacement);
      }
    }
  }

  lemma {:induction false} ResolveIsShaped(b: seq<Byte>, error: int, i: nat, p: Pending, replacement: Unit)
    requires -1 <= error < i <= |b| && Shaped(p) && p.need > 0
    ensures Shaped(Resolve(b, error, Follow(b, i, p.need, p.uc), p.minUc, replacement).pending)
    decreases |b| - error, 0
  {
    FollowIsShaped(b, i, p);
    match Follow(b, i, p.need, p.uc)
    case Complete(uc, end) => ScanIsShaped(b, end, replacement);
    case Broken => ScanIsShaped(b, error + 1, replacement);
    case Open(need, uc) =>
  }

  /** Whatever bytes a decoder is given, malformed or not, its pending sequence stays one of these. */
  lemma ChunkIsShaped(p: Pending, b: seq<Byte>, replacement: Unit)
    requires Shaped(p)
    ensures Shaped(ScanChunk(p, b, replacement).pending)
  {
    if p.need == 0 {
      ScanIsShaped(b, 0, replacement);
    } else {
      ResolveIsShaped(b, -1, 0, p, replacement);
    }
  }

  lemma OpenedIsShaped(ch: Byte)
    requires FollowersOf(ch) > 0
    ensures Shaped(Opened(ch)) && PendingBytes(Opened(ch)) == [ch]
  {}

  lemma FollowerIsTaken(p: Pending, ch: Byte)
    requires Shaped(p) && p.need > 1 && IsFollower(ch)
    ensures var q := Pending(p.need - 1, p.uc * 0x40 + ch % 0x40, p.minUc);
      Shaped(q) && PendingBytes(q) == PendingBytes(p) + [ch]
  {
    var uc := p.uc * 0x40 + ch % 0x40;
    SixBits(p.uc, ch);
    TwelveBits(uc);
  }

  /** A complete sequence that is not replaced is the encoding of its value, in its shortest form. */
  lemma CompleteIsPoint(p: Pending, ch: Byte)
    requires Shaped(p) && p.need == 1 && IsFollower(ch)
    requires var c := p.uc * 0x40 + ch % 0x40; !IsRejected(c, p.minUc)
    ensures var c := p.uc * 0x40 + ch % 0x40;
      IsAccepted(c) && PointBytes(c) == PendingBytes(p) + [ch] && ValueUnits(c, p.minUc, 0) == Encode(c)
  {
    var c := p.uc * 0x40 + ch % 0x40;
    SixBits(p.uc, ch);
    TwelveBits(c);
    TwelveBits(p.uc);
  }

  lemma BytesNext(cs: seq<int>, c: int)
    requires AllAccepted(cs) && IsAccepted(c)
    ensures AllAccepted(cs + [c]) && Bytes(cs + [c]) == Bytes(cs) + PointBytes(c)
    ensures Text(cs + [c]) == Text(cs) + Encode(c)
  {
    assert (cs + [c])[..|cs|] == cs;
  }

  /** What one byte adds to the code points and the pending sequence. */
  lemma ByteIsRead(cs: seq<int>, p: Pending, ch: Byte) returns (cs': seq<int>)
    requires AllAccepted(cs) && Shaped(p) && FoldByte(p, ch).Some?
    ensures var f := FoldByte(p, ch).value;
      && AllAccepted(cs') && Shaped(f.pending) && Text(cs') == Text(cs) + f.units
      && Bytes(cs') + PendingBytes(f.pending) == Bytes(cs) + PendingBytes(p) + [ch]
  {
    cs' := cs;
    if p.need == 0 {
      if ch < 0x80 {
        cs' := cs + [ch as int];
        BytesNext(cs, ch);
      } else {
        OpenedIsShaped(ch);
      }
    } else if p.need > 1 {
      FollowerIsTaken(p, ch);
      Regroup(Bytes(cs), PendingBytes(p), [ch]);
    } else {
      var c := p.uc * 0x40 + ch % 0x40;
      CompleteIsPoint(p, ch);
      cs' := cs + [c];
      BytesNext(cs, c);
      Regroup(Bytes(cs), PendingBytes(p), [ch]);
    }
  }

  lemma OneByteFolded(p: Pending, ch: Byte)
    ensures Fold(p, [ch], 0) == FoldByte(p, ch)
  {
    if FoldByte(p, ch).Some? {
      var f := FoldByte(p, ch).value;
      assert Fold(f.pending, [ch], 1) == Some(Folded([], f.pending)) && f.units + [] == f.units;
    }
  }

  /** Error-free bytes are the encoding of what they are read as, and the bytes still pending. */
  lemma {:induction false} FoldDetermines(b: seq<Byte>) returns (cs: seq<int>)
    requires Fold(NOTHING, b, 0).Some?
    ensures var f := Fold(NOTHING, b, 0).value;
      AllAccepted(cs) && f.units == Text(cs) && Shaped(f.pending) && b == Bytes(cs) + PendingBytes(f.pending)
    decreases |b|
  {
    if b == [] {
      cs := [];
    } else {
      var init, ch := b[..|b| - 1], b[|b| - 1];
      assert b == init + [ch];
      FoldConcat(NOTHING, init, [ch], 0);
      var before := FoldDetermines(init);
      var f := Fold(NOTHING, init, 0).value;
      OneByteFolded(f.pending, ch);
      cs := ByteIsRead(before, f.pending, ch);
    }
  }

  /** Only the lead byte has been taken. */
  predicate JustOpened(p: Pending) {
    (p.minUc == 0x80 && p.need == 1) || (p.minUc == 0x800 && p.need == 2) || (p.minUc == 0x1_0000 && p.need == 3)
  }

  /** The sequence before its last byte was taken. */
  function Earlier(p: Pending): Pending {
    Pending(p.need + 1, p.uc / 0x40, p.minUc)
  }

  lemma EarlierIs(p: Pending)
    requires Shaped(p) && p != NOTHING && !JustOpened(p)
    ensures Shaped(Earlier(p)) && Earlier(p).need > 1
    ensures PendingBytes(p) == PendingBytes(Earlier(p)) + [0x80 + p.uc % 0x40]
    ensures FoldByte(Earlier(p), 0x80 + p.uc % 0x40) == Some(Folded([], p))
  {
    SixBitsBack(p.uc);
    TwelveBits(p.uc);
  }

  lemma OpenedByByte(p: Pending)
    requires Shaped(p) && p != NOTHING && JustOpened(p)
    ensures |PendingBytes(p)| == 1 && FoldByte(NOTHING, PendingBytes(p)[0]) == Some(Folded([], p))
  {}

  /** The bytes of a pending sequence lead to it. */
  lemma {:induction false} PendingIsFolded(p: Pending)
    requires Shaped(p)
    ensures Fold(NOTHING, PendingBytes(p), 0) == Some(Folded([], p))
    decreases 3 - p.need
  {
    if p != NOTHING {
      if JustOpened(p) {
        OpenedByByte(p);
        OneByteFolded(NOTHING, PendingBytes(p)[0]);
        assert PendingBytes(p) == [PendingBytes(p)[0]];
      } else {
        EarlierIs(p);
        PendingIsFolded(Earlier(p));
        FoldConcat(NOTHING, PendingBytes(Earlier(p)), [0x80 + p.uc % 0x40], 0);
        OneByteFolded(Earlier(p), 0x80 + p.uc % 0x40);
      }
    }
  }

  /** From the same state, different bytes are read as different text, or leave something different pending. */
  lemma FoldIsInjective(p: Pending, a: seq<Byte>, b: seq<Byte>)
    requires Shaped(p) && Fold(p, a, 0).Some? && Fold(p, a, 0) == Fold(p, b, 0)
    ensures a == b
  {
    var before := PendingBytes(p);
    PendingIsFolded(p);
    FoldConcat(NOTHING, before, a, 0);
    FoldConcat(NOTHING, before, b, 0);
    var cs := FoldDetermines(before + a);
    var ds := FoldDetermines(before + b);
    AcceptedIsParsed(cs);
    AcceptedIsParsed(ds);
    CodePointsOfText(cs);
    CodePointsOfText(ds);
    assert a == (before + a)[|before|..] && b == (before + b)[|before|..];
  }

  lemma AcceptedIsParsed(cs: seq<int>)
    requires AllAccepted(cs)
    ensures Parsed(cs)
  {}

  /** The text of `s`, as code points, may appear in the output of the decoder. */
  predicate AcceptedText(s: seq<Unit>) {
    AllAccepted(CodePoints(s))
  }

  /**
   * The decoder reads `b` as `s` without an error exactly when `b` is the UTF-8 form of `s` and
   * `s` is well-formed and free of U+FFFE and U+FFFF.
   */
  lemma DecodesExactly(b: seq<Byte>, s: seq<Unit>, replacement: Unit)
    ensures Scan(b, 0, replacement) == Scanned(s, 0, NOTHING, 0)
       <==> AcceptedText(s) && b == Bytes(CodePoints(s))
  {
    var cs := CodePoints(s);
    TextOfCodePoints(s);
    if Scan(b, 0, replacement) == Scanned(s, 0, NOTHING, 0) {
      ScanIsFold(b, 0, replacement);
      var read := FoldDetermines(b);
      AcceptedIsParsed(read);
      CodePointsOfText(read);
    }
    if AcceptedText(s) && b == Bytes(cs) {
      FoldBytes(cs);
      ScanIsFold(b, 0, replacement);
      ScanBounded(b, 0, replacement);
    }
  }

  // ---------- Which strings survive the round trip ----------

  function RawBytes(cs: seq<int>): seq<Byte>
    requires AllScalar(cs)
  {
    if cs == [] then [] else RawBytes(cs[..|cs| - 1]) + EncodePoint(cs[|cs| - 1])
  }

  lemma EncodeLast(e: Encoded, init: seq<Unit>, c: int)
    requires e.Valid() && IsScalar(c) && EncodeUnits(e, init).pending.None?
    ensures var f := EncodeUnits(e, init);
      EncodeUnits(e, init + Encode(c)) == f.(bytes := f.bytes + EncodePoint(c))
  {
    if IsPair(c) {
      EncodePairBehind(e, init, High(c), Low(c));
      JoinedAgain(c);
    } else {
      UnitBehind(e, init, c);
      EncodeSingle(EncodeUnits(e, init), c);
    }
  }

  lemma UnitBehind(e: Encoded, init: seq<Unit>, u: Unit)
    requires e.Valid()
    ensures EncodeUnits(e, init + [u]) == EncodeUnit(EncodeUnits(e, init), u)
  {
    assert (init + [u])[..|init|] == init;
  }

  lemma EncodePairBehind(e: Encoded, init: seq<Unit>, high: Unit, low: Unit)
    requires e.Valid() && IsHigh(high) && IsLow(low) && EncodeUnits(e, init).pending.None?
    ensures var f := EncodeUnits(e, init);
      EncodeUnits(e, init + [high, low]) == f.(bytes := f.bytes + EncodePoint(Join(high, low)))
  {
    UnitBehind(e, init, high);
    UnitBehind(e, init + [high], low);
    assert (init + [high]) + [low] == init + [high, low];
    EncodePair(EncodeUnits(e, init), high, low);
  }

  lemma EncodePair(f: Encoded, high: Unit, low: Unit)
    requires f.Valid() && f.pending.None? && IsHigh(high) && IsLow(low)
    ensures EncodeUnit(EncodeUnit(f, high), low) == f.(bytes := f.bytes + EncodePoint(Join(high, low)))
  {}

  lemma EncodeSingle(f: Encoded, u: Unit)
    requires f.Valid() && f.pending.None? && IsScalar(u)
    ensures EncodeUnit(f, u) == f.(bytes := f.bytes + EncodePoint(u))
  {}

  /** On well-formed text the encoder writes code point by code point. */
  lemma {:induction false} EncodeText(s: seq<Unit>)
    requires AllScalar(CodePoints(s))
    ensures EncodeUnits(Encoded([], None, 0), s) == Encoded(RawBytes(CodePoints(s)), None, 0)
  {
    if s != [] {
      var cs, rest := CodePoints(s), s[..|s| - LastWidth(s)];
      assert cs == CodePoints(rest) + [LastPoint(s)];
      assert cs[..|cs| - 1] == CodePoints(rest) && cs[|cs| - 1] == LastPoint(s);
      EncodeText(rest);
      EncodeLast(Encoded([], None, 0), rest, LastPoint(s));
      LastEncodes(s);
      assert s == rest + Encode(LastPoint(s));
    }
  }

  /** Raw bytes make the encoding shorter than UTF-8; without them it is UTF-8. */
  lemma {:induction false} RawIsShorter(cs: seq<int>)
    requires AllScalar(cs)
    ensures |RawBytes(cs)| <= |Bytes(cs)|
    ensures if exists i :: 0 <= i < |cs| && IsRaw(cs[i]) then |RawBytes(cs)| < |Bytes(cs)|
            else RawBytes(cs) == Bytes(cs)
  {
    if cs != [] {
      RawIsShorter(cs[..|cs| - 1]);
    }
  }

  predicate IsRestorable(s: seq<Unit>) {
    AcceptedText(s) && forall i :: 0 <= i < |CodePoints(s)| ==> !IsRaw(CodePoints(s)[i])
  }

  /**
   * The stateless encoding of `s`, cut anywhere and decoded with the header taken for done, comes
   * back as `s` with nothing pending and nothing invalid exactly when `s` is well-formed and contains
   * neither U+FFFE, U+FFFF nor a code point that is written as a raw byte.
   */
  lemma RoundTripExactly(s: seq<Unit>, chunks: seq<seq<Byte>>, replacement: Unit)
    requires Flatten(chunks) == EncodeUnits(Encoded([], None, 0), s).bytes
    ensures ScanChunks(NOTHING, chunks, replacement) == ChunksScanned(s, 0, NOTHING) <==> IsRestorable(s)
  {
    var b := Flatten(chunks);
    ScansAreSplitIndependent(NOTHING, chunks, replacement);
    DecodesExactly(b, s, replacement);
    if AcceptedText(s) {
      EncodeText(s);
      RawIsShorter(CodePoints(s));
    }
  }
}

/**
 * The UTF-8 decoder call by call, with its byte-order mark: each call skips one at its head until
 * one has been seen. When cutting the data makes no difference, and which strings a fresh encoder
 * and a fresh decoder carry over.
 */
module Utf8Calls {
  import opened Converter
  import opened Units
  import opened Utf16Text
  import opened Utf8
  import opened Utf8RoundTrip

  function DecodeCalls(st: DecoderState, chunks: seq<seq<Byte>>, replacement: Unit): Decoded
    decreases |chunks|
  {
    if chunks == [] then Decoded([], 0, st)
    else
      var d := DecodeCall(st, chunks[0], replacement);
      var more := DecodeCalls(d.state, chunks[1..], replacement);
      Decoded(d.units + more.units, d.invalid + more.invalid, more.state)
  }

  /** What the calls keep of their chunks. */
  function Kept(chunks: seq<seq<Byte>>, headerDone: bool): seq<seq<Byte>>
    decreases |chunks|
  {
    if chunks == [] then []
    else [WithoutHeader(chunks[0], headerDone)] + Kept(chunks[1..], headerDone || HasHeader(chunks[0], false))
  }

  /** Where in the data the first call stands that finds a mark at its head. */
  function MarkOffset(chunks: seq<seq<Byte>>): Option<nat>
    decreases |chunks|
  {
    if chunks == [] then None
    else if HasHeader(chunks[0], false) then Some(0)
    else
      match MarkOffset(chunks[1..])
      case None => None
      case Some(p) => Some(|chunks[0]| + p)
  }

  /** Calls are scans of what they keep. */
  lemma {:induction false} CallsAreScans(st: DecoderState, chunks: seq<seq<Byte>>, replacement: Unit)
    ensures var r := ScanChunks(st.pending, Kept(chunks, st.headerDone), replacement);
      DecodeCalls(st, chunks, replacement)
      == Decoded(r.units, r.invalid, DecoderState(st.headerDone || MarkOffset(chunks).Some?, r.pending))
    decreases |chunks|
  {
    if chunks != [] {
      var d := DecodeCall(st, chunks[0], replacement);
      CallsAreScans(d.state, chunks[1..], replacement);
      var kept := Kept(chunks, st.headerDone);
      assert kept[0] == WithoutHeader(chunks[0], st.headerDone) && kept[1..] == Kept(chunks[1..], d.state.headerDone);
    }
  }

  lemma {:induction false} AllKept(chunks: seq<seq<Byte>>)
    ensures Flatten(Kept(chunks, true)) == Flatten(chunks)
    decreases |chunks|
  {
    if chunks != [] {
      AllKept(chunks[1..]);
      assert Kept(chunks, true)[1..] == Kept(chunks[1..], true);
    }
  }

  /** All of `b` but the mark at `at`, if there is one. */
  predicate AllButMark(kept: seq<Byte>, b: seq<Byte>, at: Option<nat>) {
    match at
    case None => kept == b
    case Some(p) => p + 3 < |b| && b[p..p + 3] == BYTE_ORDER_MARK && kept == b[..p] + b[p + 3..]
  }

  /** The calls keep all but the mark they find. */
  lemma {:induction false} KeptIs(chunks: seq<seq<Byte>>)
    ensures AllButMark(Flatten(Kept(chunks, false)), Flatten(chunks), MarkOffset(chunks))
    decreases |chunks|
  {
    if chunks != [] {
      KeptNext(chunks);
      if HasHeader(chunks[0], false) {
        AllKept(chunks[1..]);
        MarkInFront(chunks[0], Flatten(chunks[1..]));
      } else {
        KeptIs(chunks[1..]);
        MarkBehind(chunks[0], Flatten(Kept(chunks[1..], false)), Flatten(chunks[1..]), MarkOffset(chunks[1..]));
      }
    }
  }

  lemma KeptNext(chunks: seq<seq<Byte>>)
    requires chunks != []
    ensures var done := HasHeader(chunks[0], false);
      Flatten(Kept(chunks, false)) == WithoutHeader(chunks[0], false) + Flatten(Kept(chunks[1..], done))
  {
    var rest := Kept(chunks[1..], HasHeader(chunks[0], false));
    assert ([WithoutHeader(chunks[0], false)] + rest)[1..] == rest;
  }

  lemma MarkInFront(c: seq<Byte>, rest: seq<Byte>)
    requires HasHeader(c, false)
    ensures AllButMark(c[3..] + rest, c + rest, Some(0))
  {
    assert (c + rest)[0..3] == c[..3] && (c + rest)[3..] == c[3..] + rest;
  }

  lemma MarkBehind(c: seq<Byte>, kept: seq<Byte>, rest: seq<Byte>, at: Option<nat>)
    requires AllButMark(kept, rest, at)
    ensures AllButMark(c + kept, c + rest, if at.None? then None else Some(|c| + at.value))
  {
    if at.Some? {
      var b, p, q := c + rest, at.value, |c| + at.value;
      assert b[..q] == c + rest[..p] && b[q..q + 3] == rest[p..p + 3] && b[q + 3..] == rest[p + 3..];
    }
  }

  /**
   * A cut is harmless when the calls skip a mark if and only if one call on all the data does, and
   * what stands in front of the one they skip, if anything, consists of marks.
   */
  predicate CutIsHarmless(chunks: seq<seq<Byte>>) {
    var b := Flatten(chunks);
    match MarkOffset(chunks)
    case None => !HasHeader(b, false)
    case Some(p) => HasHeader(b, false) && p <= |b| && b[..p] + BYTE_ORDER_MARK == BYTE_ORDER_MARK + b[..p]
  }

  /** Skipping either of two marks is the same exactly when there are only marks in between. */
  lemma EitherMark(b: seq<Byte>, p: nat)
    requires p + 3 < |b| && b[..3] == b[p..p + 3] == BYTE_ORDER_MARK
    ensures b[..p] + b[p + 3..] == b[3..] <==> b[..p] + BYTE_ORDER_MARK == BYTE_ORDER_MARK + b[..p]
  {
    var mid := b[3..p + 3];
    assert b[..p + 3] == b[..p] + BYTE_ORDER_MARK && b[..p + 3] == BYTE_ORDER_MARK + mid;
    assert b[3..] == mid + b[p + 3..];
    FrontsAgree(b[..p], mid, b[p + 3..]);
    BacksAgree(BYTE_ORDER_MARK, b[..p], mid);
  }

  lemma FrontsAgree(a: seq<Byte>, b: seq<Byte>, c: seq<Byte>)
    requires |a| == |b|
    ensures a + c == b + c <==> a == b
  {
    assert (a + c)[..|a|] == a && (b + c)[..|b|] == b;
  }

  lemma BacksAgree(c: seq<Byte>, a: seq<Byte>, b: seq<Byte>)
    ensures c + a == c + b <==> a == b
  {
    assert (c + a)[|c|..] == a && (c + b)[|c|..] == b;
  }

  /** The calls keep what one call keeps exactly when the cut is harmless. */
  lemma KeptExactly(chunks: seq<seq<Byte>>)
    ensures var b := Flatten(chunks);
      CutIsHarmless(chunks)
      <==> (MarkOffset(chunks).Some? <==> HasHeader(b, false))
           && Flatten(Kept(chunks, false)) == WithoutHeader(b, false)
  {
    KeptIs(chunks);
    var b := Flatten(chunks);
    if MarkOffset(chunks).Some? && HasHeader(b, false) {
      EitherMark(b, MarkOffset(chunks).value);
    }
  }

  /**
   * For data that one call reads without an error, cutting it makes no difference exactly when the
   * header is done or the cut is harmless.
   */
  lemma CutExactly(st: DecoderState, chunks: seq<seq<Byte>>, replacement: Unit)
    requires Shaped(st.pending) && DecodeCall(st, Flatten(chunks), replacement).invalid == 0
    ensures DecodeCalls(st, chunks, replacement) == DecodeCall(st, Flatten(chunks), replacement)
       <==> st.headerDone || CutIsHarmless(chunks)
  {
    var b := Flatten(chunks);
    var kept, text := Kept(chunks, st.headerDone), WithoutHeader(b, st.headerDone);
    CallsAreScans(st, chunks, replacement);
    ScansAreFold(st.pending, kept, replacement);
    ChunkIsFold(st.pending, text, replacement);
    if st.headerDone {
      AllKept(chunks);
    } else {
      KeptExactly(chunks);
      var d := ScanChunks(st.pending, kept, replacement);
      if d.invalid == 0 && Fold(st.pending, Flatten(kept), 0) == Fold(st.pending, text, 0) {
        FoldIsInjective(st.pending, Flatten(kept), text);
      }
    }
  }

  // ---------- Encoder and decoder together ----------

  const FRESH_ENCODER := EncoderState(false, None, 0)
  const FRESH_DECODER := DecoderState(false, NOTHING)

  lemma FreshBytes(s: seq<Unit>)
    ensures EncodeCall(FRESH_ENCODER, s).0 == BYTE_ORDER_MARK + EncodeUnits(Encoded([], None, 0), s).bytes
  {
    EncodeUnitsPrefix(BYTE_ORDER_MARK, None, 0, s);
  }

  lemma {:induction false} EncodingNotEmpty(cs: seq<int>)
    requires AllScalar(cs)
    ensures cs != [] ==> Bytes(cs) != []
  {}

  /** Text that is read behind a skipped mark has been encoded as it should be. */
  lemma ReadBehindMark(s: seq<Unit>, chunks: seq<seq<Byte>>, replacement: Unit)
    requires Flatten(chunks) == EncodeCall(FRESH_ENCODER, s).0
    requires DecodeCalls(FRESH_DECODER, chunks, replacement) == Decoded(s, 0, DecoderState(true, NOTHING))
    ensures s != [] && IsRestorable(s) && CutIsHarmless(chunks)
  {
    var b, raw, kept := Flatten(chunks), EncodeUnits(Encoded([], None, 0), s).bytes, Kept(chunks, false);
    FreshBytes(s);
    CallsAreScans(FRESH_DECODER, chunks, replacement);
    ScansAreFold(NOTHING, kept, replacement);
    KeptIs(chunks);
    var cs := FoldDetermines(Flatten(kept));
    AcceptedIsParsed(cs);
    CodePointsOfText(cs);
    EncodeText(s);
    RawIsShorter(cs);
    assert Flatten(kept) == Bytes(cs) && |Bytes(cs)| == |raw|;
    assert b[..3] == BYTE_ORDER_MARK && b[3..] == raw;
    KeptExactly(chunks);
  }

  /** A restorable text is read behind the mark. */
  lemma MarkThenText(s: seq<Unit>, replacement: Unit)
    requires s != [] && IsRestorable(s)
    ensures DecodeCall(FRESH_DECODER, EncodeCall(FRESH_ENCODER, s).0, replacement)
         == Decoded(s, 0, DecoderState(true, NOTHING))
  {
    var raw := EncodeUnits(Encoded([], None, 0), s).bytes;
    FreshBytes(s);
    EncodeText(s);
    RawIsShorter(CodePoints(s));
    EncodingNotEmpty(CodePoints(s));
    DecodesExactly(raw, s, replacement);
    assert (BYTE_ORDER_MARK + raw)[..3] == BYTE_ORDER_MARK && (BYTE_ORDER_MARK + raw)[3..] == raw;
  }

  /**
   * What a fresh encoder writes for `s`, cut anywhere, is read by a fresh decoder as `s`, with a header
   * and nothing left, exactly when `s` is not empty, is restorable, and the cut is harmless.
   */
  lemma FreshRoundTripExactly(s: seq<Unit>, chunks: seq<seq<Byte>>, replacement: Unit)
    requires Flatten(chunks) == EncodeCall(FRESH_ENCODER, s).0
    ensures DecodeCalls(FRESH_DECODER, chunks, replacement) == Decoded(s, 0, DecoderState(true, NOTHING))
       <==> s != [] && IsRestorable(s) && CutIsHarmless(chunks)
  {
    if DecodeCalls(FRESH_DECODER, chunks, replacement) == Decoded(s, 0, DecoderState(true, NOTHING)) {
      ReadBehindMark(s, chunks, replacement);
    }
    if s != [] && IsRestorable(s) {
      MarkThenText(s, replacement);
      CutExactly(FRESH_DECODER, chunks, replacement);
    }
  }

  /** With the header done, the cuts make no difference, and the restorable texts come back. */
  lemma HeadlessRoundTripExactly(s: seq<Unit>, chunks: seq<seq<Byte>>, replacement: Unit)
    requires Flatten(chunks) == EncodeUnits(Encoded([], None, 0), s).bytes
    ensures DecodeCalls(DecoderState(true, NOTHING), chunks, replacement) == Decoded(s, 0, DecoderState(true, NOTHING))
       <==> IsRestorable(s)
  {
    CallsAreScans(DecoderState(true, NOTHING), chunks, replacement);
    AllKept(chunks);
    RoundTripExactly(s, Kept(chunks, true), replacement);
  }

  // ---------- Examples ----------

  /** The mark that a fresh encoder writes for the empty string is read as U+FEFF. */
  lemma EmptyStringExample(replacement: Unit)
    ensures EncodeCall(FRESH_ENCODER, []).0 == BYTE_ORDER_MARK
    ensures DecodeCall(FRESH_DECODER, BYTE_ORDER_MARK, replacement) == Decoded([0xfeff], 0, FRESH_DECODER)
  {
    var s: seq<Unit> := [0xfeff];
    assert s[..0] == [] && CodePoints(s) == [0xfeff];
    assert [0xfeff][..0] == [] && Bytes([0xfeff]) == PointBytes(0xfeff) == BYTE_ORDER_MARK;
    DecodesExactly(BYTE_ORDER_MARK, s, replacement);
  }

  /** "a", then a mark and "b". */
  const SPLIT_AT_MARK: seq<seq<Byte>> := [[0x61], [0xef, 0xbb, 0xbf, 0x62]]

  lemma ExampleChunks()
    ensures Flatten(SPLIT_AT_MARK) == [0x61, 0xef, 0xbb, 0xbf, 0x62] && MarkOffset(SPLIT_AT_MARK) == Some(1)
    ensures Flatten(Kept(SPLIT_AT_MARK, false)) == [0x61, 0x62] && !HasHeader(Flatten(SPLIT_AT_MARK), false)
  {
    var tail: seq<Byte> := [0xef, 0xbb, 0xbf, 0x62];
    assert SPLIT_AT_MARK[1..] == [tail] && SPLIT_AT_MARK[1..][1..] == [];
    assert Flatten(SPLIT_AT_MARK[1..]) == tail && tail[..3] == BYTE_ORDER_MARK;
    var b := Flatten(SPLIT_AT_MARK);
    assert b == [0x61] + tail && b[..3][0] == 0x61;
    KeptIs(SPLIT_AT_MARK);
    assert b[..1] + b[4..] == [0x61, 0x62];
  }

  lemma TwoRead(replacement: Unit)
    ensures Scan([0x61, 0x62], 0, replacement) == Scanned([0x61, 0x62], 0, NOTHING, 0)
  {
    var b: seq<Byte> := [0x61, 0x62];
    assert Scan(b, 2, replacement) == Scanned([], 0, NOTHING, 0);
    assert Scan(b, 1, replacement) == Scanned([0x62], 0, NOTHING, 0);
  }

  lemma ThreeRead(replacement: Unit)
    ensures Scan([0x61, 0xef, 0xbb, 0xbf, 0x62], 0, replacement) == Scanned([0x61, 0xfeff, 0x62], 0, NOTHING, 0)
  {
    var b: seq<Byte> := [0x61, 0xef, 0xbb, 0xbf, 0x62];
    assert Scan(b, 5, replacement) == Scanned([], 0, NOTHING, 0);
    assert Scan(b, 4, replacement) == Scanned([0x62], 0, NOTHING, 0);
    assert Opened(b[1]) == Pending(2, 0xf, 0x800);
    assert Follow(b, 4, 0, 0xfeff) == Complete(0xfeff, 4);
    assert Follow(b, 3, 1, 0x3fb) == Complete(0xfeff, 4);
    assert Follow(b, 2, 2, 0xf) == Complete(0xfeff, 4);
    assert Scan(b, 1, replacement) == Scanned([0xfeff, 0x62], 0, NOTHING, 0);
  }

  /** A mark inside the data is skipped or not, as the data is cut; there is no error either way. */
  lemma MarkExample(replacement: Unit)
    ensures !CutIsHarmless(SPLIT_AT_MARK)
    ensures DecodeCalls(FRESH_DECODER, SPLIT_AT_MARK, replacement)
         == Decoded([0x61, 0x62], 0, DecoderState(true, NOTHING))
    ensures DecodeCall(FRESH_DECODER, Flatten(SPLIT_AT_MARK), replacement)
         == Decoded([0x61, 0xfeff, 0x62], 0, FRESH_DECODER)
  {
    ExampleChunks();
    TwoRead(replacement);
    ThreeRead(replacement);
    CallsAreScans(FRESH_DECODER, SPLIT_AT_MARK, replacement);
    ScansAreSplitIndependent(NOTHING, Kept(SPLIT_AT_MARK, false), replacement);
  }
}

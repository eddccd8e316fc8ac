/**
 * UTF-8 as section 3 of RFC 3629 defines it, and what the two converters of qutfcodec.cpp
 * compute, stated without their loops: the encoder as a fold over units, the decoder as a scan
 * that resumes one byte after the lead of a broken sequence.
 */
module Utf8 {
  import opened Units
  import opened Utf16Text

  // ---------- The encoding of RFC 3629 ----------

  function PointBytes(c: int): (b: seq<Byte>)
    requires IsScalar(c)
    ensures 1 <= |b| <= 4
  {
    if c < 0x80 then [c]
    else if c < 0x800 then [0xc0 + c / 0x40, 0x80 + c % 0x40]
    else if c < 0x1_0000 then [0xe0 + c / 0x1000, 0x80 + c / 0x40 % 0x40, 0x80 + c % 0x40]
    else [0xf0 + c / 0x4_0000, 0x80 + c / 0x1000 % 0x40, 0x80 + c / 0x40 % 0x40, 0x80 + c % 0x40]
  }

  function Bytes(cs: seq<int>): seq<Byte>
    requires AllScalar(cs)
  {
    if cs == [] then [] else Bytes(cs[..|cs| - 1]) + PointBytes(cs[|cs| - 1])
  }

  // ---------- The encoder ----------

  /** The code points that the encoder writes as one raw byte. */
  predicate IsRaw(c: int) {
    0x10_fe00 < c < 0x10_ff00
  }

  function EncodePoint(c: int): seq<Byte>
    requires IsScalar(c)
  {
    if IsRaw(c) then [c - 0x10_fe00] else PointBytes(c)
  }

  /** A high surrogate waiting for its low one, and the units found to be unpaired. */
  datatype Encoded = Encoded(bytes: seq<Byte>, pending: Option<Unit>, invalid: nat) {
    predicate Valid() {
      pending.Some? ==> IsHigh(pending.value)
    }
  }

  /**
   * One unit. An unpaired low surrogate, and whatever follows an unpaired high one, is counted
   * and dropped: the replacement byte is stored but the cursor does not move past it.
   */
  function EncodeUnit(e: Encoded, u: Unit): (e': Encoded)
    requires e.Valid()
    ensures e'.Valid()
  {
    match e.pending
    case Some(high) =>
      if IsLow(u) then Encoded(e.bytes + EncodePoint(Join(high, u)), None, e.invalid)
      else e.(pending := None, invalid := e.invalid + 1)
    case None =>
      if IsLow(u) then e.(invalid := e.invalid + 1)
      else if IsHigh(u) then e.(pending := Some(u))
      else e.(bytes := e.bytes + EncodePoint(u))
  }

  function EncodeUnits(e: Encoded, s: seq<Unit>): (e': Encoded)
    requires e.Valid()
    ensures e'.Valid()
  {
    if s == [] then e else EncodeUnit(EncodeUnits(e, s[..|s| - 1]), s[|s| - 1])
  }

  const BYTE_ORDER_MARK: seq<Byte> := [0xef, 0xbb, 0xbf]

  /** The encoder's state between calls: whether the header is out, a waiting surrogate, a count. */
  datatype EncoderState = EncoderState(headerDone: bool, pending: Option<Unit>, invalid: nat) {
    predicate Valid() {
      pending.Some? ==> IsHigh(pending.value)
    }
  }

  /** One call: its bytes and the state it leaves. */
  function EncodeCall(st: EncoderState, s: seq<Unit>): (r: (seq<Byte>, EncoderState))
    requires st.Valid()
    ensures r.1.Valid()
  {
    var e := EncodeUnits(Encoded(if st.headerDone then [] else BYTE_ORDER_MARK, st.pending, st.invalid), s);
    (e.bytes, EncoderState(true, e.pending, e.invalid))
  }

  // ---------- The decoder ----------

  /** An unfinished sequence: bytes missing, value so far, least value that the length may encode. */
  datatype Pending = Pending(need: nat, uc: nat, minUc: nat) {
    /** The value leaves room for the bits still to come. */
    predicate Valid() {
      && need <= 3
      && (need == 3 ==> uc < 0x8)
      && (need == 2 ==> uc < 0x200)
      && (need == 1 ==> uc < 0x8000)
    }
  }

  const NOTHING := Pending(0, 0, 0)

  function FollowersOf(lead: Byte): nat {
    if 0xc0 <= lead < 0xe0 then 1 else if 0xe0 <= lead < 0xf0 then 2 else if 0xf0 <= lead < 0xf8 then 3 else 0
  }

  /** The sequence that a lead byte opens. */
  function Opened(lead: Byte): (p: Pending)
    requires FollowersOf(lead) > 0
    ensures p.Valid() && p.need > 0
  {
    if lead < 0xe0 then Pending(1, lead % 0x20, 0x80)
    else if lead < 0xf0 then Pending(2, lead % 0x10, 0x800)
    else Pending(3, lead % 0x8, 0x1_0000)
  }

  predicate IsFollower(b: Byte) {
    0x80 <= b < 0xc0
  }

  datatype Followed = Complete(uc: nat, end: nat) | Broken | Open(need: nat, uc: nat)

  /** Reads `need` followers from index `i`. */
  function Follow(b: seq<Byte>, i: nat, need: nat, uc: nat): (f: Followed)
    requires i <= |b|
    ensures f.Complete? ==> f.end == i + need <= |b|
    ensures f.Open? ==> 0 < f.need <= need
    decreases need
  {
    if need == 0 then Complete(uc, i)
    else if i == |b| then Open(need, uc)
    else if !IsFollower(b[i]) then Broken
    else Follow(b, i + 1, need - 1, uc * 0x40 + b[i] % 0x40)
  }

  /** Units written, sequences replaced, what is unfinished at the end and how many bytes that spans. */
  datatype Scanned = Scanned(units: seq<Unit>, invalid: nat, pending: Pending, tail: nat)

  function After(units: seq<Unit>, invalid: nat, r: Scanned): Scanned {
    r.(units := units + r.units, invalid := invalid + r.invalid)
  }

  /** Whether a complete sequence is one that the decoder replaces. */
  predicate IsRejected(uc: nat, minUc: nat) {
    !(0xffff < uc < 0x11_0000) && (uc < minUc || 0xd800 <= uc <= 0xdfff || uc >= 0xfffe)
  }

  /** The units for a complete sequence. */
  function ValueUnits(uc: nat, minUc: nat, replacement: Unit): seq<Unit> {
    if IsRejected(uc, minUc) then [replacement]
    else if uc > 0xffff then [High(uc), Low(uc)]
    else [uc]
  }

  /** The rest of a scan whose current sequence began at index `error` and turned out as `f`. */
  function Resolve(b: seq<Byte>, error: int, f: Followed, minUc: nat, replacement: Unit): (r: Scanned)
    requires error == -1 || 0 <= error < |b|
    requires f.Complete? ==> error < f.end <= |b|
    requires f.Open? ==> f.need > 0
    ensures r.pending.need == 0 ==> r.pending == NOTHING && r.tail == 0
    decreases |b| - error, 0
  {
    match f
    case Complete(uc, end) =>
      After(ValueUnits(uc, minUc, replacement), if IsRejected(uc, minUc) then 1 else 0, Scan(b, end, replacement))
    case Broken => After([replacement], 1, Scan(b, error + 1, replacement))
    case Open(need, uc) => Scanned([], 0, Pending(need, uc, minUc), |b| - error)
  }

  /** The scan from index `i`, between sequences. */
  function Scan(b: seq<Byte>, i: nat, replacement: Unit): (r: Scanned)
    requires i <= |b|
    ensures r.pending.need == 0 ==> r.pending == NOTHING && r.tail == 0
    decreases |b| - i, 1
  {
    if i == |b| then Scanned([], 0, NOTHING, 0)
    else if b[i] < 0x80 then After([b[i]], 0, Scan(b, i + 1, replacement))
    else if FollowersOf(b[i]) == 0 then After([replacement], 1, Scan(b, i + 1, replacement))
    else
      var p := Opened(b[i]);
      Resolve(b, i, Follow(b, i + 1, p.need, p.uc), p.minUc, replacement)
  }

  /** The scan of one chunk, after whatever the previous chunk left unfinished. */
  function ScanChunk(p: Pending, b: seq<Byte>, replacement: Unit): Scanned {
    if p.need == 0 then Scan(b, 0, replacement)
    else Resolve(b, -1, Follow(b, 0, p.need, p.uc), p.minUc, replacement)
  }

  /** A mark is skipped only if a byte follows it, and only while no header has been seen. */
  predicate HasHeader(chars: seq<Byte>, headerDone: bool) {
    !headerDone && |chars| > 3 && chars[..3] == BYTE_ORDER_MARK
  }

  function WithoutHeader(chars: seq<Byte>, headerDone: bool): seq<Byte> {
    if HasHeader(chars, headerDone) then chars[3..] else chars
  }

  /** The decoder's state between calls: whether a header has been seen, an unfinished sequence. */
  datatype DecoderState = DecoderState(headerDone: bool, pending: Pending)

  datatype Decoded = Decoded(units: seq<Unit>, invalid: nat, state: DecoderState)

  /** One call: what it writes, how much of it is replaced, and the state it leaves. */
  function DecodeCall(st: DecoderState, chars: seq<Byte>, replacement: Unit): Decoded {
    var r := ScanChunk(st.pending, WithoutHeader(chars, st.headerDone), replacement);
    Decoded(r.units, r.invalid, DecoderState(st.headerDone || HasHeader(chars, false), r.pending))
  }

  lemma AfterAfter(u: seq<Unit>, m: nat, v: seq<Unit>, n: nat, r: Scanned)
    ensures After(u, m, After(v, n, r)) == After(u + v, m + n, r)
  {
    assert u + (v + r.units) == (u + v) + r.units;
  }
}

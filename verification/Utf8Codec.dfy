/** The two UTF-8 converters of qutfcodec.cpp and the state that they carry between calls. */
module Utf8Codec {
  import opened Converter
  import opened Units
  import opened Utf16Text
  import opened Utf8

  const REPLACEMENT_CHARACTER: Unit := 0xfffd

  // ---------- Encoding ----------

  /** The state as the encoder leaves it. */
  predicate EncoderValid(state: ConverterState)
    reads state
  {
    state.remainingChars == 0 || (state.remainingChars == 1 && IsHigh(state.data0))
  }

  function HighOf(surrogateHigh: int): Option<Unit> {
    if IsHigh(surrogateHigh) then Some(surrogateHigh) else None
  }

  function EncoderStateOf(state: ConverterState): EncoderState
    reads state
  {
    var pending := if state.remainingChars == 0 then None else HighOf(state.data0);
    EncoderState(state.ignoreHeader, pending, state.invalidChars)
  }

  /** Encodes `uc`. Without a state there is no header and nothing is carried over. */
  method ConvertFromUnicode(uc: seq<Unit>, state: ConverterState?) returns (rstr: seq<Byte>)
    requires state != null ==> EncoderValid(state)
    modifies state
    ensures state == null ==> rstr == EncodeUnits(Encoded([], None, 0), uc).bytes
    ensures state != null ==> EncoderValid(state) && state.invalidToNull == old(state.invalidToNull)
    ensures state != null ==> (rstr, EncoderStateOf(state)) == EncodeCall(old(EncoderStateOf(state)), uc)
  {
    var surrogateHigh := -1;
    rstr := [];
    if state != null && state.remainingChars != 0 {
      surrogateHigh := state.data0;
    }
    if state != null && !state.ignoreHeader {
      rstr := BYTE_ORDER_MARK;
    }
    ghost var e0 := Encoded(rstr, HighOf(surrogateHigh), 0);
    var invalid;
    rstr, surrogateHigh, invalid := EncodeLoop(uc, rstr, surrogateHigh);
    if state != null {
      InvalidAddsUp(e0, state.invalidChars, uc);
      state.invalidChars := state.invalidChars + invalid;
      state.ignoreHeader := true;
      state.remainingChars := 0;
      if surrogateHigh >= 0 {
        state.remainingChars := 1;
        state.data0 := surrogateHigh;
      }
    }
  }

  /** The unit loop; `surrogateHigh` is -1 or a high surrogate that waits for its low one. */
  method EncodeLoop(uc: seq<Unit>, rstr: seq<Byte>, surrogateHigh: int)
      returns (rstr': seq<Byte>, high: int, invalid: nat)
    requires surrogateHigh == -1 || IsHigh(surrogateHigh)
    ensures EncodeUnits(Encoded(rstr, HighOf(surrogateHigh), 0), uc) == Encoded(rstr', HighOf(high), invalid)
    ensures high == -1 || IsHigh(high)
  {
    ghost var e0 := Encoded(rstr, HighOf(surrogateHigh), 0);
    rstr', high, invalid := rstr, surrogateHigh, 0;
    for ch := 0 to |uc|
      invariant high == -1 || IsHigh(high)
      invariant EncodeUnits(e0, uc[..ch]) == Encoded(rstr', HighOf(high), invalid)
    {
      var u: int := uc[ch];
      assert uc[..ch + 1][..ch] == uc[..ch];
      if high >= 0 {
        if IsLow(u) {
          u := Join(high, u);
          high := -1;
        } else {
          invalid := invalid + 1;
          high := -1;
          continue;
        }
      } else if IsLow(u) {
        invalid := invalid + 1;
        continue;
      } else if IsHigh(u) {
        high := u;
        continue;
      }
      rstr' := WritePoint(rstr', u);
    }
    assert uc[..|uc|] == uc;
  }

  /** Writes one code point in one to four bytes. */
  method WritePoint(rstr: seq<Byte>, u: int) returns (rstr': seq<Byte>)
    requires IsScalar(u)
    ensures rstr' == rstr + EncodePoint(u)
  {
    if u < 0x80 {
      return rstr + [u];
    } else if u < 0x800 {
      return rstr + [0xc0 + u / 0x40, 0x80 + u % 0x40];
    } else if u > 0xffff {
      if u > 0x10_fe00 && u < 0x10_ff00 {
        return rstr + [u - 0x10_fe00];
      }
      return rstr + [0xf0 + u / 0x4_0000, 0x80 + u / 0x1000 % 0x40, 0x80 + u / 0x40 % 0x40, 0x80 + u % 0x40];
    } else {
      return rstr + [0xe0 + u / 0x1000, 0x80 + u / 0x40 % 0x40, 0x80 + u % 0x40];
    }
  }

  lemma {:induction false} InvalidAddsUp(e: Encoded, more: nat, s: seq<Unit>)
    requires e.Valid()
    ensures var r := EncodeUnits(e, s);
      EncodeUnits(e.(invalid := e.invalid + more), s) == r.(invalid := r.invalid + more)
  {
    if s != [] {
      InvalidAddsUp(e, more, s[..|s| - 1]);
    }
  }

  // ---------- Decoding ----------

  function PendingSequence(state: ConverterState): Pending
    reads state
  {
    if state.remainingChars == 0 then NOTHING else Pending(state.remainingChars, state.data0, state.data1)
  }

  /** The state as the decoder leaves it. */
  predicate DecoderValid(state: ConverterState)
    reads state
  {
    PendingSequence(state).Valid()
  }

  function ReplacementFor(invalidToNull: bool): Unit {
    if invalidToNull then 0 else REPLACEMENT_CHARACTER
  }

  function DecoderStateOf(state: ConverterState): DecoderState
    reads state
  {
    DecoderState(state.ignoreHeader, PendingSequence(state))
  }

  /**
   * Appends the text of `chars` to `target`. On a broken sequence the loop sets its index back
   * to the byte behind the lead; `rewinds` records where it went back to, in order.
   */
  method ConvertToUnicode(target: seq<Unit>, chars: seq<Byte>, state: ConverterState?)
      returns (result: seq<Unit>, ghost rewinds: seq<int>)
    requires state != null ==> DecoderValid(state)
    modifies state
    ensures state == null ==>
      var r := ScanChunk(NOTHING, WithoutHeader(chars, false), REPLACEMENT_CHARACTER);
      result == target + r.units + seq(r.tail, _ => REPLACEMENT_CHARACTER)
    ensures state != null ==> DecoderValid(state)
    ensures state != null ==>
      var d := DecodeCall(old(DecoderStateOf(state)), chars, ReplacementFor(old(state.invalidToNull)));
      && result == target + d.units && DecoderStateOf(state) == d.state
      && state.invalidChars == old(state.invalidChars) + d.invalid
      && state.invalidToNull == old(state.invalidToNull)
    ensures forall i, j :: 0 <= i < j < |rewinds| ==> rewinds[i] < rewinds[j]
    ensures forall i :: 0 <= i < |rewinds| ==> -1 <= rewinds[i] < |chars|
  {
    var headerDone := state != null && state.ignoreHeader;
    var replacement := ReplacementFor(state != null && state.invalidToNull);
    var p := if state == null then NOTHING else PendingSequence(state);
    var b := WithoutHeader(chars, headerDone);
    headerDone := headerDone || HasHeader(chars, headerDone);

    var units, invalid, q;
    units, invalid, q, rewinds := DecodeLoop(p, b, replacement, state == null);
    result := target + units;
    if state != null {
      state.invalidChars := state.invalidChars + invalid;
      state.remainingChars := q.need;
      state.ignoreHeader := headerDone;
      state.data0 := if q.need > 0 then q.uc else 0;
      state.data1 := if q.need > 0 then q.minUc else 0;
    }
  }

  /** The loop's variables on the way to `goal`: between sequences, or in one that began at `error`. */
  ghost predicate OnTrack(b: seq<Byte>, i: int, error: int, p: Pending, done: seq<Unit>, invalid: nat,
                          goal: Scanned, replacement: Unit)
  {
    && 0 <= i <= |b| && -1 <= error && p.Valid() && (p.need > 0 ==> error < i)
    && goal == After(done, invalid,
                     if p.need > 0 then Resolve(b, error, Follow(b, i, p.need, p.uc), p.minUc, replacement)
                     else Scan(b, i, replacement))
  }

  /** One more follower of the current sequence. */
  lemma TrackFollower(b: seq<Byte>, i: int, error: int, p: Pending, done: seq<Unit>, invalid: nat,
                      goal: Scanned, replacement: Unit)
    requires OnTrack(b, i, error, p, done, invalid, goal, replacement)
    requires i < |b| && p.need > 0 && IsFollower(b[i])
    ensures var uc := p.uc * 0x40 + b[i] % 0x40;
      if p.need > 1 then
        OnTrack(b, i + 1, error, Pending(p.need - 1, uc, p.minUc), done, invalid, goal, replacement)
      else
        OnTrack(b, i + 1, error, Pending(0, uc, p.minUc), done + ValueUnits(uc, p.minUc, replacement),
                invalid + (if IsRejected(uc, p.minUc) then 1 else 0), goal, replacement)
  {
    var uc := p.uc * 0x40 + b[i] % 0x40;
    assert Follow(b, i, p.need, p.uc) == Follow(b, i + 1, p.need - 1, uc);
    if p.need == 1 {
      assert Follow(b, i + 1, 0, uc) == Complete(uc, i + 1);
      AfterAfter(done, invalid, ValueUnits(uc, p.minUc, replacement), if IsRejected(uc, p.minUc) then 1 else 0,
                 Scan(b, i + 1, replacement));
    }
  }

  /** A broken sequence: one replacement, then back to the byte behind its lead. */
  lemma TrackBroken(b: seq<Byte>, i: int, error: int, p: Pending, done: seq<Unit>, invalid: nat,
                    goal: Scanned, replacement: Unit)
    requires OnTrack(b, i, error, p, done, invalid, goal, replacement)
    requires i < |b| && p.need > 0 && !IsFollower(b[i])
    ensures OnTrack(b, error + 1, error, Pending(0, p.uc, p.minUc), done + [replacement], invalid + 1,
                    goal, replacement)
  {
    assert Follow(b, i, p.need, p.uc) == Broken;
    AfterAfter(done, invalid, [replacement], 1, Scan(b, error + 1, replacement));
  }

  /** A byte between sequences: a character, a stray byte, or the lead of a sequence. */
  lemma TrackBetween(b: seq<Byte>, i: int, error: int, p: Pending, done: seq<Unit>, invalid: nat,
                     goal: Scanned, replacement: Unit)
    requires OnTrack(b, i, error, p, done, invalid, goal, replacement)
    requires i < |b| && p.need == 0
    ensures b[i] < 0x80 ==> OnTrack(b, i + 1, error, p, done + [b[i]], invalid, goal, replacement)
    ensures b[i] >= 0x80 && FollowersOf(b[i]) == 0 ==>
      OnTrack(b, i + 1, error, p, done + [replacement], invalid + 1, goal, replacement)
    ensures FollowersOf(b[i]) > 0 ==> OnTrack(b, i + 1, i, Opened(b[i]), done, invalid, goal, replacement)
  {
    if FollowersOf(b[i]) == 0 {
      AfterAfter(done, invalid, [if b[i] < 0x80 then b[i] else replacement], if b[i] < 0x80 then 0 else 1,
                 Scan(b, i + 1, replacement));
    }
  }

  /** Writes a complete sequence: a surrogate pair, a replacement or a unit. */
  method WriteValue(result: seq<Unit>, invalid: nat, uc: nat, minUc: nat, replacement: Unit)
      returns (result': seq<Unit>, invalid': nat)
    ensures result' == result + ValueUnits(uc, minUc, replacement)
    ensures invalid' == invalid + (if IsRejected(uc, minUc) then 1 else 0)
  {
    if uc > 0xffff && uc < 0x11_0000 {
      return result + [High(uc), Low(uc)], invalid;
    } else if uc < minUc || (uc >= 0xd800 && uc <= 0xdfff) || uc >= 0xfffe {
      return result + [replacement], invalid + 1;
    } else {
      return result + [uc], invalid;
    }
  }

  /** Where decoding stands: at the lead of the sequence being read, or between sequences. */
  function Anchor(i: int, error: int, p: Pending): int {
    if p.need > 0 then error else i
  }

  /** One turn of the byte loop. A turn that rewinds leaves the sequence that began at `error` for good. */
  method DecodeByte(b: seq<Byte>, i: int, error: int, p: Pending, done: seq<Unit>, invalid: nat, replacement: Unit,
                    ghost goal: Scanned)
      returns (i': int, error': int, q: Pending, done': seq<Unit>, invalid': nat, ghost rewound: bool)
    requires OnTrack(b, i, error, p, done, invalid, goal, replacement) && i < |b|
    ensures OnTrack(b, i', error', q, done', invalid', goal, replacement)
    ensures error' == error || error' >= 0
    ensures if rewound then Anchor(i', error', q) == error + 1 && p.need > 0
            else Anchor(i', error', q) > Anchor(i, error, p)
                 || (Anchor(i', error', q) == Anchor(i, error, p) && q.need > 0 && (p.need > 0 ==> i' > i))
  {
    var ch := b[i];
    i', error', q, done', invalid', rewound := i, error, p, done, invalid, false;
    if p.need > 0 {
      if IsFollower(ch) {
        TrackFollower(b, i, error, p, done, invalid, goal, replacement);
        q := Pending(p.need - 1, p.uc * 0x40 + ch % 0x40, p.minUc);
        if q.need == 0 {
          done', invalid' := WriteValue(done, invalid, q.uc, q.minUc, replacement);
        }
      } else {
        TrackBroken(b, i, error, p, done, invalid, goal, replacement);
        i', rewound := error, true;
        done', invalid', q := done + [replacement], invalid + 1, Pending(0, p.uc, p.minUc);
      }
    } else {
      TrackBetween(b, i, error, p, done, invalid, goal, replacement);
      if ch < 128 {
        done' := done + [ch];
      } else if 0xc0 <= ch < 0xe0 {
        q, error' := Pending(1, ch % 0x20, 0x80), i;
      } else if 0xe0 <= ch < 0xf0 {
        q, error' := Pending(2, ch % 0x10, 0x800), i;
      } else if 0xf0 <= ch < 0xf8 {
        q, error' := Pending(3, ch % 0x8, 0x1_0000), i;
      } else {
        done', invalid' := done + [replacement], invalid + 1;
      }
    }
    i' := i' + 1;
  }

  /** The byte loop. Without a state, every byte of an unfinished sequence at the end is replaced. */
  method DecodeLoop(p: Pending, b: seq<Byte>, replacement: Unit, stateless: bool)
      returns (result: seq<Unit>, invalid: nat, q: Pending, ghost rewinds: seq<int>)
    requires p.Valid() && (stateless ==> p.need == 0)
    ensures var r := ScanChunk(p, b, replacement);
      && result == r.units + (if stateless then seq(r.tail, _ => replacement) else [])
      && invalid == r.invalid + (if stateless then r.tail else 0)
      && q.Valid() && q.need == r.pending.need && (q.need > 0 ==> q == r.pending)
    ensures forall i, j :: 0 <= i < j < |rewinds| ==> rewinds[i] < rewinds[j]
    ensures forall i :: 0 <= i < |rewinds| ==> -1 <= rewinds[i] < |b|
  {
    q := p;
    var error, i := -1, 0;
    result, invalid, rewinds := [], 0, [];
    ghost var goal := ScanChunk(p, b, replacement);
    while i < |b|
      invariant OnTrack(b, i, error, q, result, invalid, goal, replacement)
      invariant forall k :: 0 <= k < |rewinds| ==> -1 <= rewinds[k] < Anchor(i, error, q)
      invariant forall k, l :: 0 <= k < l < |rewinds| ==> rewinds[k] < rewinds[l]
      invariant stateless ==> q.need == 0 || error >= 0
      decreases |b| - Anchor(i, error, q), if q.need > 0 then 0 else 1, |b| - i
    {
      ghost var rewound, lead := false, error;
      i, error, q, result, invalid, rewound := DecodeByte(b, i, error, q, result, invalid, replacement, goal);
      if rewound {
        rewinds := rewinds + [lead];
      }
    }
    if stateless && q.need > 0 {
      result, invalid := ReplaceTail(result, invalid, |b| - error, replacement);
    }
  }

  method ReplaceTail(result: seq<Unit>, invalid: nat, tail: nat, replacement: Unit)
      returns (result': seq<Unit>, invalid': nat)
    ensures result' == result + seq(tail, _ => replacement) && invalid' == invalid + tail
  {
    result', invalid' := result, invalid;
    for k := 0 to tail
      invariant result' == result + seq(k, _ => replacement) && invalid' == invalid + k
    {
      result', invalid' := result' + [replacement], invalid' + 1;
    }
  }
}

/**
 * The UTF-16 converters of qutfcodec.cpp. A decoder that detects the byte order may be fed in
 * pieces; one with a fixed order loses its byte-order mark when that is cut.
 */
module Utf16Codec {
  import opened Converter
  import opened Units

  datatype Endianness = Detect | BE | LE

  const BYTE_ORDER_MARK: Unit := 0xfeff
  const BYTE_ORDER_SWAPPED: Unit := 0xfffe

  // ---------- Units and bytes ----------

  function UnitOf(endian: Endianness, first: Byte, second: Byte): Unit {
    if endian == LE then second * 0x100 + first else first * 0x100 + second
  }

  function Swap(u: Unit): Unit {
    u % 0x100 * 0x100 + u / 0x100
  }

  function UnitBytes(endian: Endianness, u: Unit): seq<Byte> {
    if endian == BE then [u / 0x100, u % 0x100] else [u % 0x100, u / 0x100]
  }

  function Bytes(endian: Endianness, s: seq<Unit>): seq<Byte> {
    if s == [] then [] else Bytes(endian, s[..|s| - 1]) + UnitBytes(endian, s[|s| - 1])
  }

  // ---------- The decoder ----------

  /** The decoder's variables within a call; `units` is what it has written. */
  datatype Reader = Reader(headerDone: bool, endian: Endianness, half: Option<Byte>, units: seq<Unit>)

  /** The first unit settles the byte order, and a mark in it is dropped. */
  function ReadFirst(r: Reader, u: Unit, host: Endianness): Reader {
    if r.endian == Detect then
      if u == BYTE_ORDER_SWAPPED then r.(endian := LE)
      else if u == BYTE_ORDER_MARK then r.(endian := BE)
      else if host == BE then r.(endian := BE, units := r.units + [u])
      else r.(endian := LE, units := r.units + [Swap(u)])
    else if u != BYTE_ORDER_MARK then r.(units := r.units + [u])
    else r
  }

  function ReadByte(r: Reader, ch: Byte, host: Endianness): Reader {
    match r.half
    case None => r.(half := Some(ch))
    case Some(buf) =>
      var u := UnitOf(r.endian, buf, ch);
      var r' := if r.headerDone then r.(units := r.units + [u]) else ReadFirst(r, u, host);
      r'.(headerDone := true, half := None)
  }

  function Read(r: Reader, b: seq<Byte>, host: Endianness): Reader {
    if b == [] then r else ReadByte(Read(r, b[..|b| - 1], host), b[|b| - 1], host)
  }

  /** What is carried from call to call. */
  datatype DecoderState = DecoderState(ignoreHeader: bool, endian: Endianness, half: Option<Byte>)

  function Start(e: Endianness, host: Endianness, st: DecoderState): Reader {
    var endian := if e == Detect then st.endian else e;
    Reader(st.ignoreHeader, if st.ignoreHeader && endian == Detect then host else endian, st.half, [])
  }

  function Finish(st: DecoderState, r: Reader): DecoderState {
    DecoderState(st.ignoreHeader || r.endian != Detect, r.endian, r.half)
  }

  function DecodeCall(e: Endianness, host: Endianness, st: DecoderState, b: seq<Byte>): (seq<Unit>, DecoderState) {
    var r := Read(Start(e, host, st), b, host);
    (r.units, Finish(st, r))
  }

  function DecodeCalls(e: Endianness, host: Endianness, st: DecoderState, chunks: seq<seq<Byte>>)
    : (seq<Unit>, DecoderState)
    decreases |chunks|
  {
    if chunks == [] then ([], st)
    else
      var (units, st') := DecodeCall(e, host, st, chunks[0]);
      var (more, st'') := DecodeCalls(e, host, st', chunks[1..]);
      (units + more, st'')
  }

  // ---------- Calls in sequence ----------

  lemma {:induction false} ReadConcat(r: Reader, a: seq<Byte>, b: seq<Byte>, host: Endianness)
    ensures Read(r, a + b, host) == Read(Read(r, a, host), b, host)
  {
    if b == [] {
      assert a + b == a;
    } else {
      assert (a + b)[..|a + b| - 1] == a + b[..|b| - 1];
      ReadConcat(r, a, b[..|b| - 1], host);
    }
  }

  /** What was written before plays no part in reading on. */
  lemma {:induction false} ReadPrefix(r: Reader, b: seq<Byte>, host: Endianness)
    ensures var t := Read(r.(units := []), b, host);
      Read(r, b, host) == t.(units := r.units + t.units)
  {
    if b != [] {
      ReadPrefix(r, b[..|b| - 1], host);
      ReadBytePrefix(r.units, Read(r.(units := []), b[..|b| - 1], host), b[|b| - 1], host);
    }
  }

  lemma ReadBytePrefix(units: seq<Unit>, r: Reader, ch: Byte, host: Endianness)
    ensures var t := ReadByte(r, ch, host);
      ReadByte(r.(units := units + r.units), ch, host) == t.(units := units + t.units)
  {
    var t := ReadByte(r, ch, host);
    if t.units != r.units {
      var u := t.units[|r.units|];
      assert units + (r.units + [u]) == (units + r.units) + [u];
    }
  }

  /** Under detection, the order is settled exactly when the header is done. */
  lemma {:induction false} DetectedWhenDone(r: Reader, b: seq<Byte>, host: Endianness)
    requires r.headerDone <==> r.endian != Detect
    ensures var t := Read(r, b, host); t.headerDone <==> t.endian != Detect
  {
    if b != [] {
      DetectedWhenDone(r, b[..|b| - 1], host);
    }
  }

  /** A state that a fresh detecting decoder can have reached. */
  predicate IsDetecting(st: DecoderState) {
    st.endian != Detect ==> st.ignoreHeader
  }

  lemma DetectTwoCalls(host: Endianness, st: DecoderState, a: seq<Byte>, b: seq<Byte>)
    requires host != Detect && IsDetecting(st)
    ensures var (units, st') := DecodeCall(Detect, host, st, a);
      var (more, st'') := DecodeCall(Detect, host, st', b);
      DecodeCall(Detect, host, st, a + b) == (units + more, st'') && IsDetecting(st')
  {
    var r0 := Start(Detect, host, st);
    var r1 := Read(r0, a, host);
    DetectedWhenDone(r0, a, host);
    DetectedWhenDone(r1, b, host);
    assert Start(Detect, host, Finish(st, r1)) == r1.(units := []);
    ReadConcat(r0, a, b, host);
    ReadPrefix(r1, b, host);
  }

  /** A detecting decoder fed in pieces writes the same units and ends in the same state. */
  lemma {:induction false} DetectingIsSplitIndependent(host: Endianness, st: DecoderState, chunks: seq<seq<Byte>>)
    requires host != Detect && IsDetecting(st) && chunks != []
    ensures DecodeCalls(Detect, host, st, chunks) == DecodeCall(Detect, host, st, Flatten(chunks))
    decreases |chunks|
  {
    var first, rest := chunks[0], chunks[1..];
    var (units, st') := DecodeCall(Detect, host, st, first);
    if rest == [] {
      assert Flatten(chunks) == first + [] == first;
      assert DecodeCalls(Detect, host, st', rest) == ([], st') && units + [] == units;
    } else {
      DetectTwoCalls(host, st, first, Flatten(rest));
      DetectingIsSplitIndependent(host, st', rest);
    }
  }

  // ---------- A fixed byte order ----------

  function HalfBytes(half: Option<Byte>): seq<Byte> {
    match half case None => [] case Some(b) => [b]
  }

  /** The bytes complete a first unit and that unit is a byte-order mark. */
  predicate BeginsWithMark(e: Endianness, x: seq<Byte>) {
    |x| >= 2 && UnitOf(e, x[0], x[1]) == BYTE_ORDER_MARK
  }

  /**
   * After the bytes `x`, a reader `t` that expects the header and a reader `t'` that takes it for
   * done agree in all but the mark.
   */
  ghost predicate MarkApart(e: Endianness, x: seq<Byte>, t: Reader, t': Reader) {
    && t.endian == e && (t.headerDone <==> |x| >= 2)
    && (|x| < 2 ==> t.units == [] && t.half == (if x == [] then None else Some(x[0])))
    && t' == t.(headerDone := true, units := (if BeginsWithMark(e, x) then [BYTE_ORDER_MARK] else []) + t.units)
  }

  lemma MarkStep(e: Endianness, x: seq<Byte>, t: Reader, t': Reader, ch: Byte, host: Endianness)
    requires e != Detect && MarkApart(e, x, t, t')
    ensures MarkApart(e, x + [ch], ReadByte(t, ch, host), ReadByte(t', ch, host))
  {
    if |x| >= 2 {
      ReadBytePrefix(if BeginsWithMark(e, x) then [BYTE_ORDER_MARK] else [], t, ch, host);
    }
  }

  /** Reading with the header already done differs in the mark alone. */
  lemma {:induction false} ReadMark(r: Reader, b: seq<Byte>, host: Endianness)
    requires !r.headerDone && r.endian != Detect && r.units == []
    ensures MarkApart(r.endian, HalfBytes(r.half) + b, Read(r, b, host), Read(r.(headerDone := true), b, host))
  {
    if b != [] {
      var init := b[..|b| - 1];
      ReadMark(r, init, host);
      MarkStep(r.endian, HalfBytes(r.half) + init, Read(r, init, host), Read(r.(headerDone := true), init, host),
               b[|b| - 1], host);
      assert HalfBytes(r.half) + b == HalfBytes(r.half) + init + [b[|b| - 1]];
    }
  }

  lemma {:induction false} HeaderStaysDone(r: Reader, b: seq<Byte>, host: Endianness)
    requires r.headerDone
    ensures Read(r, b, host).headerDone && Read(r, b, host).endian == r.endian
  {
    if b != [] {
      HeaderStaysDone(r, b[..|b| - 1], host);
    }
  }

  /**
   * With a fixed byte order, cutting the data changes nothing exactly when no header is expected,
   * the first piece completes a unit, or the first unit of all is not a mark: after any call the
   * decoder takes the header for done.
   */
  lemma FixedSplitExactly(e: Endianness, host: Endianness, st: DecoderState, a: seq<Byte>, b: seq<Byte>)
    requires e != Detect
    ensures var (units, st') := DecodeCall(e, host, st, a);
      var (more, st'') := DecodeCall(e, host, st', b);
      var x := HalfBytes(st.half) + a;
      DecodeCall(e, host, st, a + b) == (units + more, st'')
      <==> st.ignoreHeader || |x| >= 2 || !BeginsWithMark(e, x + b)
  {
    var r0, x := Start(e, host, st), HalfBytes(st.half) + a;
    var r1 := Read(r0, a, host);
    var r2 := Start(e, host, Finish(st, r1));
    ReadConcat(r0, a, b, host);
    ReadPrefix(r1, b, host);
    if st.ignoreHeader {
      HeaderStaysDone(r0, a, host);
      HeaderStaysDone(r1, b, host);
    } else {
      ReadMark(r0, a, host);
      if |x| >= 2 {
        HeaderStaysDone(r1, b, host);
      } else {
        ReadMark(r1, b, host);
        assert HalfBytes(r1.half) + b == x + b;
      }
    }
  }

  // ---------- The round trip ----------

  function OrderOf(e: Endianness, host: Endianness): Endianness {
    if e == Detect then host else e
  }

  function EncodeCall(e: Endianness, host: Endianness, ignoreHeader: bool, s: seq<Unit>): seq<Byte> {
    var endian := OrderOf(e, host);
    (if ignoreHeader then [] else UnitBytes(endian, BYTE_ORDER_MARK)) + Bytes(endian, s)
  }

  lemma ReadUnit(r: Reader, u: Unit, host: Endianness)
    requires r.headerDone && r.endian != Detect && r.half.None?
    ensures Read(r, UnitBytes(r.endian, u), host) == r.(units := r.units + [u])
  {
    ReadTwo(r, UnitBytes(r.endian, u), host);
  }

  lemma ReadTwo(r: Reader, b: seq<Byte>, host: Endianness)
    requires |b| == 2
    ensures Read(r, b, host) == ReadByte(ReadByte(r, b[0], host), b[1], host)
  {
    assert b[..1][..0] == [] && b[..1][0] == b[0];
    assert Read(r, b[..1][..0], host) == r;
    assert Read(r, b[..1], host) == ReadByte(r, b[0], host);
  }

  lemma {:induction false} ReadUnits(r: Reader, s: seq<Unit>, host: Endianness)
    requires r.headerDone && r.endian != Detect && r.half.None?
    ensures Read(r, Bytes(r.endian, s), host) == r.(units := r.units + s)
  {
    if s != [] {
      var init, last := s[..|s| - 1], s[|s| - 1];
      ReadUnits(r, init, host);
      ReadUnit(r.(units := r.units + init), last, host);
      ReadConcat(r, Bytes(r.endian, init), UnitBytes(r.endian, last), host);
      assert r.units + init + [last] == r.units + s;
    }
  }

  /** Every string comes back, with or without header, in every byte order. */
  lemma RoundTrip(e: Endianness, host: Endianness, ignoreHeader: bool, s: seq<Unit>)
    requires host != Detect
    ensures DecodeCall(e, host, DecoderState(ignoreHeader, Detect, None), EncodeCall(e, host, ignoreHeader, s))
         == (s, DecoderState(true, OrderOf(e, host), None))
  {
    var endian := OrderOf(e, host);
    var r0 := Start(e, host, DecoderState(ignoreHeader, Detect, None));
    var mark := if ignoreHeader then [] else UnitBytes(endian, BYTE_ORDER_MARK);
    var r1 := Reader(true, endian, None, []);
    if !ignoreHeader {
      ReadTwo(r0, mark, host);
    }
    assert Read(r0, mark, host) == r1;
    ReadUnits(r1, s, host);
    ReadConcat(r0, mark, Bytes(endian, s), host);
    assert [] + s == s;
  }

  /** Under detection, the bytes may be cut anywhere in between. */
  lemma RoundTripInPieces(host: Endianness, ignoreHeader: bool, s: seq<Unit>, chunks: seq<seq<Byte>>)
    requires host != Detect && chunks != [] && Flatten(chunks) == EncodeCall(Detect, host, ignoreHeader, s)
    ensures DecodeCalls(Detect, host, DecoderState(ignoreHeader, Detect, None), chunks)
         == (s, DecoderState(true, host, None))
  {
    RoundTrip(Detect, host, ignoreHeader, s);
    DetectingIsSplitIndependent(host, DecoderState(ignoreHeader, Detect, None), chunks);
  }

  // ---------- The converters ----------

  function EndiannessOf(word: nat): Endianness {
    if word == 1 then BE else if word == 2 then LE else Detect
  }

  function WordOf(endian: Endianness): (word: nat)
    ensures EndiannessOf(word) == endian && word <= 2
  {
    match endian case Detect => 0 case BE => 1 case LE => 2
  }

  /** A carried byte is a byte, and a stored order is one of the three. */
  predicate StateValid(state: ConverterState)
    reads state
  {
    state.data0 <= 2 && (state.remainingChars != 0 ==> state.data1 < 0x100)
  }

  function DecoderStateOf(state: ConverterState): DecoderState
    requires StateValid(state)
    reads state
  {
    DecoderState(state.ignoreHeader, EndiannessOf(state.data0),
                 if state.remainingChars != 0 then Some(state.data1) else None)
  }

  method ConvertFromUnicode(e: Endianness, host: Endianness, uc: seq<Unit>, state: ConverterState?)
      returns (data: seq<Byte>)
    requires host != Detect
    modifies state
    ensures data == EncodeCall(e, host, if state == null then false else old(state.ignoreHeader), uc)
    ensures state != null ==> state.ignoreHeader && state.remainingChars == 0
    ensures state != null ==> unchanged(state`invalidToNull, state`invalidChars, state`data0, state`data1)
  {
    var endian := e;
    if e == Detect {
      endian := host;
    }
    data := [];
    if state == null || !state.ignoreHeader {
      data := if endian == BE then [BYTE_ORDER_MARK / 0x100, BYTE_ORDER_MARK % 0x100]
              else [BYTE_ORDER_MARK % 0x100, BYTE_ORDER_MARK / 0x100];
    }
    var body := UnitsToBytes(endian, uc);
    data := data + body;
    if state != null {
      state.remainingChars := 0;
      state.ignoreHeader := true;
    }
  }

  method UnitsToBytes(endian: Endianness, uc: seq<Unit>) returns (data: seq<Byte>)
    ensures data == Bytes(endian, uc)
  {
    data := [];
    for i := 0 to |uc|
      invariant data == Bytes(endian, uc[..i])
    {
      assert uc[..i + 1][..i] == uc[..i];
      if endian == BE {
        data := data + [uc[i] / 0x100, uc[i] % 0x100];
      } else {
        data := data + [uc[i] % 0x100, uc[i] / 0x100];
      }
    }
    assert uc[..|uc|] == uc;
  }

  method ConvertToUnicode(e: Endianness, host: Endianness, chars: seq<Byte>, state: ConverterState?)
      returns (result: seq<Unit>)
    requires host != Detect && (state != null ==> StateValid(state))
    modifies state
    ensures state == null ==> result == DecodeCall(e, host, DecoderState(false, Detect, None), chars).0
    ensures state != null ==> StateValid(state) && unchanged(state`invalidToNull, state`invalidChars)
    ensures state != null ==>
      (result, DecoderStateOf(state)) == DecodeCall(e, host, old(DecoderStateOf(state)), chars)
  {
    ghost var before := if state == null then DecoderState(false, Detect, None) else DecoderStateOf(state);
    var endian, half, buf: Byte, headerDone := e, false, 0, false;
    if state != null {
      headerDone := state.ignoreHeader;
      if endian == Detect {
        endian := EndiannessOf(state.data0);
      }
      if state.remainingChars != 0 {
        half := true;
        buf := state.data1;
      }
    }
    if headerDone && endian == Detect {
      endian := host;
    }
    var r := Reader(headerDone, endian, if half then Some(buf) else None, []);
    assert Start(e, host, before) == r;
    endian, half, buf, result := DecodeLoop(r, host, chars);
    if state != null {
      if endian != Detect {
        state.ignoreHeader := true;
      }
      state.data0 := WordOf(endian);
      if half {
        state.remainingChars := 1;
        state.data1 := buf;
      } else {
        state.remainingChars := 0;
        state.data1 := 0;
      }
    }
  }

  /** The byte loop. */
  method DecodeLoop(r: Reader, host: Endianness, chars: seq<Byte>)
      returns (endian: Endianness, half: bool, buf: Byte, result: seq<Unit>)
    requires r.units == []
    ensures var t := Read(r, chars, host);
      t.endian == endian && t.half == (if half then Some(buf) else None) && t.units == result
  {
    var headerDone := r.headerDone;
    endian, half, result := r.endian, r.half.Some?, [];
    buf := if r.half.Some? then r.half.value else 0;
    for i := 0 to |chars|
      invariant Read(r, chars[..i], host) == Reader(headerDone, endian, if half then Some(buf) else None, result)
    {
      assert chars[..i + 1][..i] == chars[..i];
      if half {
        var ch := if endian == LE then chars[i] * 0x100 + buf else buf * 0x100 + chars[i];
        if !headerDone {
          if endian == Detect {
            if ch == BYTE_ORDER_SWAPPED {
              endian := LE;
            } else if ch == BYTE_ORDER_MARK {
              endian := BE;
            } else {
              if host == BE {
                endian := BE;
              } else {
                endian := LE;
                ch := ch / 0x100 + ch % 0x100 * 0x100;
              }
              result := result + [ch];
            }
          } else if ch != BYTE_ORDER_MARK {
            result := result + [ch];
          }
          headerDone := true;
        } else {
          result := result + [ch];
        }
        half := false;
      } else {
        buf := chars[i];
        half := true;
      }
    }
    assert chars[..|chars|] == chars;
  }
}

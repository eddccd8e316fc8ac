/**
 * What a fresh UTF-16 decoder reads from any bytes, stated without its reader: which byte order it
 * settles on, which mark it drops, and which strings without a header come back.
 */
module Utf16Reading {
  import opened Units
  import opened Utf16Codec

  // ---------- Bytes taken two by two ----------

  /** The units of all whole pairs of bytes. */
  function UnitsIn(e: Endianness, b: seq<Byte>): (s: seq<Unit>)
    ensures |s| == |b| / 2
  {
    seq(|b| / 2, k requires 0 <= k < |b| / 2 => UnitOf(e, b[2 * k], b[2 * k + 1]))
  }

  function OddByte(b: seq<Byte>): Option<Byte> {
    if |b| % 2 == 1 then Some(b[|b| - 1]) else None
  }

  lemma UnitsInNext(e: Endianness, b: seq<Byte>)
    requires b != []
    ensures UnitsIn(e, b) == UnitsIn(e, b[..|b| - 1])
      + if |b| % 2 == 0 then [UnitOf(e, b[|b| - 2], b[|b| - 1])] else []
  {
    var init := b[..|b| - 1];
    assert |b| % 2 == 0 ==> |b| / 2 == |init| / 2 + 1;
    assert |b| % 2 == 1 ==> |b| / 2 == |init| / 2;
    forall k | 0 <= k < |init| / 2
      ensures UnitsIn(e, b)[k] == UnitsIn(e, init)[k]
    {
      assert b[2 * k] == init[2 * k] && b[2 * k + 1] == init[2 * k + 1];
    }
  }

  /** Behind the header, bytes are read two by two. */
  lemma {:induction false} ReadPairs(r: Reader, b: seq<Byte>, host: Endianness)
    requires r.headerDone && r.half.None?
    ensures Read(r, b, host) == r.(units := r.units + UnitsIn(r.endian, b), half := OddByte(b))
  {
    if b == [] {
      assert r.units + UnitsIn(r.endian, b) == r.units;
    } else {
      ReadPairs(r, b[..|b| - 1], host);
      UnitsInNext(r.endian, b);
    }
  }

  // ---------- What a fresh decoder reads ----------

  const FRESH := DecoderState(false, Detect, None)

  /** The order that the first two bytes settle: that of the mark they are, or else the host's. */
  function SettledOrder(e: Endianness, host: Endianness, first: Byte, second: Byte): Endianness {
    if e != Detect then e
    else if first == 0xff && second == 0xfe then LE
    else if first == 0xfe && second == 0xff then BE
    else host
  }

  /** They are a byte-order mark in that order. */
  predicate IsMark(order: Endianness, first: Byte, second: Byte) {
    if order == LE then first == 0xff && second == 0xfe else first == 0xfe && second == 0xff
  }

  /** From two bytes on, the order is settled, a mark at the front is dropped, and all else is read in that order. */
  lemma ReadsExactly(e: Endianness, host: Endianness, b: seq<Byte>)
    requires host != Detect
    ensures |b| < 2 ==> DecodeCall(e, host, FRESH, b) == ([], DecoderState(e != Detect, e, OddByte(b)))
    ensures |b| >= 2 ==>
      var order := SettledOrder(e, host, b[0], b[1]);
      DecodeCall(e, host, FRESH, b)
      == (UnitsIn(order, if IsMark(order, b[0], b[1]) then b[2..] else b), DecoderState(true, order, OddByte(b)))
  {
    if |b| >= 2 {
      ReadsMany(e, host, b);
    } else if |b| == 1 {
      ReadsOne(e, host, b[0]);
      assert b == [b[0]];
    }
  }

  lemma ReadsOne(e: Endianness, host: Endianness, ch: Byte)
    requires host != Detect
    ensures Read(Start(e, host, FRESH), [ch], host) == Start(e, host, FRESH).(half := Some(ch))
  {
    assert [ch][..0] == [];
    assert Read(Start(e, host, FRESH), [ch][..0], host) == Start(e, host, FRESH);
  }

  lemma ReadsMany(e: Endianness, host: Endianness, b: seq<Byte>)
    requires host != Detect && |b| >= 2
    ensures var order := SettledOrder(e, host, b[0], b[1]);
      Read(Start(e, host, FRESH), b, host)
      == Reader(true, order, OddByte(b), UnitsIn(order, if IsMark(order, b[0], b[1]) then b[2..] else b))
  {
    var r0, order := Start(e, host, FRESH), SettledOrder(e, host, b[0], b[1]);
    assert b == b[..2] + b[2..];
    ReadConcat(r0, b[..2], b[2..], host);
    FirstTwo(e, host, b[..2]);
    ReadPairs(Read(r0, b[..2], host), b[2..], host);
    FirstUnitIn(order, b);
    assert [] + UnitsIn(order, b[2..]) == UnitsIn(order, b[2..]);
  }

  lemma FirstUnitIn(e: Endianness, b: seq<Byte>)
    requires |b| >= 2
    ensures UnitsIn(e, b) == [UnitOf(e, b[0], b[1])] + UnitsIn(e, b[2..]) && OddByte(b) == OddByte(b[2..])
  {
    var rest := b[2..];
    forall k | 0 <= k < |rest| / 2
      ensures UnitsIn(e, b)[k + 1] == UnitsIn(e, rest)[k]
    {
      assert b[2 * (k + 1)] == rest[2 * k] && b[2 * (k + 1) + 1] == rest[2 * k + 1];
    }
  }

  lemma FirstTwo(e: Endianness, host: Endianness, b: seq<Byte>)
    requires host != Detect && |b| == 2
    ensures var order := SettledOrder(e, host, b[0], b[1]);
      Read(Start(e, host, FRESH), b, host)
      == Reader(true, order, None, if IsMark(order, b[0], b[1]) then [] else [UnitOf(order, b[0], b[1])])
  {
    ReadTwo(Start(e, host, FRESH), b, host);
    MarkBytes(UnitOf(BE, b[0], b[1]), b[0], b[1]);
    MarkBytes(UnitOf(LE, b[0], b[1]), b[1], b[0]);
  }

  lemma MarkBytes(u: Unit, high: Byte, low: Byte)
    requires u == high * 0x100 + low
    ensures u == 0xfeff <==> high == 0xfe && low == 0xff
    ensures u == 0xfffe <==> high == 0xff && low == 0xfe
    ensures Swap(u) == low * 0x100 + high
  {}

  // ---------- Strings without a header ----------

  lemma {:induction false} UnitsInBytes(e: Endianness, s: seq<Unit>)
    requires e != Detect
    ensures |Bytes(e, s)| == 2 * |s| && UnitsIn(e, Bytes(e, s)) == s
  {
    if s == [] {
      assert UnitsIn(e, []) == [];
    } else {
      var init, u := s[..|s| - 1], s[|s| - 1];
      UnitsInBytes(e, init);
      UnitsInTwoMore(e, Bytes(e, init), UnitBytes(e, u));
      UnitOfBytes(e, u);
      assert s == init + [u];
    }
  }

  lemma {:induction false} FirstUnitBytes(e: Endianness, s: seq<Unit>)
    requires s != []
    ensures |Bytes(e, s)| >= 2 && Bytes(e, s)[0] == UnitBytes(e, s[0])[0] && Bytes(e, s)[1] == UnitBytes(e, s[0])[1]
  {
    if |s| > 1 {
      FirstUnitBytes(e, s[..|s| - 1]);
    }
  }

  lemma UnitOfBytes(e: Endianness, u: Unit)
    requires e != Detect
    ensures UnitOf(e, UnitBytes(e, u)[0], UnitBytes(e, u)[1]) == u
  {}

  lemma UnitsInTwoMore(e: Endianness, b: seq<Byte>, two: seq<Byte>)
    requires |b| % 2 == 0 && |two| == 2
    ensures UnitsIn(e, b + two) == UnitsIn(e, b) + [UnitOf(e, two[0], two[1])]
  {
    UnitsInNext(e, b + [two[0]]);
    UnitsInNext(e, (b + [two[0]]) + [two[1]]);
    TwoAppended(b, two);
  }

  lemma TwoAppended(b: seq<Byte>, two: seq<Byte>)
    requires |two| == 2
    ensures var odd := b + [two[0]]; var all := odd + [two[1]];
      && all == b + two && all[..|all| - 1] == odd && odd[..|odd| - 1] == b
      && all[|all| - 2] == two[0] && all[|all| - 1] == two[1]
  {}

  /**
   * A detecting decoder gives back what is written without a header in the host's order exactly
   * when it does not begin with a mark or with a mark in the other order.
   */
  lemma HeadlessExactly(host: Endianness, s: seq<Unit>)
    requires host != Detect
    ensures DecodeCall(Detect, host, FRESH, Bytes(host, s)).0 == s <==> s == [] || s[0] !in {0xfeff, 0xfffe}
    ensures s != [] && s[0] !in {0xfeff, 0xfffe} ==>
      DecodeCall(Detect, host, FRESH, Bytes(host, s)) == (s, DecoderState(true, host, None))
  {
    var b := Bytes(host, s);
    ReadsExactly(Detect, host, b);
    UnitsInBytes(host, s);
    if s != [] {
      FirstBytes(host, s);
    }
  }

  lemma FirstBytes(e: Endianness, s: seq<Unit>)
    requires e != Detect && s != []
    ensures |Bytes(e, s)| >= 2
    ensures IsMark(e, Bytes(e, s)[0], Bytes(e, s)[1]) <==> s[0] == 0xfeff
    ensures IsMark(if e == BE then LE else BE, Bytes(e, s)[0], Bytes(e, s)[1]) <==> s[0] == 0xfffe
  {
    FirstUnitBytes(e, s);
    MarkBytes(s[0], s[0] / 0x100, s[0] % 0x100);
  }

  /** A decoder with a fixed order does so exactly when it does not begin with a mark. */
  lemma HeadlessFixedExactly(e: Endianness, host: Endianness, s: seq<Unit>)
    requires host != Detect && e != Detect
    ensures DecodeCall(e, host, FRESH, Bytes(e, s)).0 == s <==> s == [] || s[0] != 0xfeff
  {
    ReadsExactly(e, host, Bytes(e, s));
    UnitsInBytes(e, s);
    if s != [] {
      FirstBytes(e, s);
    }
  }

  /** The bytes of U+0061 in both orders, and under detection with and without marks. */
  lemma OrderExample()
    ensures Bytes(BE, [0x61]) == [0, 0x61] && Bytes(LE, [0x61]) == [0x61, 0]
    ensures DecodeCall(Detect, LE, FRESH, [0x61, 0]).0 == [0x61] && DecodeCall(Detect, BE, FRESH, [0, 0x61]).0 == [0x61]
    ensures DecodeCall(Detect, LE, FRESH, [0xfe, 0xff, 0, 0x61]).0 == [0x61]
    ensures DecodeCall(Detect, BE, FRESH, [0xff, 0xfe, 0x61, 0]).0 == [0x61]
  {
    LetterBytes();
    LetterOnly(LE, [0x61, 0]);
    LetterOnly(BE, [0, 0x61]);
    MarkAndLetter(LE, [0xfe, 0xff, 0, 0x61]);
    MarkAndLetter(BE, [0xff, 0xfe, 0x61, 0]);
  }

  lemma LetterBytes()
    ensures Bytes(BE, [0x61]) == [0, 0x61] && Bytes(LE, [0x61]) == [0x61, 0]
    ensures UnitsIn(BE, [0, 0x61]) == [0x61] == UnitsIn(LE, [0x61, 0])
  {
    assert [0x61][..0] == [];
  }

  lemma LetterOnly(host: Endianness, b: seq<Byte>)
    requires host != Detect && b == Bytes(host, [0x61])
    ensures DecodeCall(Detect, host, FRESH, b).0 == [0x61]
  {
    HeadlessExactly(host, [0x61]);
  }

  lemma MarkAndLetter(host: Endianness, b: seq<Byte>)
    requires host != Detect && |b| == 4
    requires var order := SettledOrder(Detect, host, b[0], b[1]);
      IsMark(order, b[0], b[1]) && b[2..] == Bytes(order, [0x61])
    ensures DecodeCall(Detect, host, FRESH, b).0 == [0x61]
  {
    LetterBytes();
    ReadsExactly(Detect, host, b);
  }
}

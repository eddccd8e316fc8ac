/** The 16-bit units, bytes and surrogate arithmetic that every other module works on. */
module Units {

  datatype Option<+T> = None | Some(value: T)

  type Unit = u: int | 0 <= u < 0x1_0000
  type Byte = b: int | 0 <= b < 0x100
  type Uint32 = x: int | 0 <= x < 0x1_0000_0000

  /** The largest value of a C++ `int`, and so the longest string or byte array. */
  const MAX_INT: int := 0x7fff_ffff

  predicate IsHigh(u: int) {
    0xd800 <= u < 0xdc00
  }

  predicate IsLow(u: int) {
    0xdc00 <= u < 0xe000
  }

  /** The code point of a surrogate pair. */
  function Join(high: Unit, low: Unit): (c: int)
    requires IsHigh(high) && IsLow(low)
    ensures 0x1_0000 <= c < 0x11_0000
    ensures High(c) == high && Low(c) == low
  {
    high * 0x400 + low - 0x35f_dc00
  }

  function High(c: int): (u: Unit)
    requires 0x1_0000 <= c < 0x11_0000
    ensures IsHigh(u)
  {
    c / 0x400 + 0xd7c0
  }

  function Low(c: int): (u: Unit)
    requires 0x1_0000 <= c < 0x11_0000
    ensures IsLow(u)
  {
    c % 0x400 + 0xdc00
  }

  lemma JoinedAgain(c: int)
    requires 0x1_0000 <= c < 0x11_0000
    ensures Join(High(c), Low(c)) == c
  {}

  lemma Regroup<T>(a: seq<T>, b: seq<T>, c: seq<T>)
    ensures a + (b + c) == (a + b) + c
  {}
}

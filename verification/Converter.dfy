/** The state that the converters of qtextcodec.h carry from one call to the next. */
module Converter {

  /** The data that a sequence of calls has been given. */
  function Flatten<T>(chunks: seq<seq<T>>): seq<T> {
    if chunks == [] then [] else chunks[0] + Flatten(chunks[1..])
  }

  /** `flags` appears as its two bits, `state_data` as the two of its words that are used. */
  class ConverterState {
    var ignoreHeader: bool
    var invalidToNull: bool
    var remainingChars: nat
    var invalidChars: nat
    var data0: nat
    var data1: nat

    constructor (ignoreHeader: bool, invalidToNull: bool)
      ensures this.ignoreHeader == ignoreHeader && this.invalidToNull == invalidToNull
      ensures remainingChars == 0 && invalidChars == 0 && data0 == 0 && data1 == 0
    {
      this.ignoreHeader, this.invalidToNull := ignoreHeader, invalidToNull;
      remainingChars, invalidChars, data0, data1 := 0, 0, 0, 0;
    }
  }
}

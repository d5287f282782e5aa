/**
 Go's conversion `string(v)` of an `int64` to a one-character string, as
 the code point of that character.
 */
module Runes {

  /** U+FFFD REPLACEMENT CHARACTER, Go's `utf8.RuneError`. */
  const RuneError: int := 0xFFFD
  /** `utf8.MaxRune`. */
  const MaxRune: int := 0x10FFFF

  /** A Unicode scalar value: a code point that is not a surrogate. */
  predicate IsScalarValue(v: int)
  {
    0 <= v <= MaxRune && !(0xD800 <= v <= 0xDFFF)
  }

  /** Go's `rune(v)`: the low 32 bits of `v` read as a two's-complement int32. */
  function ToInt32(v: int): (r: int)
    ensures -0x8000_0000 <= r < 0x8000_0000
    ensures (v - r) % 0x1_0000_0000 == 0
    ensures -0x8000_0000 <= v < 0x8000_0000 ==> r == v
  {
    var m := v % 0x1_0000_0000;
    if m < 0x8000_0000 then m else m - 0x1_0000_0000
  }

  /** The runtime's `intstring`: a value that does not survive the trip
      through int32 is replaced by RuneError, and `encoderune` replaces
      negative runes, surrogates and runes above MaxRune by RuneError too.
      Net effect: scalar values map to themselves, everything else to U+FFFD. */
  function FromInt64(v: int): (cp: int)
    ensures IsScalarValue(cp)
    ensures IsScalarValue(v) ==> cp == v
    ensures !IsScalarValue(v) ==> cp == RuneError
  {
    var r := if ToInt32(v) != v then RuneError else v;
    if r < 0 || r > MaxRune || 0xD800 <= r <= 0xDFFF then RuneError else r
  }
}

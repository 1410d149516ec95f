/** The PHP values the generator works on.

    A PHP string is a sequence of bytes: `strlen` counts bytes and PCRE without
    the `u` modifier matches byte by byte, so strings are modelled as `Bytes`.
    A value that may be `null` is an `Option`. */
module Php {

  newtype byte = b: int | 0 <= b < 0x100

  /** A PHP string; its `strlen` is its length `|s|`. */
  type Bytes = seq<byte>

  datatype Option<+T> = None | Some(value: T)

  /** PHP's truthiness test on a `string|null`: `null`, `""` and `"0"` are
      falsy, every other string is truthy. In particular a string of two or
      more bytes, such as `"00"`, is truthy. */
  predicate IsFalsy(s: Option<Bytes>): (falsy: bool)
    ensures falsy ==> s.None? || |s.value| <= 1
    ensures s.Some? && s.value != [0x30] && |s.value| > 0 ==> !falsy
  {
    s.None? || s.value == [] || s.value == [0x30]
  }
}

/** Strings as the backend's language has them: sequences of UTF-16 code units, lone surrogates included. */
module CodeUnits {
  type Unit = x: int | 0 <= x < 0x1_0000

  type Text = seq<Unit>

  /** The white space of the regular expression class `\s`, line terminators included. */
  predicate IsSpace(u: Unit) {
    9 <= u <= 13 || u == 0x20 || u == 0xA0 || u == 0x1680 || 0x2000 <= u <= 0x200A
    || u == 0x2028 || u == 0x2029 || u == 0x202F || u == 0x205F || u == 0x3000 || u == 0xFEFF
  }
}

/** Bytes, ASCII character classes, and the shared Option type. */
module Bytes {

  type byte = x: int | 0 <= x < 256

  datatype Option<+T> = None | Some(value: T)

  /** `u8::is_ascii_digit` */
  predicate IsDigit(b: byte) {
    '0' as int <= b <= '9' as int
  }

  /** `u8::is_ascii_hexdigit`: both cases of the letters count. */
  predicate IsHexDigit(b: byte) {
    IsDigit(b) || 'a' as int <= b <= 'f' as int || 'A' as int <= b <= 'F' as int
  }

  /** `u8::is_ascii_alphanumeric` */
  predicate IsAlphanumeric(b: byte) {
    IsDigit(b) || 'a' as int <= b <= 'z' as int || 'A' as int <= b <= 'Z' as int
  }

  /** `u8::to_ascii_lowercase` */
  function ToLower(b: byte): byte {
    if 'A' as int <= b <= 'Z' as int then b + 32 else b
  }

  function Lowercase(s: seq<byte>): seq<byte> {
    seq(|s|, i requires 0 <= i < |s| => ToLower(s[i]))
  }

  predicate IsAscii(s: seq<byte>) {
    forall i :: 0 <= i < |s| ==> s[i] < 0x80
  }
}

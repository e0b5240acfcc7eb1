/** The C types and byte-sequence vocabulary shared by every modelled file. */
module CTypes {

  // `char` is an unsigned byte on rv64.
  type byte = x: int | 0 <= x < 0x100
  type u32 = x: int | 0 <= x < 0x1_0000_0000
  type i32 = x: int | -0x8000_0000 <= x < 0x8000_0000
  type u64 = x: int | 0 <= x < 0x1_0000_0000_0000_0000
  type i64 = x: int | -0x8000_0000_0000_0000 <= x < 0x8000_0000_0000_0000

  const TWO64: int := 0x1_0000_0000_0000_0000
  const I64_MIN: int := -0x8000_0000_0000_0000
  const I64_MAX: int := 0x7fff_ffff_ffff_ffff
  const INT_MAX: int := 0x7fff_ffff

  const NUL: byte := 0
  const BACKSPACE: byte := 8
  const TAB: byte := 9
  const LF: byte := 10
  const CR: byte := 13
  const SPACE: byte := 32
  const HASH: byte := 35
  const PERCENT: byte := 37
  const PLUS: byte := 43
  const MINUS: byte := 45
  const ZERO: byte := 48
  const NINE: byte := 57
  const UPPER_X: byte := 88
  const LOWER_C: byte := 99
  const LOWER_D: byte := 100
  const LOWER_L: byte := 108
  const LOWER_P: byte := 112
  const LOWER_S: byte := 115
  const LOWER_U: byte := 117
  const LOWER_X: byte := 120
  const DEL: byte := 127

  /** What a C string pointer may read: its bytes up to the terminator and nothing after it,
      so every checked index below is also a proof that the terminator is never passed. */
  type CString = s: seq<byte> | |s| > 0 && s[|s| - 1] == NUL && NUL !in s[..|s| - 1] witness [0]

  function Body(s: CString): seq<byte> { s[..|s| - 1] }

  function Terminated(text: seq<byte>): (s: CString)
    requires NUL !in text
    ensures Body(s) == text
  {
    assert (text + [NUL])[..|text|] == text;
    text + [NUL]
  }

  /** The bytes of a text, for stating what is printed in the characters a reader sees. */
  function Ascii(text: string): seq<byte> { seq(|text|, i requires 0 <= i < |text| => text[i] as int % 0x100) }

  /** Conversion of an out-of-range value to `int` on this target. */
  function ToInt(x: int): i32 {
    if -0x8000_0000 <= x < 0x8000_0000 then x else (x + 0x8000_0000) % 0x1_0000_0000 - 0x8000_0000
  }

  /** That value is the one in range that differs by a multiple of 2^32. */
  lemma ToIntWraps(x: int)
    ensures -2147483648 <= ToInt(x) <= 2147483647 && (x - ToInt(x)) % 4294967296 == 0
  {
  }

  function Min(a: int, b: int): int { if a <= b then a else b }
  function Max(a: int, b: int): int { if a >= b then a else b }
  function Abs(a: int): nat { if a < 0 then -a else a }

  /** `n` copies of `c`; none when `n` is negative. */
  function Rep(c: byte, n: int): seq<byte> { seq(Max(n, 0), _ => c) }

  function Rev<T>(s: seq<T>): seq<T> { seq(|s|, i requires 0 <= i < |s| => s[|s| - 1 - i]) }

  lemma Associates(a: seq<byte>, b: seq<byte>, c: seq<byte>)
    ensures a + (b + c) == a + b + c
  {
  }
}

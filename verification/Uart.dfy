/** The console: its wire format, and the number printers of src/dev/uart.c and src/dev/dw_uart.c. */
module Uart {
  import opened CTypes
  import opened Numerals
  import opened Bits
  import opened Reversal

  /** The bytes one `dw_uart_putchar` sends: a carriage return goes before every line feed. */
  function WireByte(c: byte): seq<byte> { if c == LF then [CR, LF] else [c] }

  function Wire(s: seq<byte>): seq<byte> { if s == [] then [] else Wire(s[..|s| - 1]) + WireByte(s[|s| - 1]) }

  /** On the wire a text is itself, with 13 before every 10. */
  lemma {:induction false} WireText(s: seq<byte>, t: seq<byte>)
    ensures Wire([]) == [] && Wire(s + t) == Wire(s) + Wire(t)
    ensures |s| == 1 ==> Wire(s) == if s[0] == 10 then [13, 10] else s
    decreases |t|
  {
    if t == [] {
      assert s + t == s;
    } else {
      var init, last := t[..|t| - 1], t[|t| - 1];
      WireText(s, init);
      assert (s + t)[..|s + t| - 1] == s + init;
      Associates(Wire(s), Wire(init), WireByte(last));
    }
    if |s| == 1 { assert s[..0] == []; }
  }

  /** The serial line: bytes still to be received, and every byte sent. */
  class Console {
    var input: seq<byte>
    var output: seq<byte>

    constructor (input: seq<byte>)
      ensures this.input == input && output == []
    {
      this.input, output := input, [];
    }

    method PutChar(c: byte)
      modifies this`output
      ensures output == old(output) + WireByte(c)
      ensures output == old(output) + if c == 10 then [13, 10] else [c]
    {
      if c == LF {
        output := output + [CR];
      }
      output := output + [c];
    }

    /** The same, as one more byte of a text of which the bytes before `k` have gone out. */
    method PutNext(c: byte, ghost text: seq<byte>, ghost k: nat, ghost before: seq<byte>)
      requires k < |text| && c == text[k] && output == before + Wire(text[..k])
      modifies this`output
      ensures output == before + Wire(text[..k + 1])
    {
      WireMore(text, k);
      Associates(before, Wire(text[..k]), WireByte(c));
      PutChar(c);
    }

    /** Blocks until a byte arrives; the model asks for one to be there. */
    method GetChar() returns (c: byte)
      requires input != []
      modifies this`input
      ensures c == old(input)[0] && input == old(input)[1..]
    {
      c := input[0];
      input := input[1..];
    }

    method Puts(s: CString)
      modifies this`output
      ensures output == old(output) + Wire(Body(s))
    {
      var at := 0;
      while s[at] != NUL
        invariant 0 <= at < |s|
        invariant output == old(output) + Wire(s[..at])
        decreases |s| - at
      {
        PutNext(s[at], s, at, old(output));
        at := at + 1;
      }
    }

    /** `generic_uart_print_dec`: the sign first, then the digits drained from the scratch array backwards. */
    method GenericPrintDec(value: i64)
      requires value > I64_MIN
      modifies this`output
      ensures output == old(output) + SignedNumeral(value, 10)
    {
      if value == 0 {
        PutChar(ZERO);
        return;
      }
      var v := value;
      if v < 0 {
        PutChar(MINUS);
        v := -v;
      }
      ghost var sign := if value < 0 then [MINUS] else [];
      assert output == old(output) + sign;
      PrintMagnitude(v);
      assert SignedNumeral(value, 10) == sign + Numeral(v, 10);
    }

    method PrintMagnitude(v: i64)
      requires v > 0
      modifies this`output
      ensures output == old(output) + Numeral(v, 10)
    {
      var buffer := new byte[20];
      Digits63(v);
      var i := PutDigits(buffer, v, 10);
      NumeralOnWire(v, 10);
      Drain(buffer, i);
    }

    /** The drain loop of `generic_uart_print_dec`. */
    method Drain(buffer: array<byte>, n: nat)
      requires n <= buffer.Length
      modifies this`output
      ensures output == old(output) + Wire(Rev(buffer[..n]))
    {
      var i := n;
      ghost var text := Rev(buffer[..n]);
      while i > 0
        invariant 0 <= i <= n
        invariant output == old(output) + Wire(text[..n - i])
      {
        i := i - 1;
        PutNext(buffer[i], text, n - i - 1, old(output));
      }
      assert text[..n] == text;
    }

    /** `dw_uart_print_dec`: digits and then the sign go into the scratch array backwards, and are reversed together. */
    method DwPrintDec(value: i64)
      requires value > I64_MIN
      modifies this`output
      ensures output == old(output) + SignedNumeral(value, 10)
    {
      var buffer := new byte[32];
      var p := DwDecText(buffer, value);
      NumeralOnWire(Abs(value), 10);
      SignOnWire(Numeral(Abs(value), 10));
      Puts(buffer[..p + 1]);
    }

    /** `generic_uart_print_hex`: sixteen digits, the highest first, by shifting and masking. */
    method GenericPrintHex(value: u64)
      modifies this`output
      ensures output == old(output) + FixedHex(value, 16)
    {
      var i := 60;
      ghost var k, whole := 0, FixedHex(value, 16);
      while i >= 0
        invariant -4 <= i <= 60 && i == 60 - 4 * k
        invariant output == old(output) + whole[..k]
        decreases i + 4
      {
        NibbleAt(value, 16, k);
        PutChar(UpperDigitChar(BitAnd(Shr(value, i), 0xF)));
        i, k := i - 4, k + 1;
      }
    }

    /** `dw_uart_print_hex`: the same digits into a scratch array after `0x`. */
    method DwPrintHex(value: u64)
      modifies this`output
      ensures output == old(output) + [ZERO, LOWER_X] + FixedHex(value, 16)
    {
      var buffer := new byte[20];
      DwHexText(buffer, value);
      HexOnWire(value);
      Puts(buffer[..19]);
    }
  }

  method DwDecText(buffer: array<byte>, value: i64) returns (p: nat)
    requires buffer.Length == 32 && value > I64_MIN
    modifies buffer
    ensures p < 32 && NUL !in SignedNumeral(value, 10) && buffer[..p + 1] == Terminated(SignedNumeral(value, 10))
  {
    NoNul(Abs(value), 10);
    p := DwBackwards(buffer, value);
    ghost var text, before := SignedNumeral(value, 10), buffer[..];
    assert before[0..p] == before[..p];
    SwapInward(buffer, 0, p);
    assert buffer[..p] == text;
    buffer[p] := NUL;
    assert buffer[..p + 1] == text + [NUL];
  }

  /** The digits and then the sign. */
  method DwBackwards(buffer: array<byte>, value: i64) returns (p: nat)
    requires buffer.Length == 32 && value > I64_MIN
    modifies buffer
    ensures 0 < p < 32 && Rev(buffer[..p]) == SignedNumeral(value, 10)
  {
    var v, negative := value, false;
    if v < 0 {
      negative := true;
      v := -v;
    }
    p := DwMagnitude(buffer, v);
    if negative {
      p := Push(buffer, p, MINUS);
    }
  }

  method DwMagnitude(buffer: array<byte>, v: i64) returns (p: nat)
    requires buffer.Length == 32 && v >= 0
    modifies buffer
    ensures 0 < p < 31 && Rev(buffer[..p]) == Numeral(v, 10)
  {
    Digits63(v);
    p := DoDigits(buffer, 0, v);
    assert buffer[0..p] == buffer[..p];
  }

  method DwHexText(buffer: array<byte>, value: u64)
    requires buffer.Length == 20
    modifies buffer
    ensures NUL !in FixedHex(value, 16)
    ensures buffer[..19] == Terminated([ZERO, LOWER_X] + FixedHex(value, 16))
  {
    FixedHexPlain(value, 16);
    forall k | 0 <= k < 16 ensures IsNibble(value, FixedHex(value, 16), k) { NibbleAt(value, 16, k); }
    DwHexLoop(buffer, value, FixedHex(value, 16));
    buffer[18] := NUL;
  }

  method DwHexLoop(buffer: array<byte>, value: u64, ghost digits: seq<byte>)
    requires buffer.Length == 20 && |digits| == 16 && forall k :: 0 <= k < 16 ==> IsNibble(value, digits, k)
    modifies buffer
    ensures buffer[..18] == [ZERO, LOWER_X] + digits
  {
    buffer[0], buffer[1] := ZERO, LOWER_X;
    var i := 15;
    while i >= 0
      invariant -1 <= i <= 15 && buffer[0] == ZERO && buffer[1] == LOWER_X
      invariant forall j :: 2 <= j < 17 - i ==> buffer[j] == digits[j - 2]
      decreases i + 1
    {
      assert IsNibble(value, digits, 15 - i);
      buffer[17 - i] := UpperDigitChar(BitAnd(Shr(value, i * 4), 0xF));
      i := i - 1;
    }
  }

  /** Digit `k` of sixteen is what the printers select by shift and mask. */
  predicate IsNibble(value: nat, digits: seq<byte>, k: nat)
    requires k < 16 == |digits|
  {
    var nibble := BitAnd(Shr(value, 4 * (15 - k)), 0xF);
    nibble < 16 && digits[k] == UpperDigitChar(nibble)
  }

  lemma HexOnWire(value: u64)
    ensures var text := [ZERO, LOWER_X] + FixedHex(value, 16); Wire(text) == text
  {
    FixedHexPlain(value, 16);
    WirePlain([ZERO, LOWER_X] + FixedHex(value, 16));
  }

  lemma Digits63(n: nat)
    requires n <= I64_MAX
    ensures |Digits(n, 10)| <= 19
  {
    Pow10();
    DigitCount(n, 10, 19);
  }

  lemma WireMore(s: seq<byte>, k: nat)
    requires k < |s|
    ensures Wire(s[..k + 1]) == Wire(s[..k]) + WireByte(s[k])
  {
    assert s[..k + 1][..k] == s[..k];
  }

  lemma {:induction false} WirePlain(s: seq<byte>)
    requires LF !in s
    ensures Wire(s) == s
  {
    if s != [] {
      WirePlain(s[..|s| - 1]);
    }
  }

  lemma NumeralOnWire(n: nat, b: nat)
    requires 2 <= b <= 16
    ensures Wire(Digits(n, b)) == Digits(n, b) && Wire(Numeral(n, b)) == Numeral(n, b) && LF !in Numeral(n, b)
  {
    DigitsAreDigits(n, b);
    assert LF !in Digits(n, b);
    WirePlain(Digits(n, b));
    WirePlain(Numeral(n, b));
  }

  lemma SignOnWire(s: seq<byte>)
    requires LF !in s
    ensures Wire(s) == s && Wire([MINUS] + s) == [MINUS] + s
  {
    WirePlain(s);
    WirePlain([MINUS] + s);
  }

  // ------------------------------------------------------------------ fixed-width hexadecimal

  /** The lowest `k` hexadecimal digits of a number, in upper case. */
  function FixedHex(v: nat, k: nat): (s: seq<byte>)
    ensures |s| == k
  {
    if k == 0 then [] else FixedHex(v / 16, k - 1) + [UpperDigitChar(v % 16)]
  }

  /** The shifts and masks of both printers select the digits from the highest down. */
  lemma {:induction false} NibbleAt(v: nat, n: nat, k: nat)
    requires k < n
    ensures BitAnd(Shr(v, 4 * (n - 1 - k)), 0xF) < 16
    ensures FixedHex(v, n)[k] == UpperDigitChar(BitAnd(Shr(v, 4 * (n - 1 - k)), 0xF)) != LF
    decreases n
  {
    Nibble(v);
    if k < n - 1 {
      NibbleAt(v / 16, n - 1, k);
      ShiftAdd(v, 4, 4 * (n - 2 - k));
    }
  }

  lemma {:induction false} FixedHexPlain(v: nat, k: nat)
    ensures forall i :: 0 <= i < k ==> FixedHex(v, k)[i] >= ZERO
  {
    if k > 0 { FixedHexPlain(v / 16, k - 1); }
  }

  /** Fixed-width digits, one by one, are upper-case digits of the number. */
  lemma {:induction false} FixedHexDigits(v: nat, k: nat, i: nat)
    requires i < k
    ensures FixedHex(v, k)[k - 1 - i] == Ascii("0123456789ABCDEF")[v / Pow(16, i) % 16]
    decreases k
  {
    if i == 0 {
      DigitTables(v % 16);
    } else {
      FixedHexDigits(v / 16, k - 1, i - 1);
      DivTwice(v, 16, Pow(16, i - 1));
    }
  }

  /** Fixed-width digits are the numeral padded with zeros, in upper case. */
  lemma {:induction false} FixedHexIsPadded(v: nat, k: nat)
    requires |Digits(v, 16)| <= k
    ensures FixedHex(v, k) == Upper(Rep(ZERO, k - |Digits(v, 16)|) + Digits(v, 16))
  {
    if k > 0 {
      var zeros := Rep(ZERO, k - |Digits(v, 16)|);
      if v == 0 {
        FixedHexIsPadded(0, k - 1);
        assert Rep(ZERO, k) == Rep(ZERO, k - 1) + [ZERO];
      } else {
        FixedHexIsPadded(v / 16, k - 1);
        assert zeros + Digits(v, 16) == zeros + Digits(v / 16, 16) + [DigitChar(v % 16)];
      }
    }
  }
}

/** All the kernel's number printers side by side. */
module Printers {
  import opened CTypes
  import opened Numerals
  import opened Format
  import opened Logger
  import Meaning
  import Sprintf
  import opened Uart

  /** Runs the four decimal printers on one number: the formatter, `itoa_decimal` and the two console printers
      send the same text, wherever each of them puts the sign and however it reverses the digits. */
  method DecimalPrintersAgree(n: i64)
    returns (formatted: seq<byte>, converted: seq<byte>, dw: seq<byte>, generic: seq<byte>)
    requires n > I64_MIN
    ensures formatted == converted == dw == generic == SignedNumeral(n, 10)
  {
    Digits63(Abs(n));
    assert Field(SignedNumeral(n, 10), SPACE, 0) == SignedNumeral(n, 10);
    assert [Meaning.Long][1..] == [];
    formatted := FormatOne(Meaning.Conversion([Meaning.Long], LOWER_D), I64(n));

    var temp := new byte[32];
    var len := Sprintf.ItoaDecimal(n, temp);
    converted := temp[..len];
    assert converted == temp[..len + 1][..len];

    var first := new Console([]);
    first.DwPrintDec(n);
    dw := first.output;

    var second := new Console([]);
    second.GenericPrintDec(n);
    generic := second.output;
  }

  /** `my_snprintf` of a format that is one directive, into a buffer that is large enough. */
  method FormatOne(item: Meaning.Item, arg: Arg) returns (text: seq<byte>)
    requires item.Conversion? && item.Valid() && TakesArgument(item.conv) && Typed(item.conv, item.Props().longs, arg)
    requires |Convert(item.conv, item.Props(), arg)| <= INT_MAX
    ensures text == Convert(item.conv, item.Props(), arg)
  {
    Meaning.SingleDirective(item, arg);
    Meaning.ShownIsText(item);
    var fmt := Terminated(Meaning.Show([item]));
    ghost var expected := Expand(Body(fmt), [arg]);
    var size := |Convert(item.conv, item.Props(), arg)| + 1;
    var buf := new byte[size];
    var r := Snprintf(buf, size, fmt, [arg]);
    text := buf[..r];
    assert text == expected;
  }

  /** `%016llx` and `%#018llx`. */
  const PLAIN_16 := Meaning.Conversion([Meaning.Zero(16), Meaning.Long, Meaning.Long], LOWER_X)
  const PREFIXED_18 := Meaning.Conversion([Meaning.Alternate, Meaning.Zero(18), Meaning.Long, Meaning.Long], LOWER_X)

  lemma HexDirectives()
    ensures PLAIN_16.Valid() && PLAIN_16.Props() == Spec(ZERO, 16, false, 2)
    ensures PREFIXED_18.Valid() && PREFIXED_18.Props() == Spec(ZERO, 18, true, 2)
  {
    var l, z := Meaning.Long, Meaning.Zero(18);
    assert [Meaning.Zero(16), l, l][1..] == [l, l] && [Meaning.Alternate, z, l, l][1..] == [z, l, l];
    assert [z, l, l][1..] == [l, l];
    TwoLongs(Spec(ZERO, 16, false, 0));
    TwoLongs(Spec(ZERO, 18, true, 0));
  }

  lemma TwoLongs(sp: Spec)
    ensures Meaning.ApplyAll([Meaning.Long, Meaning.Long], sp) == sp.(longs := sp.longs + 2)
  {
    assert [Meaning.Long, Meaning.Long][1..] == [Meaning.Long] && [Meaning.Long][1..] == [];
    assert Meaning.ApplyAll([Meaning.Long], sp.(longs := sp.longs + 1)) == sp.(longs := sp.longs + 2);
  }

  lemma HexLength(v: u64)
    ensures 1 <= |Numeral(v, 16)| <= 16 && |Digits(v, 16)| <= 16
  {
    Pow16();
    DigitCount(v, 16, 16);
  }

  /** The sixteen-digit text of a number, in either case, reads back as the number. */
  lemma HexForms(v: u64)
    ensures var padded := Field(Numeral(v, 16), ZERO, 16);
      |padded| == 16 && Value(padded, 16) == v && FixedHex(v, 16) == Upper(padded) && Value(Upper(padded), 16) == v
  {
    var padded, zeros := Field(Numeral(v, 16), ZERO, 16), 16 - |Numeral(v, 16)|;
    PaddedIs(v);
    ZerosKeepValue(zeros, Numeral(v, 16), 16);
    ValueOfNumeral(v, 16);
    FixedHexIsPadded(v, 16);
    HexDigitsOnly(v, zeros);
    UpperKeepsValue(padded);
  }

  lemma PaddedIs(v: u64)
    ensures |Numeral(v, 16)| <= 16 && |Digits(v, 16)| <= 16 && |Field(Numeral(v, 16), ZERO, 16)| == 16
    ensures Field(Numeral(v, 16), ZERO, 16) == Rep(ZERO, 16 - |Numeral(v, 16)|) + Numeral(v, 16)
    ensures Field(Numeral(v, 16), ZERO, 16) == Rep(ZERO, 16 - |Digits(v, 16)|) + Digits(v, 16)
  {
    HexLength(v);
    if v == 0 {
      assert Rep(ZERO, 15) + [ZERO] == Rep(ZERO, 16) + [];
    }
  }

  lemma HexDigitsOnly(v: nat, zeros: nat)
    ensures forall i :: 0 <= i < zeros + |Numeral(v, 16)| ==> DigitVal((Rep(ZERO, zeros) + Numeral(v, 16))[i]) < 16
  {
    NumeralMeans(v, 16);
  }

  /** `%016llx` and `generic_uart_print_hex` differ in letter case only, though one divides and the other shifts. */
  method PlainHexAgree(v: u64) returns (formatted: seq<byte>, generic: seq<byte>)
    ensures generic == Upper(formatted)
    ensures |generic| == 16 && Value(formatted, 16) == Value(generic, 16) == v
  {
    HexForms(v);
    HexDirectives();
    formatted := FormatOne(PLAIN_16, U64(v));
    var console := new Console([]);
    console.GenericPrintHex(v);
    generic := console.output;
  }

  /** `%#018llx` and `dw_uart_print_hex` differ in letter case only exactly when the number is not zero, which
      `#` leaves without a prefix; both read back as the number. */
  method PrefixedHexAgree(v: u64) returns (formatted: seq<byte>, dw: seq<byte>)
    ensures Upper(formatted) == Upper(dw) <==> v != 0
    ensures |formatted| == |dw| == 18 && Value(formatted[2..], 16) == Value(dw[2..], 16) == v
  {
    formatted := FormatPrefixed(v);
    var console := new Console([]);
    console.DwPrintHex(v);
    dw := console.output;
    assert dw == [ZERO, LOWER_X] + FixedHex(v, 16);
    PrefixedForm(v, formatted, dw);
  }

  method FormatPrefixed(v: u64) returns (formatted: seq<byte>)
    ensures |formatted| == 18 && formatted[2..] == Field(Numeral(v, 16), ZERO, 16)
    ensures formatted[1] == if v == 0 then ZERO else LOWER_X
    ensures formatted[0] == ZERO
  {
    HexDirectives();
    PrefixedShape(v);
    formatted := FormatOne(PREFIXED_18, U64(v));
  }

  lemma PrefixedShape(v: u64)
    ensures var s := UnsignedField(v, 16, Spec(ZERO, 18, true, 2));
      && |s| == 18 && s[2..] == Field(Numeral(v, 16), ZERO, 16)
      && s[0] == ZERO && s[1] == if v == 0 then ZERO else LOWER_X
  {
    HexLength(v);
    if v == 0 {
      assert UnsignedField(v, 16, Spec(ZERO, 18, true, 2)) == Rep(ZERO, 17) + [ZERO];
      assert Field(Numeral(v, 16), ZERO, 16) == Rep(ZERO, 15) + [ZERO];
    }
  }

  lemma PrefixedForm(v: u64, s: seq<byte>, d: seq<byte>)
    requires |s| == 18 && s[2..] == Field(Numeral(v, 16), ZERO, 16)
    requires s[0] == ZERO && s[1] == if v == 0 then ZERO else LOWER_X
    requires d == [ZERO, LOWER_X] + FixedHex(v, 16)
    ensures |d| == 18 && Value(s[2..], 16) == Value(d[2..], 16) == v
    ensures Upper(s) == Upper(d) <==> v != 0
  {
    HexForms(v);
    assert d[2..] == FixedHex(v, 16) == Upper(s[2..]);
    UpperTail(s, d);
    assert Upper(s)[1] == Upper(d)[1] <==> v != 0;
  }

  /** Upper-casing goes byte by byte, and does nothing to an upper-case text. */
  lemma UpperTail(s: seq<byte>, d: seq<byte>)
    requires |s| == |d| >= 2 && d[2..] == Upper(s[2..]) && s[0] == d[0]
    ensures Upper(s) == Upper(d) <==> Upper(s)[1] == Upper(d)[1]
  {
    forall i | 2 <= i < |s| ensures Upper(s)[i] == Upper(d)[i] {
      assert d[i] == d[2..][i - 2] && s[i] == s[2..][i - 2];
    }
  }

  /** `itoa_hex` writes the numeral without padding after the same prefix, and it too reads back in either case. */
  method ItoaHexReadsBack(v: u64, uppercase: bool) returns (text: seq<byte>)
    ensures |text| > 2 && Upper(text[..2]) == [ZERO, UPPER_X] && Value(text[2..], 16) == v
    ensures text[2..] == if uppercase then Upper(Numeral(v, 16)) else Numeral(v, 16)
  {
    HexTextReads(v, uppercase);
    var temp := new byte[32];
    var len := Sprintf.ItoaHex(v, temp, uppercase);
    text := temp[..len];
    assert text == temp[..len + 1][..len] == Sprintf.HexText(v, uppercase);
  }

  lemma HexTextReads(v: u64, uppercase: bool)
    ensures var s := Sprintf.HexText(v, uppercase);
      && 2 < |s| < 32 && Upper(s[..2]) == [ZERO, UPPER_X]
      && s[2..] == (if uppercase then Upper(Numeral(v, 16)) else Numeral(v, 16)) && Value(s[2..], 16) == v
  {
    HexLength(v);
    HexNumeralReads(v);
    if uppercase {
      PrefixSplits(UPPER_X, Upper(Numeral(v, 16)));
    } else {
      PrefixSplits(LOWER_X, Numeral(v, 16));
    }
  }

  lemma PrefixSplits(x: byte, digits: seq<byte>)
    requires x == UPPER_X || x == LOWER_X
    ensures var s := [ZERO, x] + digits; Upper(s[..2]) == [ZERO, UPPER_X] && s[2..] == digits
  {
    assert ([ZERO, x] + digits)[..2] == [ZERO, x];
  }

  lemma HexNumeralReads(v: nat)
    ensures Value(Numeral(v, 16), 16) == v && Value(Upper(Numeral(v, 16)), 16) == v
  {
    NumeralMeans(v, 16);
    UpperKeepsValue(Numeral(v, 16));
  }

  // ------------------------------------------------------------------ scratch arrays

  /** The 26 bytes of `print_int` hold digits, sign and terminator of every number exactly for bases from 7. */
  lemma IntScratchExact(base: nat)
    requires 2 <= base <= 16
    ensures (forall n: nat :: n <= I64_MAX ==> |Digits(n, base)| + 2 <= 26) <==> base >= 7
  {
    if base >= 7 {
      forall n: nat | n <= I64_MAX ensures |Digits(n, base)| + 2 <= 26 { IntScratch(n, base); }
    } else {
      Pow6();
      PowMono(base, 6, 24);
      DigitCount(I64_MAX, base, 24);
      assert |Digits(I64_MAX, base)| + 2 > 26;
    }
  }

  /** The 27 bytes of `print_unsigned` hold digits and terminator of every number exactly for bases from 6. */
  lemma UnsignedScratchExact(base: nat)
    requires 2 <= base <= 16
    ensures (forall n: nat :: n < TWO64 ==> |Digits(n, base)| + 1 <= 27) <==> base >= 6
  {
    if base >= 6 {
      forall n: nat | n < TWO64 ensures |Digits(n, base)| + 1 <= 27 { UnsignedScratch(n, base); }
    } else {
      PowAdd(5, 8, 8);
      PowAdd(5, 16, 10);
      PowMono(base, 5, 26);
      DigitCount(TWO64 - 1, base, 26);
      assert |Digits(TWO64 - 1, base)| + 1 > 27;
    }
  }
}

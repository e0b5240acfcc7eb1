/** Where the two formatters agree, and what the parsers read back of their output. */
module Agreement {
  import opened CTypes
  import opened Numerals
  import opened Format
  import opened Logger
  import Meaning
  import opened Parse
  import opened Sprintf

  // ------------------------------------------------------------------ the two formatters

  predicate SharedConversion(c: byte) { c in [LOWER_D, LOWER_S, LOWER_C, PERCENT] }

  /** Literals and `%d`, `%s`, `%c`, `%%` without flags, and no `%` at the end. */
  predicate Shared(fmt: seq<byte>)
    decreases |fmt|
  {
    if fmt == [] then true
    else if fmt[0] != PERCENT then Shared(fmt[1..])
    else |fmt| > 1 && SharedConversion(fmt[1]) && Shared(fmt[2..])
  }

  lemma SharedStep(fmt: seq<byte>, args: seq<Arg>)
    requires |fmt| > 1 && fmt[0] == PERCENT && SharedConversion(fmt[1])
    ensures Scan(fmt[1..], NO_SPEC) == Directive(fmt[1], NO_SPEC, fmt[2..]) && WidthsFit(fmt[1..])
    ensures TakesArgument(fmt[1]) == SimpleTakes(fmt[1])
    ensures args != [] && TakesArgument(fmt[1]) ==>
      && Typed(fmt[1], 0, args[0]) == SimpleTyped(fmt[1], args[0])
    ensures (TakesArgument(fmt[1]) ==> args != [] && Typed(fmt[1], 0, args[0])) ==>
      DirectiveText(fmt[1], NO_SPEC, args) == SimpleText(fmt[1], args)
  {
    assert fmt[1..][1..] == fmt[2..];
  }

  /** One formatter streams and the other copies through temporaries, but on every shared format they accept
      the same arguments and print the same text. */
  lemma {:induction false} FormattersAgree(fmt: seq<byte>, args: seq<Arg>)
    requires Shared(fmt)
    ensures WellTyped(fmt, args) <==> SimpleSupplied(fmt, args)
    ensures WellTyped(fmt, args) ==> Expand(fmt, args) == SimpleExpand(fmt, args)
    decreases |fmt|
  {
    if fmt == [] {
    } else if fmt[0] != PERCENT {
      FormattersAgree(fmt[1..], args);
    } else {
      SharedStep(fmt, args);
      FormattersAgree(fmt[2..], args);
      if args != [] {
        FormattersAgree(fmt[2..], args[1..]);
      }
    }
  }

  /** Runs both formatters into buffers that are large enough. */
  method BothFormatters(fmt: CString, args: seq<Arg>)
    returns (streamed: seq<byte>, copied: seq<byte>, streamedCount: int, copiedCount: int)
    requires Shared(Body(fmt)) && WellTyped(Body(fmt), args) && |Expand(Body(fmt), args)| <= INT_MAX
    ensures streamed == copied == Expand(Body(fmt), args) + [NUL]
    ensures streamedCount == copiedCount == |Expand(Body(fmt), args)|
  {
    FormattersAgree(Body(fmt), args);
    streamed, streamedCount := FormatAll(fmt, args);
    var second := new byte[|streamed|];
    copiedCount := SimpleSprintf(second, fmt, args);
    copied := second[..];
  }

  /** `my_snprintf` into a buffer that is just large enough, as a first call with one byte of room tells. */
  method FormatAll(fmt: CString, args: seq<Arg>) returns (text: seq<byte>, count: int)
    requires WellTyped(Body(fmt), args) && |Expand(Body(fmt), args)| <= INT_MAX
    ensures text == Expand(Body(fmt), args) + [NUL] && count == |Expand(Body(fmt), args)|
  {
    var one := new byte[1];
    var length := Snprintf(one, 1, fmt, args);
    var buf := new byte[length + 1];
    count := Snprintf(buf, length + 1, fmt, args);
    text := buf[..];
  }

  /** Of the directives without flags, the shared ones are exactly those that print the same. */
  lemma AgreeOnlyOnShared(conv: byte, args: seq<Arg>)
    requires conv != NUL && WellTyped([PERCENT, conv], args) && SimpleSupplied([PERCENT, conv], args)
    ensures Expand([PERCENT, conv], args) == SimpleExpand([PERCENT, conv], args) <==> SharedConversion(conv)
  {
    var fmt := [PERCENT, conv];
    assert fmt[1..] == [conv] && fmt[2..] == [];
    if SharedConversion(conv) {
      FormattersAgree(fmt, args);
    } else {
      assert SimpleExpand(fmt, args) == SimpleText(conv, args);
      assert [conv][1..] == [];
      OneDirective(conv, args);
    }
  }

  predicate IsFlag(c: byte) { c == HASH || c == LOWER_L || c == MINUS || IsDigit(c) }

  lemma ScanOne(c: byte)
    ensures Scan([c], NO_SPEC).rest == []
    ensures if IsFlag(c) then Scan([c], NO_SPEC).conv == NUL else Scan([c], NO_SPEC) == Directive(c, NO_SPEC, [])
  {
    var s := [c];
    assert s[1..] == [];
    if IsDigit(c) && c != ZERO {
      assert DigitRun(s[1..]) == 0 && NumberLen(s) == 1;
    }
  }

  lemma OneDirective(conv: byte, args: seq<Arg>)
    requires conv != NUL && !SharedConversion(conv)
    requires WellTyped([PERCENT, conv], args) && SimpleSupplied([PERCENT, conv], args)
    ensures Expand([PERCENT, conv], args) != SimpleText(conv, args)
  {
    var fmt := [PERCENT, conv];
    ScanOne(conv);
    assert fmt[1..] == [conv] && fmt[2..] == [];
    var d := Scan([conv], NO_SPEC);
    var text := DirectiveText(d.conv, d.sp, args);
    assert Expand(fmt, args) == text + [];
    if conv == LOWER_X {
      PlainUnsigned(args[0].u, 16);
      assert |SimpleText(conv, args)| == |text| + 2;
    } else if conv == LOWER_U {
      PlainUnsigned(args[0].u, 10);
    } else if conv == LOWER_P {
      PlainPointer(args[0].p);
    } else {
      assert |text| <= 1;
    }
  }

  lemma PlainUnsigned(n: nat, base: nat)
    requires base == 10 || base == 16
    ensures UnsignedField(n, base, NO_SPEC) == Numeral(n, base) && Numeral(n, base)[0] != PERCENT
  {
    FirstDigit(n, base);
    assert Rep(SPACE, 0 - |Numeral(n, base)|) + Numeral(n, base) == Numeral(n, base);
  }

  lemma PlainPointer(n: nat)
    ensures UnsignedField(n, 16, NO_SPEC.(alternate := true))[0] == ZERO
  {
  }

  // ------------------------------------------------------------------ print, then parse

  lemma {:induction false} LeadingBlanks(k: nat, s: seq<byte>)
    requires s != [] && !IsBlank(s[0])
    ensures Blanks(Rep(SPACE, k) + s) == k && (Rep(SPACE, k) + s)[k..] == s
  {
    var t := Rep(SPACE, k) + s;
    if k > 0 {
      LeadingBlanks(k - 1, s);
      assert t[1..] == Rep(SPACE, k - 1) + s;
    }
  }

  /** What the parser makes of a signed numeral with spaces on either side. */
  lemma SpacedRoundTrip(n: int, before: nat, after: nat)
    ensures ParsedValue(Rep(SPACE, before) + SignedNumeral(n, 10) + Rep(SPACE, after)) == n
    ensures Magnitude(Unsigned(Rep(SPACE, before) + SignedNumeral(n, 10) + Rep(SPACE, after))) == Abs(n)
  {
    var core := SignedNumeral(n, 10) + Rep(SPACE, after);
    assert Rep(SPACE, before) + core == Rep(SPACE, before) + SignedNumeral(n, 10) + Rep(SPACE, after);
    NumeralMeans(Abs(n), 10);
    assert core[0] == SignedNumeral(n, 10)[0];
    LeadingBlanks(before, core);
    Meaning.NumeralReads(Abs(n), Rep(SPACE, after));
    assert n < 0 ==> core[1..] == Numeral(-n, 10) + Rep(SPACE, after);
  }

  lemma NoBlanks(s: seq<byte>)
    requires s != [] && IsDigit(s[0])
    ensures Unsigned(s) == s && !Negative(s)
  {
    assert s[0..] == s;
  }

  lemma AllDigits(s: seq<byte>)
    requires s != [] && forall i :: 0 <= i < |s| ==> IsDigit(s[i])
    ensures ParsedValue(s) == Value(s, 10)
  {
    NoBlanks(s);
    Meaning.DigitRunOf(s, []);
    assert s + [] == s && s[..|s|] == s;
  }

  lemma ZerosThenDigits(n: nat, zeros: nat)
    ensures ParsedValue(Rep(ZERO, zeros) + Numeral(n, 10)) == n
  {
    var s := Rep(ZERO, zeros) + Numeral(n, 10);
    assert ParsedValue(s) == Value(s, 10) by {
      DecimalDigits(n);
      AllDigits(s);
    }
    ZerosKeepValue(zeros, Numeral(n, 10), 10);
    ValueOfNumeral(n, 10);
  }

  lemma ZerosThenMinus(rest: seq<byte>, zeros: nat)
    requires zeros > 0
    ensures ParsedValue(Rep(ZERO, zeros) + ([MINUS] + rest)) == 0
  {
    var s := Rep(ZERO, zeros) + ([MINUS] + rest);
    NoBlanks(s);
    Meaning.DigitRunOf(Rep(ZERO, zeros), [MINUS] + rest);
    assert s[..zeros] == Rep(ZERO, zeros) + [];
    ZerosKeepValue(zeros, [], 10);
  }

  /** Zeros in front of a non-negative numeral are read over; in front of a minus they are all that is read. */
  lemma ZeroedRoundTrip(n: int, zeros: nat)
    ensures var s := Rep(ZERO, zeros) + SignedNumeral(n, 10);
      && Magnitude(Unsigned(s)) <= Abs(n)
      && ParsedValue(s) == if n < 0 && zeros > 0 then 0 else n
  {
    var s := Rep(ZERO, zeros) + SignedNumeral(n, 10);
    if n >= 0 {
      ZerosThenDigits(n, zeros);
    } else if zeros > 0 {
      ZerosThenMinus(Numeral(-n, 10), zeros);
    } else {
      SpacedRoundTrip(n, 0, 0);
      assert s == Rep(SPACE, 0) + SignedNumeral(n, 10) + Rep(SPACE, 0);
    }
    assert Magnitude(Unsigned(s)) == Abs(ParsedValue(s));
  }

  function LongDirective(zero: bool, width: int): Meaning.Item {
    var padding := if zero then [Meaning.Zero(width)] else if width != 0 then [Meaning.Width(width)] else [];
    Meaning.Conversion(padding + [Meaning.Long], LOWER_D)
  }

  lemma LongDirectiveMeans(zero: bool, width: int)
    requires Abs(width) <= INT_MAX
    ensures LongDirective(zero, width).Valid()
    ensures LongDirective(zero, width).Props() == Spec(if zero then ZERO else SPACE, width, false, 1)
  {
    var modifiers := LongDirective(zero, width).modifiers;
    if |modifiers| == 2 {
      var sp := modifiers[0].Apply(NO_SPEC);
      assert modifiers[1..] == [Meaning.Long] && [Meaning.Long][1..] == [];
      assert Meaning.ApplyAll([Meaning.Long], sp) == sp.(longs := 1);
    } else {
      assert modifiers == [Meaning.Long] && modifiers[1..] == [];
    }
  }

  /** The format `%<width>ld`, with or without the zero flag. */
  function LongFormat(zero: bool, width: int): seq<byte> {
    Meaning.Show([LongDirective(zero, width)])
  }

  lemma LongText(n: i64, zero: bool, width: int)
    requires n > I64_MIN && Abs(width) <= INT_MAX
    ensures WellTyped(LongFormat(zero, width), [I64(n)])
    ensures Expand(LongFormat(zero, width), [I64(n)]) ==
      Field(SignedNumeral(n, 10), if zero then ZERO else SPACE, width)
  {
    LongDirectiveMeans(zero, width);
    Meaning.SingleDirective(LongDirective(zero, width), I64(n));
  }

  /** Printing a 64-bit number with `my_snprintf` and reading it with `atol` gives the number back, without
      overflow on the way, for every width and either flag; except exactly when zero padding has been put in
      front of a minus sign, and then it gives 0. */
  lemma PrintParse(n: i64, zero: bool, width: int)
    requires n > I64_MIN && Abs(width) <= INT_MAX
    ensures WellTyped(LongFormat(zero, width), [I64(n)])
    ensures var text := Expand(LongFormat(zero, width), [I64(n)]);
      && Magnitude(Unsigned(text)) <= I64_MAX
      && (ParsedValue(text) == n <==> !(zero && n < 0 && width > |SignedNumeral(n, 10)|))
      && (ParsedValue(text) != n ==> ParsedValue(text) == 0)
  {
    LongText(n, zero, width);
    FieldParse(n, zero, width);
  }

  /** `%03ld` of -5 prints `0-5`, which `atol` reads as 0. */
  lemma MinusAfterZero()
    ensures LongFormat(true, 3) == [PERCENT, ZERO, 51, LOWER_L, LOWER_D]
    ensures WellTyped(LongFormat(true, 3), [I64(-5)])
    ensures Expand(LongFormat(true, 3), [I64(-5)]) == [ZERO, MINUS, 53] && ParsedValue([ZERO, MINUS, 53]) == 0
  {
    MinusFive();
    LongText(-5, true, 3);
    ThreeShown();
  }

  lemma MinusFive()
    ensures Field(SignedNumeral(-5, 10), ZERO, 3) == [ZERO, MINUS, 53] && ParsedValue([ZERO, MINUS, 53]) == 0
  {
    OneDigit(5);
    assert Rep(ZERO, 1) + ([MINUS] + [53]) == [ZERO, MINUS, 53];
    ZerosThenMinus([53], 1);
  }

  lemma OneDigit(d: nat)
    requires 0 < d < 10
    ensures Numeral(d, 10) == [ZERO + d]
  {
    assert Digits(d, 10) == Digits(0, 10) + [DigitChar(d)];
  }

  lemma ThreeShown()
    ensures LongFormat(true, 3) == [PERCENT, ZERO, 51, LOWER_L, LOWER_D]
  {
    OneDigit(3);
    var modifiers := LongDirective(true, 3).modifiers;
    assert modifiers == [Meaning.Zero(3), Meaning.Long];
    assert modifiers[1..] == [Meaning.Long] && [Meaning.Long][1..] == [];
    assert Meaning.ShowModifiers([Meaning.Long]) == [LOWER_L] + Meaning.ShowModifiers([]);
    assert Meaning.ShowModifiers(modifiers) == [ZERO, 51] + Meaning.ShowModifiers(modifiers[1..]);
    assert [LongDirective(true, 3)][1..] == [];
  }

  lemma FieldParse(n: i64, zero: bool, width: int)
    requires n > I64_MIN
    ensures var text := Field(SignedNumeral(n, 10), if zero then ZERO else SPACE, width);
      && Magnitude(Unsigned(text)) <= I64_MAX
      && (ParsedValue(text) == n <==> !(zero && n < 0 && width > |SignedNumeral(n, 10)|))
      && (ParsedValue(text) != n ==> ParsedValue(text) == 0)
  {
    var core := SignedNumeral(n, 10);
    var text := Field(core, if zero then ZERO else SPACE, width);
    var fill := Max(Abs(width) - |core|, 0);
    if width < 0 {
      assert text == Rep(SPACE, 0) + core + Rep(SPACE, fill);
      SpacedRoundTrip(n, 0, fill);
    } else if zero {
      assert text == Rep(ZERO, fill) + core;
      ZeroedRoundTrip(n, fill);
    } else {
      assert text == Rep(SPACE, fill) + core + Rep(SPACE, 0);
      SpacedRoundTrip(n, fill, 0);
    }
  }

  lemma SimpleDecimal(v: i32)
    ensures SimpleSupplied([PERCENT, LOWER_D], [I32(v)])
    ensures SimpleExpand([PERCENT, LOWER_D], [I32(v)]) == SignedNumeral(v, 10)
  {
    var fmt, args := [PERCENT, LOWER_D], [I32(v)];
    assert fmt[2..] == [] && args[1..] == [];
    assert SimpleExpand(fmt[2..], args[1..]) == [];
    assert SimpleExpand(fmt, args) == SimpleText(LOWER_D, args) + [];
  }

  /** `atoi` of what `simple_sprintf("%d", v)` prints is `v`, the least 32-bit number included. */
  lemma SimplePrintParse(v: i32)
    ensures SimpleSupplied([PERCENT, LOWER_D], [I32(v)])
    ensures var text := SimpleExpand([PERCENT, LOWER_D], [I32(v)]);
      Magnitude(Unsigned(text)) <= I64_MAX && ToInt(ParsedValue(text)) == v
  {
    SimpleDecimal(v);
    var text := SimpleExpand([PERCENT, LOWER_D], [I32(v)]);
    assert text == Rep(SPACE, 0) + SignedNumeral(v, 10) + Rep(SPACE, 0);
    SpacedRoundTrip(v, 0, 0);
  }

  lemma LongTextFits(n: i64, zero: bool, width: int)
    requires n > I64_MIN && Abs(width) <= INT_MAX
    ensures NUL !in LongFormat(zero, width)
    ensures WellTyped(LongFormat(zero, width), [I64(n)])
    ensures var text := Expand(LongFormat(zero, width), [I64(n)]); NUL !in text && |text| <= INT_MAX
  {
    LongText(n, zero, width);
    LongDirectiveMeans(zero, width);
    Meaning.ShownIsText(LongDirective(zero, width));
    assert NUL !in SignedNumeral(n, 10) by { NoNul(Abs(n), 10); }
    assert |SignedNumeral(n, 10)| <= 20 by {
      Pow10();
      DigitCount(Abs(n), 10, 19);
    }
  }

  /** Runs `my_snprintf` and then `atol` on what it wrote. */
  method PrintThenParse(n: i64, zero: bool, width: int) returns (parsed: i64)
    requires n > I64_MIN && Abs(width) <= INT_MAX
    ensures parsed == n <==> !(zero && n < 0 && width > |SignedNumeral(n, 10)|)
  {
    LongTextFits(n, zero, width);
    PrintParse(n, zero, width);
    var text, count := FormatAll(Terminated(LongFormat(zero, width)), [I64(n)]);
    assert text == Terminated(Expand(LongFormat(zero, width), [I64(n)]));
    parsed := Atol(text);
  }

  /** Runs `simple_sprintf("%d", v)` and then `atoi`. */
  method SimplePrintThenParse(v: i32) returns (parsed: i32)
    ensures parsed == v
  {
    SimplePrintParse(v);
    NoNul(Abs(v), 10);
    TemporariesSuffice(v, 0, false);
    var fmt := Terminated([PERCENT, LOWER_D]);
    var buf := new byte[32];
    ghost var text := SimpleExpand(Body(fmt), [I32(v)]);
    SimpleDecimal(v);
    var r := SimpleSprintf(buf, fmt, [I32(v)]);
    assert buf[..r + 1] == Terminated(text);
    parsed := Atoi(buf[..r + 1]);
  }
}

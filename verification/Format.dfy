/** What a format string means, independently of the cursor and the stream that interpret it. */
module Format {
  import opened CTypes
  import opened Numerals

  // ------------------------------------------------------------------ arguments and fields

  /** One entry of a `va_list`. */
  datatype Arg =
    | I32(i: i32)
    | I64(l: i64)
    | U32(u: u32)
    | U64(v: u64)
    | Ptr(p: u64)
    | Str(s: CString)

  /** `strprops_t`, plus the count of `l` modifiers seen. */
  datatype Spec = Spec(pad: byte, npad: int, alternate: bool, longs: nat)

  const NO_SPEC := Spec(SPACE, 0, false, 0)

  /** A text in a field: on the right of it for a positive width, on the left of it for a negative one,
      where the pad character is then always a space. */
  function Field(text: seq<byte>, pad: byte, npad: int): seq<byte> {
    if npad >= 0 then Rep(pad, npad - |text|) + text else text + Rep(SPACE, -npad - |text|)
  }

  function SignedField(n: int, base: nat, sp: Spec): seq<byte>
    requires 2 <= base <= 16
  {
    Field(SignedNumeral(n, base), sp.pad, sp.npad)
  }

  predicate Prefixed(n: nat, base: nat, alternate: bool) { alternate && base == 16 && n != 0 }

  /** `0x` precedes a non-zero number; under zero padding it also precedes the padding. */
  function UnsignedField(n: nat, base: nat, sp: Spec): seq<byte>
    requires 2 <= base <= 16
  {
    if !Prefixed(n, base, sp.alternate) then Field(Numeral(n, base), sp.pad, sp.npad)
    else if sp.pad == ZERO then
      [ZERO, LOWER_X] + Field(Numeral(n, base), ZERO, if sp.npad > 0 then Max(sp.npad - 2, 0) else sp.npad)
    else Field([ZERO, LOWER_X] + Numeral(n, base), sp.pad, sp.npad)
  }

  /** The width every field has, and where its text sits. */
  lemma FieldWidth(text: seq<byte>, pad: byte, npad: int)
    ensures |Field(text, pad, npad)| == Max(Abs(npad), |text|)
    ensures npad >= 0 ==> text == Field(text, pad, npad)[Max(npad - |text|, 0)..]
    ensures npad >= 0 ==> forall i :: 0 <= i < npad - |text| ==> Field(text, pad, npad)[i] == pad
    ensures npad < 0 ==> text <= Field(text, pad, npad)
    ensures npad < 0 ==> forall i :: |text| <= i < |Field(text, pad, npad)| ==> Field(text, pad, npad)[i] == SPACE
  {
  }

  /** The text a number has before any padding. */
  function Natural(n: nat, base: nat, alternate: bool): seq<byte>
    requires 2 <= base <= 16
  {
    if Prefixed(n, base, alternate) then [ZERO, LOWER_X] + Numeral(n, base) else Numeral(n, base)
  }

  /** The field-width law of `print_unsigned`, and exactly when it fails: a zero-padded prefixed number in a
      left-justified field wider than its digits fills that field and has its prefix besides. That is one character
      too many where the field is one wider than the digits, and two where it is wider still. */
  lemma UnsignedFieldWidth(n: nat, base: nat, sp: Spec)
    requires 2 <= base <= 16
    ensures var natural := |Natural(n, base, sp.alternate)|;
      |UnsignedField(n, base, sp)| == Max(Abs(sp.npad), natural) <==>
      !(Prefixed(n, base, sp.alternate) && sp.pad == ZERO && sp.npad < 0 && -sp.npad > |Numeral(n, base)|)
    ensures
      Prefixed(n, base, sp.alternate) && sp.pad == ZERO && sp.npad < 0 && -sp.npad > |Numeral(n, base)| ==>
      var excess := |UnsignedField(n, base, sp)| - Max(-sp.npad, |Natural(n, base, sp.alternate)|);
      |UnsignedField(n, base, sp)| == 2 - sp.npad && excess == if -sp.npad == |Numeral(n, base)| + 1 then 1 else 2
    ensures sp.npad >= 0 ==> |UnsignedField(n, base, sp)| == Max(sp.npad, |Natural(n, base, sp.alternate)|)
  {
  }

  // ------------------------------------------------------------------ scanning

  /** The length of the run of decimal digits a text starts with. */
  function DigitRun(s: seq<byte>): (k: nat)
    ensures k <= |s|
    ensures forall i :: 0 <= i < k ==> IsDigit(s[i])
    ensures k < |s| ==> !IsDigit(s[k])
  {
    if s == [] || !IsDigit(s[0]) then 0 else 1 + DigitRun(s[1..])
  }

  /** The width at the start of a text: an optional minus and the digits after it. */
  function NumberAt(s: seq<byte>): (num: int)
  {
    if s != [] && s[0] == MINUS then 0 - Value(s[1..][..DigitRun(s[1..])], 10) else Value(s[..DigitRun(s)], 10)
  }

  function NumberLen(s: seq<byte>): (k: nat)
    ensures k <= |s|
  {
    if s != [] && s[0] == MINUS then 1 + DigitRun(s[1..]) else DigitRun(s)
  }

  /** The outcome of scanning a directive: the conversion character (NUL when the format ended first),
      the properties gathered on the way, and the format that remains. */
  datatype Directive = Directive(conv: byte, sp: Spec, rest: seq<byte>)

  /** The `morefmt` loop: flags, widths and length modifiers in any order and number, the last width winning. */
  function Scan(s: seq<byte>, sp: Spec): (d: Directive)
    ensures |d.rest| <= |s| && (s != [] ==> |d.rest| < |s|)
    decreases |s|
  {
    if s == [] then Directive(NUL, sp, [])
    else if s[0] == HASH then Scan(s[1..], sp.(alternate := true))
    else if s[0] == LOWER_L then Scan(s[1..], sp.(longs := sp.longs + 1))
    else if s[0] == ZERO then
      Scan(s[1..][NumberLen(s[1..])..], sp.(pad := ZERO, npad := NumberAt(s[1..])))
    else if IsDigit(s[0]) || s[0] == MINUS then
      Scan(s[NumberLen(s)..], sp.(npad := NumberAt(s)))
    else Directive(s[0], sp, s[1..])
  }

  /** Every width met on the way to the conversion character fits an `int`. */
  predicate WidthsFit(s: seq<byte>)
    decreases |s|
  {
    if s == [] then true
    else if s[0] == HASH || s[0] == LOWER_L then WidthsFit(s[1..])
    else if s[0] == ZERO then Abs(NumberAt(s[1..])) <= INT_MAX && WidthsFit(s[1..][NumberLen(s[1..])..])
    else if IsDigit(s[0]) || s[0] == MINUS then Abs(NumberAt(s)) <= INT_MAX && WidthsFit(s[NumberLen(s)..])
    else true
  }

  /** A `0` flag takes the number behind it. */
  lemma ZeroFlag(s: seq<byte>, sp: Spec)
    requires s != [] && s[0] == ZERO
    ensures var t := s[1..];
      && Scan(s, sp) == Scan(t[NumberLen(t)..], sp.(pad := ZERO, npad := NumberAt(t)))
      && (WidthsFit(s) <==> Abs(NumberAt(t)) <= INT_MAX && WidthsFit(t[NumberLen(t)..]))
  {
  }

  lemma WidthFirst(s: seq<byte>, sp: Spec)
    requires s != [] && s[0] != ZERO && (IsDigit(s[0]) || s[0] == MINUS)
    ensures NumberLen(s) > 0 && Scan(s, sp) == Scan(s[NumberLen(s)..], sp.(npad := NumberAt(s)))
    ensures WidthsFit(s) <==> Abs(NumberAt(s)) <= INT_MAX && WidthsFit(s[NumberLen(s)..])
  {
  }

  // ------------------------------------------------------------------ meaning

  predicate TakesArgument(conv: byte) {
    conv in [LOWER_C, LOWER_D, LOWER_U, LOWER_X, LOWER_P, LOWER_S]
  }

  /** The argument type C requires for a conversion; the most negative 64-bit number, whose negation
      C leaves undefined, is not printable. */
  predicate Typed(conv: byte, longs: nat, arg: Arg) {
    if conv == LOWER_C then arg.I32?
    else if conv == LOWER_D then if longs == 0 then arg.I32? else arg.I64? && arg.l > I64_MIN
    else if conv == LOWER_U || conv == LOWER_X then if longs == 0 then arg.U32? else arg.U64?
    else if conv == LOWER_P then arg.Ptr?
    else conv == LOWER_S && arg.Str?
  }

  function Convert(conv: byte, sp: Spec, arg: Arg): seq<byte>
    requires Typed(conv, sp.longs, arg)
  {
    match arg
    case I32(i) => if conv == LOWER_C then [i % 0x100] else SignedField(i, 10, sp)
    case I64(l) => SignedField(l, 10, sp)
    case U32(u) => UnsignedField(u, if conv == LOWER_X then 16 else 10, sp)
    case U64(v) => UnsignedField(v, if conv == LOWER_X then 16 else 10, sp)
    case Ptr(p) => UnsignedField(p, 16, sp.(alternate := true))
    case Str(s) => Field(Body(s), sp.pad, sp.npad)
  }

  /** What one directive adds to the text. A conversion character without a meaning stands for itself, and a
      directive cut off by the end of the format for nothing. */
  function DirectiveText(conv: byte, props: Spec, va: seq<Arg>): seq<byte>
    requires TakesArgument(conv) ==> va != [] && Typed(conv, props.longs, va[0])
  {
    if TakesArgument(conv) then Convert(conv, props, va[0]) else if conv == NUL then [] else [conv]
  }

  /** The arguments are enough and of the right types, and every width fits. */
  predicate WellTyped(fmt: seq<byte>, args: seq<Arg>)
    decreases |fmt|
  {
    if fmt == [] then true
    else if fmt[0] != PERCENT then WellTyped(fmt[1..], args)
    else
      var d := Scan(fmt[1..], NO_SPEC);
      && WidthsFit(fmt[1..])
      && if TakesArgument(d.conv)
         then args != [] && Typed(d.conv, d.sp.longs, args[0]) && WellTyped(d.rest, args[1..])
         else WellTyped(d.rest, args)
  }

  /** The full text of a format, whatever the size of the buffer. */
  function Expand(fmt: seq<byte>, args: seq<Arg>): seq<byte>
    requires WellTyped(fmt, args)
    decreases |fmt|
  {
    if fmt == [] then []
    else if fmt[0] != PERCENT then [fmt[0]] + Expand(fmt[1..], args)
    else
      var d := Scan(fmt[1..], NO_SPEC);
      DirectiveText(d.conv, d.sp, args) + Expand(d.rest, if TakesArgument(d.conv) then args[1..] else args)
  }

  /** What a buffer holds after a text was printed to it: as much as fits before the terminator,
      the terminator, and everything behind it as it was. */
  function Written(text: seq<byte>, size: nat, before: seq<byte>): (after: seq<byte>)
    requires 1 <= size <= |before|
    ensures |after| == |before|
    ensures var m := Min(size - 1, |text|);
      after[..m] == text[..m] && after[m] == NUL && after[m + 1..] == before[m + 1..] && after[size..] == before[size..]
  {
    var m := Min(size - 1, |text|);
    text[..m] + [NUL] + before[m + 1..]
  }

  /** The same byte by byte, for a text that fits and for one that does not. */
  lemma WrittenBytes(text: seq<byte>, size: nat, before: seq<byte>)
    requires 1 <= size <= |before|
    ensures var after := Written(text, size, before);
      && |after| == |before|
      && (forall i :: 0 <= i < |text| && i < size - 1 ==> after[i] == text[i])
      && (if |text| < size then after[|text|] == 0 else after[size - 1] == 0)
      && (forall i :: i > |text| && i < |before| ==> after[i] == before[i])
      && (forall i :: size <= i < |before| ==> after[i] == before[i])
  {
    var after, m := Written(text, size, before), Min(size - 1, |text|);
    assert forall i :: 0 <= i < m ==> after[i] == after[..m][i] == text[..m][i];
    assert forall i :: m < i < |before| ==> after[i] == after[m + 1..][i - m - 1] == before[m + 1..][i - m - 1];
  }
}

/** What the conversions of the two formatters print, said of the characters of the format and of the text. */
module Printed {
  import opened CTypes
  import opened Numerals
  import opened Format
  import opened Logger
  import opened Meaning
  import Sprintf
  import Agreement

  // ------------------------------------------------------------------ from characters to directives

  function Longs(n: nat): seq<Modifier> { seq(n, _ => Long) }

  lemma {:induction false} LongsMean(n: nat, sp: Spec)
    ensures ShowModifiers(Longs(n)) == Rep(108, n) && ApplyAll(Longs(n), sp) == sp.(longs := sp.longs + n)
    decreases n
  {
    if n > 0 {
      assert Longs(n)[1..] == Longs(n - 1) && Longs(n)[0] == Long;
      assert Rep(108, n) == [108] + Rep(108, n - 1);
      LongsMean(n - 1, sp.(longs := sp.longs + 1));
    }
  }

  lemma {:induction false} Appended(a: seq<Modifier>, b: seq<Modifier>, sp: Spec)
    ensures ShowModifiers(a + b) == ShowModifiers(a) + ShowModifiers(b)
    ensures ApplyAll(a + b, sp) == ApplyAll(b, ApplyAll(a, sp))
    decreases |a|
  {
    if a == [] {
      assert a + b == b;
      assert [] + ShowModifiers(b) == ShowModifiers(b);
    } else {
      assert (a + b)[1..] == a[1..] + b && (a + b)[0] == a[0];
      Appended(a[1..], b, a[0].Apply(sp));
      Associates(a[0].Show(), ShowModifiers(a[1..]), ShowModifiers(b));
    }
  }

  /** The format takes these arguments and prints this text. */
  predicate Prints(fmt: seq<byte>, args: seq<Arg>, text: seq<byte>) {
    WellTyped(fmt, args) && Expand(fmt, args) == text
  }

  lemma StillSeparated(pre: seq<Modifier>, longs: nat)
    requires Separated(pre)
    ensures Separated(pre + Longs(longs))
  {
  }

  lemma Shown(modifiers: seq<Modifier>, conv: byte)
    ensures Show([Conversion(modifiers, conv)]) == [37] + (ShowModifiers(modifiers) + [conv])
  {
    assert [Conversion(modifiers, conv)][1..] == [];
  }

  /** A directive of some flags and a width, any number of `l`, and a conversion. */
  lemma ShownAs(pre: seq<Modifier>, flags: seq<byte>, longs: nat, conv: byte)
    requires ShowModifiers(pre) == flags
    ensures Show([Conversion(pre + Longs(longs), conv)]) == [37] + flags + Rep(108, longs) + [conv]
  {
    LongsMean(longs, NO_SPEC);
    Appended(pre, Longs(longs), NO_SPEC);
    Shown(pre + Longs(longs), conv);
    assert [37] + (flags + Rep(108, longs) + [conv]) == [37] + flags + Rep(108, longs) + [conv];
  }

  lemma OneDirective(pre: seq<Modifier>, flags: seq<byte>, sp: Spec, longs: nat, conv: byte, arg: Arg)
    requires Separated(pre) && ShowModifiers(pre) == flags && ApplyAll(pre, NO_SPEC) == sp && sp.longs == 0
    requires Plain(conv) && TakesArgument(conv) && Typed(conv, longs, arg)
    ensures Prints([37] + flags + Rep(108, longs) + [conv], [arg], Convert(conv, sp.(longs := longs), arg))
  {
    var item := Conversion(pre + Longs(longs), conv);
    StillSeparated(pre, longs);
    LongsMean(longs, sp);
    Appended(pre, Longs(longs), NO_SPEC);
    assert item.Props() == sp.(longs := longs);
    SingleDirective(item, arg);
    ShownAs(pre, flags, longs, conv);
  }

  lemma NoFlags(longs: nat, conv: byte, arg: Arg)
    requires Plain(conv) && TakesArgument(conv) && Typed(conv, longs, arg)
    ensures Prints([37] + Rep(108, longs) + [conv], [arg], Convert(conv, NO_SPEC.(longs := longs), arg))
  {
    NothingBetween();
    OneDirective([], [], NO_SPEC, longs, conv, arg);
  }

  lemma NothingBetween()
    ensures [37 as byte] + [] == [37]
  {
  }

  lemma OneFlag(m: Modifier, longs: nat, conv: byte, arg: Arg)
    requires m.Valid() && !m.Long? && Plain(conv) && TakesArgument(conv) && Typed(conv, longs, arg)
    ensures Prints([37] + m.Show() + Rep(108, longs) + [conv], [arg],
      Convert(conv, m.Apply(NO_SPEC).(longs := longs), arg))
  {
    OnlyOne(m, NO_SPEC);
    OneDirective([m], m.Show(), m.Apply(NO_SPEC), longs, conv, arg);
  }

  lemma OnlyOne(m: Modifier, sp: Spec)
    ensures ShowModifiers([m]) == m.Show() && ApplyAll([m], sp) == m.Apply(sp)
  {
    assert [m][1..] == [] && ShowModifiers([]) == [];
    assert m.Show() + [] == m.Show();
  }

  lemma TwoFlags(m: Modifier, longs: nat, conv: byte, arg: Arg)
    requires m.Zero? && m.Valid() && Plain(conv) && TakesArgument(conv) && Typed(conv, longs, arg)
    ensures Prints([37] + ([35] + m.Show()) + Rep(108, longs) + [conv], [arg],
      Convert(conv, m.Apply(NO_SPEC).(alternate := true, longs := longs), arg))
  {
    BothShown(m);
    OneDirective([Alternate, m], [35] + m.Show(), m.Apply(NO_SPEC).(alternate := true), longs, conv, arg);
  }

  lemma BothShown(m: Modifier)
    requires m.Zero?
    ensures ShowModifiers([Alternate, m]) == [35] + m.Show()
    ensures ApplyAll([Alternate, m], NO_SPEC) == m.Apply(NO_SPEC).(alternate := true)
  {
    assert [Alternate, m][1..] == [m];
    OnlyOne(m, NO_SPEC.(alternate := true));
  }

  lemma Unpadded(text: seq<byte>, pad: byte)
    ensures Field(text, pad, 0) == text
  {
    assert Rep(pad, 0 - |text|) + text == text;
  }

  // ------------------------------------------------------------------ numbers

  /** `%d`, `%ld`, `%lld`: a minus for a negative number, and its decimal numeral. */
  lemma SignedDecimal(longs: nat, v: int, arg: Arg)
    requires -0x8000_0000_0000_0000 < v < 0x8000_0000_0000_0000
    requires longs == 0 ==> -0x8000_0000 <= v < 0x8000_0000
    requires arg == if longs == 0 then I32(v) else I64(v)
    ensures var fmt := Ascii("%") + Rep(108, longs) + Ascii("d");
      && WellTyped(fmt, [arg])
      && var text := Expand(fmt, [arg]);
      if v < 0 then text != [] && text[0] == 45 && IsNumeral(text[1..], 10) && Value(text[1..], 10) == -v
      else IsNumeral(text, 10) && Value(text, 10) == v
  {
    assert Ascii("%") == [37] && Ascii("d") == [100];
    NoFlags(longs, 100, arg);
    Unpadded(SignedNumeral(v, 10), SPACE);
    NumeralMeans(Abs(v), 10);
  }

  /** `%u`, `%lu`, `%llu`: the decimal numeral. */
  lemma UnsignedDecimal(longs: nat, v: u64, arg: Arg)
    requires longs == 0 ==> v < 0x1_0000_0000
    requires arg == if longs == 0 then U32(v) else U64(v)
    ensures var fmt := Ascii("%") + Rep(108, longs) + Ascii("u");
      && WellTyped(fmt, [arg])
      && var text := Expand(fmt, [arg]);
      IsNumeral(text, 10) && Value(text, 10) == v
  {
    assert Ascii("%") == [37] && Ascii("u") == [117];
    NoFlags(longs, 117, arg);
    Unpadded(Numeral(v, 10), SPACE);
    NumeralMeans(v, 10);
  }

  /** `%x`, `%lx`, `%llx`: the hexadecimal numeral, in lower case. */
  lemma Hex(longs: nat, v: u64, arg: Arg)
    requires longs == 0 ==> v < 0x1_0000_0000
    requires arg == if longs == 0 then U32(v) else U64(v)
    ensures var fmt := Ascii("%") + Rep(108, longs) + Ascii("x");
      && WellTyped(fmt, [arg])
      && var text := Expand(fmt, [arg]);
      IsNumeral(text, 16) && Value(text, 16) == v
  {
    assert Ascii("%") == [37] && Ascii("x") == [120];
    NoFlags(longs, 120, arg);
    Unpadded(Numeral(v, 16), SPACE);
    NumeralMeans(v, 16);
  }

  /** `%#x`, `%#lx`, `%#llx`: the same behind `0x`, but for a bare zero. */
  lemma HexPrefixed(longs: nat, v: u64, arg: Arg)
    requires longs == 0 ==> v < 0x1_0000_0000
    requires arg == if longs == 0 then U32(v) else U64(v)
    ensures var fmt := Ascii("%#") + Rep(108, longs) + Ascii("x");
      && WellTyped(fmt, [arg])
      && var text := Expand(fmt, [arg]);
      if v == 0 then text == Ascii("0")
      else |text| > 2 && text[..2] == Ascii("0x") && IsNumeral(text[2..], 16) && Value(text[2..], 16) == v
  {
    assert Ascii("%#") == [37] + [35] && Ascii("x") == [120];
    assert Alternate.Show() == [35];
    OneFlag(Alternate, longs, 120, arg);
    PrefixedText(v);
  }

  /** `%p`: the same for a pointer. */
  lemma Pointer(p: u64)
    ensures WellTyped(Ascii("%p"), [Ptr(p)])
    ensures var text := Expand(Ascii("%p"), [Ptr(p)]);
      if p == 0 then text == Ascii("0")
      else |text| > 2 && text[..2] == Ascii("0x") && IsNumeral(text[2..], 16) && Value(text[2..], 16) == p
  {
    ShortFormats();
    NoFlags(0, 112, Ptr(p));
    PrefixedText(p);
  }

  lemma PrefixedText(v: nat)
    ensures var text := UnsignedField(v, 16, NO_SPEC.(alternate := true));
      if v == 0 then text == Ascii("0")
      else |text| > 2 && text[..2] == Ascii("0x") && IsNumeral(text[2..], 16) && Value(text[2..], 16) == v
  {
    assert Ascii("0") == [48] && Ascii("0x") == [48, 120];
    NumeralMeans(v, 16);
    Unpadded(Numeral(v, 16), SPACE);
    Unpadded([ZERO, LOWER_X] + Numeral(v, 16), SPACE);
  }

  // ------------------------------------------------------------------ widths

  /** The argument C wants for `%d`, `%u`, `%x` and `%s` with that many `l`. */
  predicate Suits(conv: byte, longs: nat, arg: Arg) {
    if conv == 100 then if longs == 0 then arg.I32? else arg.I64? && arg.l > -0x8000_0000_0000_0000
    else if conv == 117 || conv == 120 then if longs == 0 then arg.U32? else arg.U64?
    else conv == 115 && arg.Str?
  }

  function Flag(zero: bool, left: bool, w: nat): Modifier {
    var npad: int := if left then 0 - w else w;
    if zero then Zero(npad) else Width(npad)
  }

  /** The characters of the `0` flag and of the minus. */
  function Flags(zero: bool, left: bool): seq<byte> {
    if zero then if left then [48, 45] else [48] else if left then [45] else []
  }

  /** The number a width stands for: negative with a minus. */
  function Signed(left: bool, w: nat): int { if left then 0 - w else w }

  function PadOf(zero: bool): byte { if zero then 48 else 32 }

  lemma FieldOfPlain(zero: bool, left: bool, w: nat, longs: nat, conv: byte, arg: Arg)
    requires Suits(conv, longs, arg)
    ensures Typed(conv, longs, arg)
    ensures Convert(conv, Flag(zero, left, w).Apply(NO_SPEC).(longs := longs), arg) ==
      Field(Convert(conv, NO_SPEC.(longs := longs), arg), PadOf(zero), Signed(left, w))
  {
    match arg
    case I32(i) => Unpadded(SignedNumeral(i, 10), SPACE);
    case I64(l) => Unpadded(SignedNumeral(l, 10), SPACE);
    case U32(u) => Unpadded(Numeral(u, if conv == 120 then 16 else 10), SPACE);
    case U64(v) => Unpadded(Numeral(v, if conv == 120 then 16 else 10), SPACE);
    case Str(s) => Unpadded(Body(s), SPACE);
  }

  lemma FlagShown(zero: bool, left: bool, width: seq<byte>)
    requires IsNumeral(width, 10) && Value(width, 10) > 0
    ensures Flag(zero, left, Value(width, 10)).Show() == Flags(zero, left) + width
  {
    NumeralUnique(width, 10);
    FlagBytes(zero, left, Value(width, 10));
  }

  lemma FlagBytes(zero: bool, left: bool, w: nat)
    requires w > 0
    ensures Flag(zero, left, w).Show() == Flags(zero, left) + Numeral(w, 10)
  {
    var digits := Numeral(w, 10);
    assert [48] + ([45] + digits) == [48, 45] + digits;
    assert [] + digits == digits;
  }

  lemma Placed(plain: seq<byte>, pad: byte, npad: int)
    ensures var text := Field(plain, pad, npad);
      && |text| == Max(Abs(npad), |plain|)
      && if npad < 0 then text[..|plain|] == plain && forall i :: |plain| <= i < |text| ==> text[i] == 32
         else text[|text| - |plain|..] == plain && forall i :: 0 <= i < |text| - |plain| ==> text[i] == pad
  {
  }

  /** A width makes the text of `%d`, `%u`, `%x` and `%s`, with any number of `l`, at least that long. What is
      missing comes before it: spaces, or zeros under the `0` flag; with `-` it comes behind it and is spaces. */
  lemma Widths(zero: bool, left: bool, width: seq<byte>, longs: nat, conv: byte, arg: Arg)
    returns (plain: seq<byte>, text: seq<byte>)
    requires IsNumeral(width, 10) && 0 < Value(width, 10) <= 0x7fff_ffff && Suits(conv, longs, arg)
    ensures Prints([37] + Rep(108, longs) + [conv], [arg], plain)
    ensures Prints([37] + (Flags(zero, left) + width) + Rep(108, longs) + [conv], [arg], text)
    ensures |text| == Max(Value(width, 10), |plain|)
    ensures left ==> text[..|plain|] == plain && forall i :: |plain| <= i < |text| ==> text[i] == 32
    ensures !left ==> text[|text| - |plain|..] == plain
    ensures !left ==> forall i :: 0 <= i < |text| - |plain| ==> text[i] == if zero then 48 else 32
  {
    plain, text := WidthText(zero, left, width, Value(width, 10), longs, conv, arg);
    PlacedBy(zero, left, Value(width, 10), plain, text);
  }

  lemma PlacedBy(zero: bool, left: bool, w: nat, plain: seq<byte>, text: seq<byte>)
    requires w > 0 && text == Field(plain, PadOf(zero), Signed(left, w))
    ensures |text| == Max(w, |plain|)
    ensures left ==> text[..|plain|] == plain && forall i :: |plain| <= i < |text| ==> text[i] == 32
    ensures !left ==> text[|text| - |plain|..] == plain
    ensures !left ==> forall i :: 0 <= i < |text| - |plain| ==> text[i] == if zero then 48 else 32
  {
    Placed(plain, PadOf(zero), Signed(left, w));
  }

  lemma WidthText(zero: bool, left: bool, width: seq<byte>, w: nat, longs: nat, conv: byte, arg: Arg)
    returns (plain: seq<byte>, text: seq<byte>)
    requires IsNumeral(width, 10) && Value(width, 10) == w && 0 < w <= 0x7fff_ffff && Suits(conv, longs, arg)
    ensures Prints([37] + Rep(108, longs) + [conv], [arg], plain)
    ensures Prints([37] + (Flags(zero, left) + width) + Rep(108, longs) + [conv], [arg], text)
    ensures text == Field(plain, PadOf(zero), Signed(left, w))
  {
    FieldOfPlain(zero, left, w, longs, conv, arg);
    plain := PlainText(longs, conv, arg);
    text := FlaggedText(zero, left, width, w, longs, conv, arg);
  }

  lemma PlainText(longs: nat, conv: byte, arg: Arg) returns (plain: seq<byte>)
    requires Suits(conv, longs, arg)
    ensures Prints([37] + Rep(108, longs) + [conv], [arg], plain)
    ensures Typed(conv, longs, arg) && plain == Convert(conv, NO_SPEC.(longs := longs), arg)
  {
    NoFlags(longs, conv, arg);
    plain := Convert(conv, NO_SPEC.(longs := longs), arg);
  }

  lemma FlaggedText(zero: bool, left: bool, width: seq<byte>, w: nat, longs: nat, conv: byte, arg: Arg)
    returns (text: seq<byte>)
    requires IsNumeral(width, 10) && Value(width, 10) == w && 0 < w <= 0x7fff_ffff && Suits(conv, longs, arg)
    ensures Prints([37] + (Flags(zero, left) + width) + Rep(108, longs) + [conv], [arg], text)
    ensures Typed(conv, longs, arg) && text == Convert(conv, Flag(zero, left, w).Apply(NO_SPEC).(longs := longs), arg)
  {
    FlagShown(zero, left, width);
    OneFlag(Flag(zero, left, w), longs, conv, arg);
    text := Convert(conv, Flag(zero, left, w).Apply(NO_SPEC).(longs := longs), arg);
  }

  /** `%#0<width>x` of a non-zero number: `0x`, zeros, and the digits that `%x` prints. */
  lemma ZerosBehindPrefix(width: seq<byte>, longs: nat, v: u64, arg: Arg) returns (plain: seq<byte>, text: seq<byte>)
    requires IsNumeral(width, 10) && 0 < Value(width, 10) <= 0x7fff_ffff
    requires v > 0 && (longs == 0 ==> v < 0x1_0000_0000) && arg == if longs == 0 then U32(v) else U64(v)
    ensures Prints([37] + Rep(108, longs) + [120], [arg], plain)
    ensures Prints([37] + ([35] + ([48] + width)) + Rep(108, longs) + [120], [arg], text)
    ensures |text| == Max(Value(width, 10), 2 + |plain|)
    ensures text[0] == 48 && text[1] == 120 && text[|text| - |plain|..] == plain
    ensures forall i :: 2 <= i < |text| - |plain| ==> text[i] == 48
  {
    plain, text := PrefixedWidthText(width, longs, v, arg);
    BehindPrefix(Value(width, 10), plain, text);
  }

  lemma BehindPrefix(w: int, plain: seq<byte>, text: seq<byte>)
    requires w > 0 && text == [48, 120] + Field(plain, 48, Max(w - 2, 0))
    ensures |text| == Max(w, 2 + |plain|) && text[0] == 48 && text[1] == 120 && text[|text| - |plain|..] == plain
    ensures forall i :: 2 <= i < |text| - |plain| ==> text[i] == 48
  {
    Placed(plain, 48, Max(w - 2, 0));
    BehindTwo(text, plain, Field(plain, 48, Max(w - 2, 0)));
  }

  lemma PrefixedWidthText(width: seq<byte>, longs: nat, v: u64, arg: Arg) returns (plain: seq<byte>, text: seq<byte>)
    requires IsNumeral(width, 10) && 0 < Value(width, 10) <= 0x7fff_ffff
    requires v > 0 && (longs == 0 ==> v < 0x1_0000_0000) && arg == if longs == 0 then U32(v) else U64(v)
    ensures Prints([37] + Rep(108, longs) + [120], [arg], plain)
    ensures Prints([37] + ([35] + ([48] + width)) + Rep(108, longs) + [120], [arg], text)
    ensures var w: int := Value(width, 10); text == [48, 120] + Field(plain, 48, Max(w - 2, 0))
  {
    plain := PlainText(longs, 120, arg);
    text := ZeroFlaggedText(width, Value(width, 10), longs, arg);
    PrefixedField(Value(width, 10), longs, v, arg);
  }

  lemma PrefixedField(w: nat, longs: nat, v: u64, arg: Arg)
    requires w > 0 && v > 0 && (longs == 0 ==> v < 0x1_0000_0000) && arg == if longs == 0 then U32(v) else U64(v)
    ensures Convert(120, Zero(w).Apply(NO_SPEC).(alternate := true, longs := longs), arg) ==
      [48, 120] + Field(Convert(120, NO_SPEC.(longs := longs), arg), 48, Max(w as int - 2, 0))
  {
    Unpadded(Numeral(v, 16), SPACE);
  }

  lemma ZeroFlaggedText(width: seq<byte>, w: nat, longs: nat, arg: Arg) returns (text: seq<byte>)
    requires IsNumeral(width, 10) && Value(width, 10) == w && 0 < w <= 0x7fff_ffff && Suits(120, longs, arg)
    ensures Prints([37] + ([35] + ([48] + width)) + Rep(108, longs) + [120], [arg], text)
    ensures Typed(120, longs, arg)
    ensures text == Convert(120, Zero(w).Apply(NO_SPEC).(alternate := true, longs := longs), arg)
  {
    FlagShown(true, false, width);
    TwoFlags(Zero(w), longs, 120, arg);
    text := Convert(120, Zero(w).Apply(NO_SPEC).(alternate := true, longs := longs), arg);
  }

  lemma BehindTwo(text: seq<byte>, plain: seq<byte>, field: seq<byte>)
    requires text == [48, 120] + field && |plain| <= |field| && field[|field| - |plain|..] == plain
    requires forall i :: 0 <= i < |field| - |plain| ==> field[i] == 48
    ensures text[0] == 48 && text[1] == 120 && text[|text| - |plain|..] == plain
    ensures forall i :: 2 <= i < |text| - |plain| ==> text[i] == 48
  {
  }

  // ------------------------------------------------------------------ texts

  lemma ShortFormats()
    ensures Ascii("%s") == [37] + Rep(108, 0) + [115] && Ascii("%c") == [37] + Rep(108, 0) + [99]
    ensures Ascii("%p") == [37] + Rep(108, 0) + [112]
  {
  }

  /** `%s` is the string up to its terminator. */
  lemma StringText(s: CString)
    ensures WellTyped(Ascii("%s"), [Str(s)]) && Expand(Ascii("%s"), [Str(s)]) == s[..|s| - 1]
  {
    ShortFormats();
    NoFlags(0, 115, Str(s));
    Unpadded(Body(s), SPACE);
  }

  /** `%c` is the low byte of its argument. */
  lemma CharacterText(c: i32)
    ensures WellTyped(Ascii("%c"), [I32(c)]) && Expand(Ascii("%c"), [I32(c)]) == [c % 256]
  {
    ShortFormats();
    NoFlags(0, 99, I32(c));
  }

  /** Characters other than `%` stand for themselves. */
  lemma {:induction false} Literals(s: seq<byte>)
    requires 37 !in s
    ensures WellTyped(s, []) && Expand(s, []) == s
  {
    if s != [] {
      Literals(s[1..]);
      assert s[0] in s && s == [s[0]] + s[1..];
    }
  }

  /** So does a character without a meaning behind a `%`, another `%` among them; a `%` that ends the format
      prints nothing. */
  lemma Unknown(c: byte)
    requires c !in Ascii("cduxps#l-0123456789") && c != 0
    ensures WellTyped([37, c], []) && Expand([37, c], []) == [c]
    ensures WellTyped([37], []) && Expand([37], []) == []
  {
    assert forall i :: 0 <= i < 19 ==> Ascii("cduxps#l-0123456789")[i] != c;
    NotAmong(c);
    Agreement.ScanOne(c);
    assert [37, c][1..] == [c] && [37][1..] == [];
  }

  lemma NotAmong(c: byte)
    requires forall i :: 0 <= i < 19 ==> Ascii("cduxps#l-0123456789")[i] != c
    ensures !TakesArgument(c) && !Agreement.IsFlag(c)
  {
    var s := Ascii("cduxps#l-0123456789");
    assert s[0] == 99 && s[1] == 100 && s[2] == 117 && s[3] == 120 && s[4] == 112 && s[5] == 115;
    assert s[6] == 35 && s[7] == 108 && s[8] == 45;
    assert s[9] == 48 && s[10] == 49 && s[11] == 50 && s[12] == 51 && s[13] == 52;
    assert s[14] == 53 && s[15] == 54 && s[16] == 55 && s[17] == 56 && s[18] == 57;
  }

  // ------------------------------------------------------------------ the second formatter

  lemma SimpleOne(conv: byte, args: seq<Arg>)
    requires Sprintf.SimpleTakes(conv) && |args| == 1 && Sprintf.SimpleTyped(conv, args[0])
    ensures Sprintf.SimpleSupplied([37, conv], args)
    ensures Sprintf.SimpleExpand([37, conv], args) == Sprintf.SimpleText(conv, args)
  {
    assert [37, conv][2..] == [] && args[1..] == [];
  }

  /** `%x` of `simple_sprintf`: `0x` and the numeral in lower case, for zero too. */
  lemma SimpleLowerHex(u: u32)
    ensures Sprintf.SimpleSupplied(Ascii("%x"), [U32(u)])
    ensures var text := Sprintf.SimpleExpand(Ascii("%x"), [U32(u)]);
      |text| > 2 && text[..2] == Ascii("0x") && IsNumeral(text[2..], 16) && Value(text[2..], 16) == u
  {
    assert Ascii("%x") == [37, 120] && Ascii("0x") == [48, 120];
    SimpleOne(120, [U32(u)]);
    NumeralMeans(u, 16);
  }

  /** `%X`: `0X` and the numeral in upper case. */
  lemma SimpleUpperHex(u: u32)
    ensures Sprintf.SimpleSupplied(Ascii("%X"), [U32(u)])
    ensures var text := Sprintf.SimpleExpand(Ascii("%X"), [U32(u)]);
      && |text| > 2 && text[..2] == Ascii("0X") && Value(text[2..], 16) == u && (text[2] == 48 ==> |text| == 3)
      && forall i :: 2 <= i < |text| ==> 48 <= text[i] <= 57 || 65 <= text[i] <= 70
  {
    assert Ascii("%X") == [37, 88];
    SimpleOne(88, [U32(u)]);
    UpperHexText(u);
  }

  lemma UpperHexText(u: nat)
    ensures var text := Sprintf.HexText(u, true);
      && |text| > 2 && text[..2] == Ascii("0X") && Value(text[2..], 16) == u && (text[2] == 48 ==> |text| == 3)
      && forall i :: 2 <= i < |text| ==> 48 <= text[i] <= 57 || 65 <= text[i] <= 70
  {
    NumeralMeans(u, 16);
    UpperKeepsValue(Numeral(u, 16));
    UpperNumeral(Numeral(u, 16));
    BehindUpperPrefix(Upper(Numeral(u, 16)));
  }

  lemma BehindUpperPrefix(digits: seq<byte>)
    ensures ([48, 88] + digits)[..2] == Ascii("0X") && ([48, 88] + digits)[2..] == digits
  {
    assert Ascii("0X") == [48, 88];
  }

  lemma UpperNumeral(s: seq<byte>)
    requires IsNumeral(s, 16)
    ensures forall i :: 0 <= i < |s| ==> 48 <= Upper(s)[i] <= 57 || 65 <= Upper(s)[i] <= 70
    ensures Upper(s)[0] == 48 ==> |s| == 1
  {
  }

  /** `%d`: a minus for a negative number, and its decimal numeral. */
  lemma SimpleDecimal(i: i32)
    ensures Sprintf.SimpleSupplied(Ascii("%d"), [I32(i)])
    ensures var text := Sprintf.SimpleExpand(Ascii("%d"), [I32(i)]);
      if i < 0 then text != [] && text[0] == 45 && IsNumeral(text[1..], 10) && Value(text[1..], 10) + i == 0
      else IsNumeral(text, 10) && Value(text, 10) == i
  {
    assert Ascii("%d") == [37, 100];
    SimpleOne(100, [I32(i)]);
    NumeralMeans(Abs(i), 10);
  }

  lemma SimpleTexts(s: CString, c: i32)
    ensures Sprintf.SimpleSupplied(Ascii("%s"), [Str(s)]) && Sprintf.SimpleExpand(Ascii("%s"), [Str(s)]) == s[..|s| - 1]
    ensures Sprintf.SimpleSupplied(Ascii("%c"), [I32(c)]) && Sprintf.SimpleExpand(Ascii("%c"), [I32(c)]) == [c % 256]
  {
    assert Ascii("%s") == [37, 115] && Ascii("%c") == [37, 99];
    SimpleOne(115, [Str(s)]);
    SimpleOne(99, [I32(c)]);
  }

  /** A character without a meaning keeps its `%`, and a `%` that ends the format stands for itself. */
  lemma SimpleUnknown(c: byte)
    requires forall i :: 0 <= i < 6 ==> Ascii("dxXsc%")[i] != c
    ensures Sprintf.SimpleSupplied([37, c], []) && Sprintf.SimpleExpand([37, c], []) == [37, c]
    ensures Sprintf.SimpleSupplied([37], []) && Sprintf.SimpleExpand([37], []) == [37]
  {
    var known := Ascii("dxXsc%");
    assert known[0] == 100 && known[1] == 120 && known[2] == 88 && known[3] == 115 && known[4] == 99 && known[5] == 37;
    assert [37, c][2..] == [] && [37][1..] == [];
  }

  lemma SimplePercent()
    ensures Sprintf.SimpleSupplied(Ascii("%%"), []) && Sprintf.SimpleExpand(Ascii("%%"), []) == Ascii("%")
  {
    assert Ascii("%%") == [37, 37] && Ascii("%") == [37] && [37, 37][2..] == [];
  }

  // ------------------------------------------------------------------ into a buffer

  /** Runs `my_snprintf(buf, size, "%llu", v)`: a buffer of 21 bytes gets the whole numeral and its terminator. */
  method PrintUnsigned(v: u64, size: nat) returns (buf: seq<byte>, count: int)
    requires size >= 21
    ensures |buf| == size && 0 < count <= 20 && buf[count] == 0
    ensures IsNumeral(buf[..count], 10) && Value(buf[..count], 10) == v
  {
    var fmt := Terminated([37, 108, 108, 117]);
    ghost var text := LongLongText(v, fmt);
    var a := new byte[size];
    count := Snprintf(a, size, fmt, [U64(v)]);
    buf := a[..];
    assert buf[..count] == text;
  }

  lemma LongLongText(v: u64, fmt: CString) returns (text: seq<byte>)
    requires Body(fmt) == [37, 108, 108, 117]
    ensures Prints(Body(fmt), [U64(v)], text) && 0 < |text| <= 20 && IsNumeral(text, 10) && Value(text, 10) == v
  {
    LongLongFormat();
    UnsignedDecimal(2, v, U64(v));
    text := Expand(Body(fmt), [U64(v)]);
    TwentyDigits(v);
    NumeralUnique(text, 10);
  }

  lemma LongLongFormat()
    ensures Ascii("%") + Rep(108, 2) + Ascii("u") == Ascii("%llu") == [37, 108, 108, 117]
  {
  }

  lemma TwentyDigits(v: u64)
    ensures |Numeral(v, 10)| <= 20
  {
    Pow10();
    DigitCount(v, 10, 20);
  }
}

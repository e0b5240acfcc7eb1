/** The formatter read from the outside: what a format written in the documented syntax prints. */
module Meaning {
  import opened CTypes
  import opened Numerals
  import opened Format

  /** What may stand between the `%` and the conversion character: the `#` flag, the length modifier `l`, a width,
      or the `0` flag with the width directly behind it (0 when there is none). */
  datatype Modifier = Alternate | Long | Width(width: int) | Zero(width: int)
  {
    predicate Valid() {
      match this
      case Width(w) => w != 0 && Abs(w) <= INT_MAX
      case Zero(w) => Abs(w) <= INT_MAX
      case _ => true
    }

    function Show(): seq<byte> {
      match this
      case Alternate => [HASH]
      case Long => [LOWER_L]
      case Width(w) => ShowWidth(w)
      case Zero(w) => [ZERO] + ShowWidth(w)
    }

    /** What the modifier adds to what the ones before it said. */
    function Apply(sp: Spec): Spec {
      match this
      case Alternate => sp.(alternate := true)
      case Long => sp.(longs := sp.longs + 1)
      case Width(w) => sp.(npad := w)
      case Zero(w) => sp.(pad := ZERO, npad := w)
    }

    /** A number runs on into digits that follow it, and a bare `0` flag into a minus as well. */
    predicate Separate(next: Modifier) {
      match this
      case Alternate => true
      case Long => true
      case Width(_) => !next.Zero? && !(next.Width? && next.width > 0)
      case Zero(w) => !next.Zero? && !(next.Width? && (w == 0 || next.width > 0))
    }
  }

  /** A format as its writer thinks of it. */
  datatype Item = Literal(c: byte) | Conversion(modifiers: seq<Modifier>, conv: byte)
  {
    predicate Valid() {
      match this
      case Literal(c) => c != PERCENT && c != NUL
      case Conversion(modifiers, conv) => Separated(modifiers) && Plain(conv)
    }

    function Props(): Spec
      requires Conversion?
    {
      ApplyAll(modifiers, NO_SPEC)
    }
  }

  predicate Separated(modifiers: seq<Modifier>) {
    && (forall i :: 0 <= i < |modifiers| ==> modifiers[i].Valid())
    && (forall i :: 0 <= i < |modifiers| - 1 ==> modifiers[i].Separate(modifiers[i + 1]))
  }

  function ApplyAll(modifiers: seq<Modifier>, sp: Spec): Spec
    decreases |modifiers|
  {
    if modifiers == [] then sp else ApplyAll(modifiers[1..], modifiers[0].Apply(sp))
  }

  /** A character that is no modifier nor part of one. */
  predicate Plain(c: byte) { c != HASH && c != LOWER_L && c != MINUS && c != NUL && !IsDigit(c) }

  function ShowWidth(w: int): seq<byte> { if w == 0 then [] else SignedNumeral(w, 10) }

  function ShowModifiers(modifiers: seq<Modifier>): seq<byte> {
    if modifiers == [] then [] else modifiers[0].Show() + ShowModifiers(modifiers[1..])
  }

  /** A directive without its `%`. */
  function ShowTail(item: Item): seq<byte>
    requires item.Conversion?
  {
    ShowModifiers(item.modifiers) + [item.conv]
  }

  function Show(items: seq<Item>): seq<byte> {
    if items == [] then []
    else (if items[0].Literal? then [items[0].c] else [PERCENT] + ShowTail(items[0])) + Show(items[1..])
  }

  predicate Supplied(items: seq<Item>, args: seq<Arg>) {
    if items == [] then true
    else if items[0].Conversion? && TakesArgument(items[0].conv) then
      args != [] && Typed(items[0].conv, items[0].Props().longs, args[0]) && Supplied(items[1..], args[1..])
    else Supplied(items[1..], args)
  }

  function Render(items: seq<Item>, args: seq<Arg>): seq<byte>
    requires Supplied(items, args)
  {
    if items == [] then []
    else if items[0].Literal? then [items[0].c] + Render(items[1..], args)
    else
      DirectiveText(items[0].conv, items[0].Props(), args)
      + Render(items[1..], if TakesArgument(items[0].conv) then args[1..] else args)
  }

  lemma {:induction false} DigitRunOf(digits: seq<byte>, rest: seq<byte>)
    requires forall i :: 0 <= i < |digits| ==> IsDigit(digits[i])
    requires rest != [] ==> !IsDigit(rest[0])
    ensures DigitRun(digits + rest) == |digits|
  {
    if digits != [] {
      assert (digits + rest)[1..] == digits[1..] + rest;
      DigitRunOf(digits[1..], rest);
    } else {
      assert digits + rest == rest;
    }
  }

  lemma ShowWidthStarts(w: int)
    requires w != 0
    ensures ShowWidth(w) != []
    ensures w < 0 ==> ShowWidth(w)[0] == MINUS
    ensures w > 0 ==> IsDigit(ShowWidth(w)[0]) && ShowWidth(w)[0] != ZERO
  {
    DigitsAreDigits(Abs(w), 10);
  }

  lemma NumeralReads(n: nat, rest: seq<byte>)
    requires rest != [] ==> !IsDigit(rest[0])
    ensures var s := Numeral(n, 10) + rest;
      DigitRun(s) == |Numeral(n, 10)| && Value(s[..DigitRun(s)], 10) == n
  {
    DecimalDigits(n);
    ValueOfNumeral(n, 10);
    DigitRunOf(Numeral(n, 10), rest);
    assert (Numeral(n, 10) + rest)[..|Numeral(n, 10)|] == Numeral(n, 10);
  }

  /** The end of a number: no digit follows, and after an absent number no minus either. */
  predicate EndsNumber(w: int, rest: seq<byte>) { rest != [] && !IsDigit(rest[0]) && (w == 0 ==> rest[0] != MINUS) }

  lemma NumberOfNegative(w: int, rest: seq<byte>)
    requires w < 0 && EndsNumber(w, rest)
    ensures NumberAt(ShowWidth(w) + rest) == w && NumberLen(ShowWidth(w) + rest) == |ShowWidth(w)|
  {
    ShownNegative(w);
    NumeralReads(-w, rest);
    Associates([MINUS], Numeral(-w, 10), rest);
    NumberAfterMinus(Numeral(-w, 10) + rest);
  }

  lemma ShownNegative(w: int)
    requires w < 0
    ensures ShowWidth(w) == [MINUS] + Numeral(-w, 10)
  {
  }

  lemma NumberAfterMinus(t: seq<byte>)
    ensures NumberAt([MINUS] + t) == 0 - Value(t[..DigitRun(t)], 10) && NumberLen([MINUS] + t) == 1 + DigitRun(t)
  {
    assert ([MINUS] + t)[1..] == t;
  }

  /** A width reads back as itself. */
  lemma NumberOf(w: int, rest: seq<byte>)
    requires EndsNumber(w, rest)
    ensures NumberAt(ShowWidth(w) + rest) == w && NumberLen(ShowWidth(w) + rest) == |ShowWidth(w)|
  {
    if w < 0 {
      NumberOfNegative(w, rest);
    } else if w == 0 {
      assert ShowWidth(w) + rest == rest;
    } else {
      ShowWidthStarts(w);
      assert (ShowWidth(w) + rest)[0] == ShowWidth(w)[0];
      NumeralReads(w, rest);
    }
  }

  lemma ScanWidth(w: int, rest: seq<byte>, sp: Spec)
    requires w != 0 && EndsNumber(w, rest) && Abs(w) <= INT_MAX
    ensures var s := ShowWidth(w) + rest;
      Scan(s, sp) == Scan(rest, sp.(npad := w)) && (WidthsFit(s) <==> WidthsFit(rest))
  {
    var s := ShowWidth(w) + rest;
    ShowWidthStarts(w);
    NumberOf(w, rest);
    assert s[0] == ShowWidth(w)[0] && s[NumberLen(s)..] == rest;
    WidthFirst(s, sp);
  }

  lemma ScanZero(w: int, rest: seq<byte>, sp: Spec)
    requires EndsNumber(w, rest) && Abs(w) <= INT_MAX
    ensures var s := [ZERO] + ShowWidth(w) + rest;
      Scan(s, sp) == Scan(rest, sp.(pad := ZERO, npad := w)) && (WidthsFit(s) <==> WidthsFit(rest))
  {
    NumberOf(w, rest);
    Associates([ZERO], ShowWidth(w), rest);
    ScanZeroOf(ShowWidth(w) + rest, w, |ShowWidth(w)|, sp);
    assert (ShowWidth(w) + rest)[|ShowWidth(w)|..] == rest;
  }

  lemma ScanZeroOf(t: seq<byte>, w: int, n: nat, sp: Spec)
    requires n <= |t| && NumberAt(t) == w && NumberLen(t) == n && Abs(w) <= INT_MAX
    ensures Scan([ZERO] + t, sp) == Scan(t[n..], sp.(pad := ZERO, npad := w))
    ensures WidthsFit([ZERO] + t) <==> WidthsFit(t[n..])
  {
    assert ([ZERO] + t)[1..] == t;
    ZeroFlag([ZERO] + t, sp);
  }

  lemma ScanLetter(m: Modifier, rest: seq<byte>, sp: Spec)
    requires m.Alternate? || m.Long?
    ensures var s := m.Show() + rest; Scan(s, sp) == Scan(rest, m.Apply(sp)) && (WidthsFit(s) <==> WidthsFit(rest))
  {
    assert (m.Show() + rest)[1..] == rest;
  }

  /** One modifier is scanned as it is meant, if what follows does not run into it. */
  lemma ScanModifier(m: Modifier, rest: seq<byte>, sp: Spec)
    requires m.Valid() && ((m.Width? || m.Zero?) ==> EndsNumber(m.width, rest))
    ensures var s := m.Show() + rest; Scan(s, sp) == Scan(rest, m.Apply(sp)) && (WidthsFit(s) <==> WidthsFit(rest))
  {
    match m
    case Width(w) => ScanWidth(w, rest, sp);
    case Zero(w) => ScanZero(w, rest, sp);
    case _ => ScanLetter(m, rest, sp);
  }

  /** The character that follows a modifier. */
  lemma NextStarts(modifiers: seq<Modifier>, conv: byte, rest: seq<byte>)
    requires Separated(modifiers) && modifiers != [] && Plain(conv)
    ensures var tail := ShowModifiers(modifiers[1..]) + [conv] + rest; var m := modifiers[0];
      (m.Width? || m.Zero?) ==> EndsNumber(m.width, tail)
  {
    var tail := ShowModifiers(modifiers[1..]) + [conv] + rest;
    if |modifiers| == 1 {
      assert tail[0] == conv;
    } else {
      var next := modifiers[1];
      assert modifiers[1..][0] == next && modifiers[0].Separate(next);
      if next.Width? {
        ShowWidthStarts(next.width);
      }
      assert next.Show() != [] && tail[0] == next.Show()[0];
    }
  }

  /** Every flag, width and length modifier reaches the conversion as written, in any order and number. */
  lemma {:induction false} ScanModifiers(modifiers: seq<Modifier>, conv: byte, rest: seq<byte>, sp: Spec)
    requires Separated(modifiers) && Plain(conv)
    ensures var s := ShowModifiers(modifiers) + [conv] + rest;
      Scan(s, sp) == Directive(conv, ApplyAll(modifiers, sp), rest) && WidthsFit(s)
    decreases |modifiers|
  {
    var s := ShowModifiers(modifiers) + [conv] + rest;
    if modifiers == [] {
      assert s == [conv] + rest && s[1..] == rest;
    } else {
      var tail := ShowModifiers(modifiers[1..]) + [conv] + rest;
      assert s == modifiers[0].Show() + tail;
      NextStarts(modifiers, conv, rest);
      ScanModifier(modifiers[0], tail, sp);
      ScanModifiers(modifiers[1..], conv, rest, modifiers[0].Apply(sp));
    }
  }

  lemma ScanTail(item: Item, rest: seq<byte>)
    requires item.Conversion? && item.Valid()
    ensures Scan(ShowTail(item) + rest, NO_SPEC) == Directive(item.conv, item.Props(), rest)
    ensures WidthsFit(ShowTail(item) + rest)
  {
    ScanModifiers(item.modifiers, item.conv, rest, NO_SPEC);
  }

  lemma LiteralStep(c: byte, rest: seq<byte>, args: seq<Arg>)
    requires c != PERCENT
    ensures WellTyped([c] + rest, args) <==> WellTyped(rest, args)
    ensures WellTyped(rest, args) ==> Expand([c] + rest, args) == [c] + Expand(rest, args)
  {
    assert ([c] + rest)[1..] == rest;
  }

  lemma DirectiveStep(item: Item, rest: seq<byte>, args: seq<Arg>)
    requires item.Conversion? && item.Valid()
    ensures var fmt := [PERCENT] + ShowTail(item) + rest;
      var takes := TakesArgument(item.conv);
      var left := if takes && args != [] then args[1..] else args;
      && (WellTyped(fmt, args) <==>
            WellTyped(rest, left) && (takes ==> args != [] && Typed(item.conv, item.Props().longs, args[0])))
      && (WellTyped(fmt, args) ==>
            Expand(fmt, args) == DirectiveText(item.conv, item.Props(), args) + Expand(rest, left))
  {
    var fmt := [PERCENT] + ShowTail(item) + rest;
    assert fmt[0] == PERCENT && fmt[1..] == ShowTail(item) + rest;
    ScanTail(item, rest);
  }

  /** The formatter prints what the format says: for every list of literals and directives, with any modifiers in
      any order, and every argument list, scanning and expanding the text of the format gives the directives
      rendered one by one; and the format is well typed exactly when its directives get the arguments they need. */
  lemma {:induction false} FormatMeaning(items: seq<Item>, args: seq<Arg>)
    requires forall i :: 0 <= i < |items| ==> items[i].Valid()
    ensures WellTyped(Show(items), args) <==> Supplied(items, args)
    ensures Supplied(items, args) ==> Expand(Show(items), args) == Render(items, args)
  {
    if items != [] {
      var head, rest := items[0], Show(items[1..]);
      if head.Literal? {
        LiteralStep(head.c, rest, args);
        FormatMeaning(items[1..], args);
      } else {
        DirectiveStep(head, rest, args);
        FormatMeaning(items[1..], if TakesArgument(head.conv) && args != [] then args[1..] else args);
      }
    }
  }

  /** The special case of a format that is one directive. */
  lemma SingleDirective(item: Item, arg: Arg)
    requires item.Conversion? && item.Valid() && TakesArgument(item.conv) && Typed(item.conv, item.Props().longs, arg)
    ensures WellTyped(Show([item]), [arg]) && Expand(Show([item]), [arg]) == Convert(item.conv, item.Props(), arg)
  {
    var items, args := [item], [arg];
    assert items[1..] == [] && args[1..] == [];
    assert Supplied(items[1..], args[1..]) && Render(items[1..], args[1..]) == [];
    FormatMeaning(items, args);
  }

  /** `%#0-<width>x` of a non-zero number: the digits fill the field, and the prefix comes on top of it. */
  lemma PrefixBesideField(v: u32, width: nat)
    requires v > 0 && 0 < width <= INT_MAX
    ensures var fmt, args := Show([LeftZeroPadded(width)]), [U32(v)];
      WellTyped(fmt, args) && |Expand(fmt, args)| == 2 + Max(width, |Numeral(v, 16)|)
  {
    var item := LeftZeroPadded(width);
    assert item.Props() == Spec(ZERO, 0 - width, true, 0) by {
      var modifiers := item.modifiers;
      assert modifiers[1..] == [Zero(0 - width)] && modifiers[1..][1..] == [];
      assert ApplyAll(modifiers[1..], Spec(SPACE, 0, true, 0)) == ApplyAll([], Spec(ZERO, 0 - width, true, 0));
    }
    SingleDirective(item, U32(v));
  }

  function LeftZeroPadded(width: nat): Item { Conversion([Alternate, Zero(0 - width)], LOWER_X) }

  /** `%#0-9x` prints 11 characters for 1, two more than the width and the text need, and 11 for 0x12345678,
      one more than the text needs. */
  lemma TooWide()
    ensures Show([LeftZeroPadded(9)]) == [PERCENT, HASH, ZERO, MINUS, NINE, LOWER_X]
    ensures WellTyped(Show([LeftZeroPadded(9)]), [U32(1)]) && WellTyped(Show([LeftZeroPadded(9)]), [U32(0x1234_5678)])
    ensures |Natural(1, 16, true)| == 3 && |Expand(Show([LeftZeroPadded(9)]), [U32(1)])| == 11
    ensures |Natural(0x1234_5678, 16, true)| == 10 && |Expand(Show([LeftZeroPadded(9)]), [U32(0x1234_5678)])| == 11
  {
    PrefixBesideField(1, 9);
    PrefixBesideField(0x1234_5678, 9);
    OneAndEightDigits();
    ShownNine();
  }

  lemma OneAndEightDigits()
    ensures |Numeral(1, 16)| == 1 && |Numeral(0x1234_5678, 16)| == 8
  {
    assert Pow(16, 1) == 16 && Pow(16, 7) == 0x1000_0000;
    Pow16();
    DigitCount(1, 16, 1);
    DigitCount(0x1234_5678, 16, 7);
    DigitCount(0x1234_5678, 16, 8);
  }

  lemma ShownNine()
    ensures Show([LeftZeroPadded(9)]) == [PERCENT, HASH, ZERO, MINUS, NINE, LOWER_X]
  {
    var modifiers := [Alternate, Zero(-9)];
    assert Digits(9, 10) == Digits(0, 10) + [NINE];
    assert ShowWidth(-9) == [MINUS, NINE];
    assert modifiers[1..] == [Zero(-9)] && modifiers[1..][1..] == [];
    assert ShowModifiers(modifiers[1..]) == [ZERO, MINUS, NINE] + ShowModifiers([]);
    assert ShowModifiers(modifiers) == [HASH] + ShowModifiers(modifiers[1..]);
    assert [LeftZeroPadded(9)][1..] == [];
  }

  lemma {:induction false} ModifiersAreText(modifiers: seq<Modifier>)
    ensures NUL !in ShowModifiers(modifiers)
  {
    if modifiers != [] {
      ModifiersAreText(modifiers[1..]);
      var m := modifiers[0];
      if m.Width? || m.Zero? {
        NoNul(Abs(m.width), 10);
      }
      assert NUL !in m.Show();
    }
  }

  lemma ShownIsText(item: Item)
    requires item.Conversion? && item.Valid()
    ensures NUL !in Show([item])
  {
    assert [item][1..] == [] && Show([]) == [];
    ModifiersAreText(item.modifiers);
  }
}

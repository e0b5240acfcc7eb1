/** The formatted-output engine of src/lib/logger.c. */
module Logger {
  import opened CTypes
  import opened Numerals
  import opened Format
  import opened Reversal

  /** `pstream_t`: a write pointer into the caller's buffer, the room left before the place of the
      terminator, and the count of every character offered. */
  class PStream {
    const buffer: array<byte>
    const size: nat
    ghost const original: seq<byte>
    var next: nat
    var remain: int
    var added: int
    ghost var emitted: seq<byte>

    /** What fitted is in the buffer, in order, and nothing else has been touched. */
    ghost predicate Valid()
      reads this, buffer
    {
      && 1 <= size <= buffer.Length == |original|
      && added == |emitted| <= INT_MAX
      && next == Min(size - 1, |emitted|)
      && remain == size - 1 - next
      && buffer[..] == emitted[..next] + original[next..]
    }

    constructor (buf: array<byte>, size: nat)
      requires 1 <= size <= buf.Length
      ensures Valid() && buffer == buf && this.size == size
      ensures emitted == [] && original == old(buf[..])
    {
      buffer := buf;
      this.size := size;
      original := buf[..];
      next, remain, added := 0, size - 1, 0;
      emitted := [];
    }

    method AddChar(c: byte)
      requires Valid() && added < INT_MAX
      modifies this, buffer
      ensures Valid() && emitted == old(emitted) + [c]
    {
      if remain != 0 {
        buffer[next] := c;
        next := next + 1;
        remain := remain - 1;
      }
      added := added + 1;
      emitted := emitted + [c];
    }

    /** The terminator goes where the write pointer stands. */
    method Terminate() returns (r: int)
      requires Valid()
      modifies buffer
      ensures r == |emitted|
      ensures buffer[..] == Written(emitted, size, original)
    {
      buffer[next] := NUL;
      r := added;
    }

    /** The loop of `print_str` that counts `npad` down to zero. */
    method PadDown(pad: byte, width: int) returns (npad: int)
      requires Valid() && |emitted| + Max(width, 0) <= INT_MAX
      modifies this, buffer
      ensures Valid() && emitted == old(emitted) + Rep(pad, width)
      ensures npad == Min(width, 0)
    {
      npad := width;
      while npad > 0
        invariant Valid() && Min(width, 0) <= npad <= Max(width, 0)
        invariant emitted == old(emitted) + Rep(pad, Max(width, 0) - npad) || npad < 0
        invariant npad < 0 ==> npad == width && emitted == old(emitted)
      {
        AddChar(pad);
        npad := npad - 1;
      }
    }

    /** The loop of `print_str` that counts `npad` up to zero. */
    method PadUp(width: int) returns (npad: int)
      requires Valid() && |emitted| + Max(-width, 0) <= INT_MAX
      modifies this, buffer
      ensures Valid() && emitted == old(emitted) + Rep(SPACE, -width)
      ensures npad == Max(width, 0)
    {
      npad := width;
      while npad < 0
        invariant Valid() && Min(width, 0) <= npad <= Max(width, 0)
        invariant emitted == old(emitted) + Rep(SPACE, npad - width)
      {
        AddChar(SPACE);
        npad := npad + 1;
      }
    }

    /** The loop of `print_str` that copies the string up to its terminator. */
    method PutText(s: CString)
      requires Valid() && |emitted| + |Body(s)| <= INT_MAX
      modifies this, buffer
      ensures Valid() && emitted == old(emitted) + Body(s)
    {
      var at := 0;
      while s[at] != NUL
        invariant 0 <= at < |s|
        invariant Valid() && emitted == old(emitted) + s[..at]
        decreases |s| - at
      {
        AddChar(s[at]);
        at := at + 1;
      }
    }

    /** `print_str`: one counter serves both paddings. What the left padding and the text leave of it
        decides whether there is any on the right. */
    method PrintStr(s: CString, props: Spec)
      requires Valid()
      requires Abs(props.npad) <= INT_MAX
      requires |emitted| + |Field(Body(s), props.pad, props.npad)| <= INT_MAX
      modifies this, buffer
      ensures Valid() && emitted == old(emitted) + Field(Body(s), props.pad, props.npad)
    {
      FieldParts(emitted, Body(s), props.pad, props.npad);
      var npad := props.npad;
      if npad > 0 {
        npad := ToInt(npad - (|s| - 1));
        npad := PadDown(props.pad, npad);
      }
      PutText(s);
      if npad < 0 {
        npad := ToInt(npad + (|s| - 1));
        npad := PadUp(npad);
      }
    }

    /** `print_int`: digits are built backwards in a scratch array, reversed in place and padded as a string. */
    method PrintInt(n: i64, base: nat, props: Spec)
      requires Valid()
      requires n > I64_MIN && 7 <= base <= 16
      requires Abs(props.npad) <= INT_MAX
      requires |emitted| + |SignedField(n, base, props)| <= INT_MAX
      modifies this, buffer
      ensures Valid() && emitted == old(emitted) + SignedField(n, base, props)
    {
      var buf := new byte[26];
      var p := PutSigned(buf, n, base);
      PrintStr(buf[..p + 1], props);
    }

    /** The zero-padded alternate form: `0x` goes out first and takes its two places off a positive width. */
    method PrintPrefix(width: int) returns (npad: int)
      requires Valid() && |emitted| + 2 <= INT_MAX
      modifies this, buffer
      ensures Valid() && emitted == old(emitted) + [ZERO, LOWER_X]
      ensures npad == if width > 0 then Max(width - 2, 0) else width
    {
      npad := width;
      AddChar(ZERO);
      AddChar(LOWER_X);
      if npad > 0 {
        npad := if npad - 2 > 0 then npad - 2 else 0;
      }
    }

    /** `print_unsigned`: as above, with the `0x` of the alternate form put before the padding or before the digits. */
    method PrintUnsigned(n: u64, base: nat, props: Spec)
      requires Valid()
      requires 6 <= base <= 16
      requires Abs(props.npad) <= INT_MAX
      requires |emitted| + |UnsignedField(n, base, props)| <= INT_MAX
      modifies this, buffer
      ensures Valid() && emitted == old(emitted) + UnsignedField(n, base, props)
    {
      var buf := new byte[27];
      var p, early := PutUnsigned(buf, n, base, props);
      UnsignedParts(n, base, props);
      if early {
        var npad := PrintPrefix(props.npad);
        FieldAfter(emitted[..|emitted| - 2], [ZERO, LOWER_X], Numeral(n, base), ZERO, npad);
        PrintStr(buf[..p + 1], props.(npad := npad));
      } else {
        PrintStr(buf[..p + 1], props);
      }
    }
  }

  /** The part of `print_unsigned` that fills the scratch array. A prefix goes into it, unless zero padding
      has to come between the prefix and the digits; `early` tells that the prefix is to go out first. */
  method PutUnsigned(buf: array<byte>, n: u64, base: nat, props: Spec) returns (p: nat, early: bool)
    requires 6 <= base <= 16 && buf.Length == 27
    modifies buf
    ensures p < buf.Length
    ensures early == (props.pad == ZERO && Prefixed(n, base, props.alternate))
    ensures NUL !in Numeral(n, base)
    ensures buf[..p + 1] == Terminated(if early then Numeral(n, base) else Natural(n, base, props.alternate))
  {
    UnsignedScratch(n, base);
    NoNul(n, base);
    early := false;
    p := PutDigits(buf, n, base);
    if p == 0 {
      p := Push(buf, p, ZERO);
    } else if props.alternate && base == 16 {
      if props.pad == ZERO {
        early := true;
      } else {
        p := Push(buf, p, LOWER_X);
        p := Push(buf, p, ZERO);
      }
    }
    Finish(buf, p, if early then Numeral(n, base) else Natural(n, base, props.alternate));
  }

  /** Where `print_unsigned` puts the prefix: into the stream under zero padding, else into the text. */
  lemma UnsignedParts(n: nat, base: nat, sp: Spec)
    requires 2 <= base <= 16
    ensures UnsignedField(n, base, sp) ==
      if sp.pad == ZERO && Prefixed(n, base, sp.alternate) then
        [ZERO, LOWER_X] + Field(Numeral(n, base), ZERO, if sp.npad > 0 then Max(sp.npad - 2, 0) else sp.npad)
      else Field(Natural(n, base, sp.alternate), sp.pad, sp.npad)
  {
  }

  lemma FieldAfter(before: seq<byte>, prefix: seq<byte>, text: seq<byte>, pad: byte, npad: int)
    ensures before + (prefix + Field(text, pad, npad)) == before + prefix + Field(text, pad, npad)
  {
  }

  /** The part of `print_int` that fills the scratch array. */
  method PutSigned(buf: array<byte>, n: i64, base: nat) returns (p: nat)
    requires n > I64_MIN && 7 <= base <= 16 && buf.Length == 26
    modifies buf
    ensures p < buf.Length && NUL !in SignedNumeral(n, base)
    ensures buf[..p + 1] == Terminated(SignedNumeral(n, base))
  {
    NoNul(Abs(n), base);
    p := SignedBackwards(buf, n, base);
    Finish(buf, p, SignedNumeral(n, base));
  }

  /** The digits and then the sign, and a zero for zero. */
  method SignedBackwards(buf: array<byte>, n: i64, base: nat) returns (p: nat)
    requires n > I64_MIN && 7 <= base <= 16 && buf.Length == 26
    modifies buf
    ensures p < buf.Length && Rev(buf[..p]) == SignedNumeral(n, base)
  {
    var m, s := n, 0;
    if m < 0 {
      m := -m;
      s := 1;
    }
    IntScratch(m, base);
    p := PutDigits(buf, m, base);
    if s != 0 {
      p := Push(buf, p, MINUS);
    }
    if p == 0 {
      p := Push(buf, p, ZERO);
    }
  }

  /** The swap loop and the terminator that end both number printers. */
  method Finish(buf: array<byte>, p: nat, ghost text: seq<byte>)
    requires p < buf.Length && Rev(buf[..p]) == text && NUL !in text
    modifies buf
    ensures buf[..p + 1] == Terminated(text)
  {
    SwapHalves(buf, p);
    buf[p] := NUL;
  }

  lemma FieldParts(before: seq<byte>, text: seq<byte>, pad: byte, npad: int)
    ensures before + Field(text, pad, npad) ==
      before + Rep(pad, if npad > 0 then npad - |text| else 0) + text
      + Rep(SPACE, if npad < 0 then -npad - |text| else 0)
  {
    var left := Rep(pad, if npad > 0 then npad - |text| else 0);
    var right := Rep(SPACE, if npad < 0 then -npad - |text| else 0);
    assert Field(text, pad, npad) == left + text + right;
    assert before + (left + text + right) == before + left + text + right;
  }

  /** Digits, sign and terminator of every 64-bit number fit the 26-byte scratch array. */
  lemma IntScratch(n: nat, base: nat)
    requires n <= I64_MAX && 7 <= base <= 16
    ensures |Digits(n, base)| + 2 <= 26
  {
    PowMono(7, base, 23);
    Pow7();
    DigitCount(n, base, 23);
  }

  /** Digits, prefix and terminator of every 64-bit number fit the 27-byte scratch array. */
  lemma UnsignedScratch(n: nat, base: nat)
    requires n < TWO64 && 6 <= base <= 16
    ensures |Digits(n, base)| + (if base == 16 then 3 else 1) <= 27
  {
    if base == 16 {
      Pow16();
      DigitCount(n, 16, 16);
    } else {
      Pow6();
      PowMono(6, base, 25);
      DigitCount(n, base, 25);
    }
  }

  /** `fmtnum`: reads the width at the cursor and moves the cursor past it. */
  method FmtNum(fmt: CString, at: nat) returns (num: i32, f: nat)
    requires at < |fmt| && Abs(NumberAt(Body(fmt)[at..])) <= INT_MAX
    ensures num == NumberAt(Body(fmt)[at..]) && f == at + NumberLen(Body(fmt)[at..])
    ensures f < |fmt|
  {
    f := at;
    if fmt[f] == MINUS {
      f := f + 1;
      assert Body(fmt)[at..][1..] == Body(fmt)[f..];
    }
    num, f := DigitLoop(fmt, f);
    if fmt[at] == MINUS {
      num := -num;
    }
  }

  /** The digit loop of `fmtnum`, whose accumulator never leaves `int`. */
  method DigitLoop(fmt: CString, start: nat) returns (num: i32, f: nat)
    requires start < |fmt|
    requires var s := Body(fmt)[start..]; Value(s[..DigitRun(s)], 10) <= INT_MAX
    ensures var s := Body(fmt)[start..];
      num == Value(s[..DigitRun(s)], 10) && f == start + DigitRun(s) < |fmt|
  {
    ghost var s := Body(fmt)[start..];
    f, num := start, 0;
    while ZERO <= fmt[f] <= NINE
      invariant f - start <= DigitRun(s) && start <= f < |fmt|
      invariant num == Value(s[..f - start], 10)
      decreases |fmt| - f
    {
      assert s[f - start] == fmt[f];
      NextDigit(s, f - start, DigitRun(s));
      num := num * 10 + (fmt[f] - ZERO);
      f := f + 1;
    }
    assert f - start < |s| ==> s[f - start] == fmt[f];
  }

  lemma NextDigit(s: seq<byte>, k: nat, n: nat)
    requires k < n <= |s| && IsDigit(s[k])
    ensures Value(s[..k + 1], 10) == Value(s[..k], 10) * 10 + (s[k] - ZERO) <= Value(s[..n], 10)
  {
    DigitStep(s[..n], k);
    assert s[..n][..k] == s[..k] && s[..n][..k + 1] == s[..k + 1];
  }

  /** The `morefmt` loop of `my_vsnprintf`, from the character after a `%` to a conversion character. Every
      jump back consumes format text; the end of the format is stepped back onto, so it is seen again. */
  method MoreFmt(fmt: CString, at: nat) returns (conv: byte, props: Spec, f: nat)
    requires at < |fmt| && WidthsFit(Body(fmt)[at..])
    ensures at <= f < |fmt| && Scan(Body(fmt)[at..], NO_SPEC) == Directive(conv, props, Body(fmt)[f..])
    ensures Abs(props.npad) <= INT_MAX
  {
    var more := true;
    f, props, conv := at, NO_SPEC, NUL;
    ghost var d := Scan(Body(fmt)[at..], NO_SPEC);
    while more
      invariant at <= f < |fmt| && Abs(props.npad) <= INT_MAX
      invariant more ==> WidthsFit(Body(fmt)[f..]) && Scan(Body(fmt)[f..], props) == d
      invariant !more ==> d == Directive(conv, props, Body(fmt)[f..])
      decreases |fmt| - f, more
    {
      conv, props, f, more := Switch(fmt, f, props);
    }
  }

  /** The switch of `my_vsnprintf` on the character at the cursor; `more` stands for `goto morefmt`. */
  method Switch(fmt: CString, at: nat, sp: Spec) returns (conv: byte, props: Spec, f: nat, more: bool)
    requires at < |fmt| && WidthsFit(Body(fmt)[at..]) && Abs(sp.npad) <= INT_MAX
    ensures at <= f < |fmt| && Abs(props.npad) <= INT_MAX
    ensures more ==>
      at < f && WidthsFit(Body(fmt)[f..]) && Scan(Body(fmt)[f..], props) == Scan(Body(fmt)[at..], sp)
    ensures !more ==> Scan(Body(fmt)[at..], sp) == Directive(conv, props, Body(fmt)[f..])
  {
    if at < |fmt| - 1 {
      ScanAt(Body(fmt), at, sp);
    }
    conv, props, f, more := fmt[at], sp, at + 1, true;
    if conv == NUL {
      f := f - 1;
      more := false;
    } else if conv == HASH {
      props := props.(alternate := true);
    } else if conv == ZERO || IsDigit(conv) || conv == MINUS {
      props, f := WidthTurn(fmt, f, sp);
    } else if conv == LOWER_L {
      props := props.(longs := props.longs + 1);
    } else {
      more := false;
    }
  }

  /** The cases `0`, `1` to `9` and `-` of the switch; the cursor `f` stands after the character seen. */
  method WidthTurn(fmt: CString, f: nat, sp: Spec) returns (props: Spec, next: nat)
    requires 0 < f < |fmt| && WidthsFit(Body(fmt)[f - 1..]) && (IsDigit(fmt[f - 1]) || fmt[f - 1] == MINUS)
    ensures f <= next < |fmt| && Abs(props.npad) <= INT_MAX
    ensures WidthsFit(Body(fmt)[next..]) && Scan(Body(fmt)[next..], props) == Scan(Body(fmt)[f - 1..], sp)
  {
    ghost var at, d := ScanWidth(Body(fmt), f - 1, sp);
    props, next := WidthCase(fmt, f, sp, at);
    assert props == d.sp && Body(fmt)[next..] == d.rest;
  }

  /** The code of these cases; the number to read starts at `at`. */
  method WidthCase(fmt: CString, f: nat, sp: Spec, ghost at: nat) returns (props: Spec, next: nat)
    requires 0 < f < |fmt| && at == if fmt[f - 1] == ZERO then f else f - 1
    requires Abs(NumberAt(Body(fmt)[at..])) <= INT_MAX
    ensures next == at + NumberLen(Body(fmt)[at..]) < |fmt|
    ensures props == sp.(pad := if fmt[f - 1] == ZERO then ZERO else sp.pad, npad := NumberAt(Body(fmt)[at..]))
  {
    props, next := sp, f;
    if fmt[f - 1] == ZERO {
      props := props.(pad := ZERO);
      next := next + 1;
    }
    next := next - 1;
    var num: i32;
    num, next := FmtNum(fmt, next);
    props := props.(npad := num);
  }

  /** One turn of the scan, seen from a cursor into the whole format. */
  lemma ScanAt(body: seq<byte>, f: nat, sp: Spec)
    requires f < |body| && WidthsFit(body[f..])
    ensures body[f] == HASH ==>
      WidthsFit(body[f + 1..]) && Scan(body[f..], sp) == Scan(body[f + 1..], sp.(alternate := true))
    ensures body[f] == LOWER_L ==>
      WidthsFit(body[f + 1..]) && Scan(body[f..], sp) == Scan(body[f + 1..], sp.(longs := sp.longs + 1))
    ensures body[f] !in [HASH, LOWER_L, MINUS] && !IsDigit(body[f]) ==>
      Scan(body[f..], sp) == Directive(body[f], sp, body[f + 1..])
  {
    assert body[f..][1..] == body[f + 1..];
  }

  /** One turn that reads a width: where the number starts, and the scan it leads to. */
  lemma ScanWidth(body: seq<byte>, f: nat, sp: Spec) returns (at: nat, d: Directive)
    requires f < |body| && WidthsFit(body[f..])
    requires IsDigit(body[f]) || body[f] == MINUS
    ensures at == if body[f] == ZERO then f + 1 else f
    ensures at + NumberLen(body[at..]) > f && d.rest == body[at + NumberLen(body[at..])..]
    ensures d.sp == sp.(pad := if body[f] == ZERO then ZERO else sp.pad, npad := NumberAt(body[at..]))
    ensures Abs(NumberAt(body[at..])) <= INT_MAX && WidthsFit(d.rest)
    ensures Scan(body[f..], sp) == Scan(d.rest, d.sp)
  {
    var s := body[f..];
    at := if body[f] == ZERO then f + 1 else f;
    if body[f] == ZERO {
      assert s[1..] == body[f + 1..];
      ZeroFlag(s, sp);
      d := Directive(NUL, sp.(pad := ZERO, npad := NumberAt(s[1..])), s[1..][NumberLen(s[1..])..]);
    } else {
      WidthFirst(s, sp);
      d := Directive(NUL, sp.(npad := NumberAt(s)), s[NumberLen(s)..]);
    }
  }

  /** The conversions of the switch in `my_vsnprintf`; `va_arg` moves the argument cursor on. */
  method PrintConversion(s: PStream, conv: byte, props: Spec, va: seq<Arg>, at: nat) returns (next: nat)
    requires s.Valid() && at <= |va| && Abs(props.npad) <= INT_MAX
    requires TakesArgument(conv) ==> at < |va| && Typed(conv, props.longs, va[at])
    requires |s.emitted| + |DirectiveText(conv, props, va[at..])| <= INT_MAX
    modifies s, s.buffer
    ensures s.Valid() && s.emitted == old(s.emitted) + DirectiveText(conv, props, va[at..])
    ensures next == if TakesArgument(conv) then at + 1 else at
  {
    next := if TakesArgument(conv) then at + 1 else at;
    if conv == LOWER_C {
      s.AddChar(va[at].i % 0x100);
    } else if conv == NUL {
    } else if conv == LOWER_D {
      s.PrintInt(if props.longs == 0 then va[at].i else va[at].l, 10, props);
    } else if conv == LOWER_U {
      s.PrintUnsigned(if props.longs == 0 then va[at].u else va[at].v, 10, props);
    } else if conv == LOWER_X {
      s.PrintUnsigned(if props.longs == 0 then va[at].u else va[at].v, 16, props);
    } else if conv == LOWER_P {
      s.PrintUnsigned(va[at].p, 16, props.(alternate := true));
    } else if conv == LOWER_S {
      s.PrintStr(va[at].s, props);
    } else {
      s.AddChar(conv);
    }
  }

  /** One turn of the outer loop, seen from cursors into the whole format and the whole argument list. */
  lemma ExpandAt(body: seq<byte>, f: nat, va: seq<Arg>, a: nat)
    returns (piece: seq<byte>, rest: seq<byte>, left: seq<Arg>)
    requires f < |body| && a <= |va| && WellTyped(body[f..], va[a..])
    ensures WellTyped(rest, left) && Expand(body[f..], va[a..]) == piece + Expand(rest, left)
    ensures body[f] != PERCENT ==> piece == [body[f]] && rest == body[f + 1..] && left == va[a..]
    ensures body[f] == PERCENT ==>
      var d := Scan(body[f + 1..], NO_SPEC);
      var takes := TakesArgument(d.conv);
      && WidthsFit(body[f + 1..])
      && (takes ==> a < |va| && Typed(d.conv, d.sp.longs, va[a]))
      && piece == DirectiveText(d.conv, d.sp, va[a..])
      && rest == d.rest && left == va[if takes then a + 1 else a..]
  {
    assert body[f..][1..] == body[f + 1..];
    assert a < |va| ==> va[a..][1..] == va[a + 1..];
    if body[f] != PERCENT {
      piece, rest, left := [body[f]], body[f + 1..], va[a..];
    } else {
      var d := Scan(body[f + 1..], NO_SPEC);
      piece, rest := DirectiveText(d.conv, d.sp, va[a..]), d.rest;
      left := va[if TakesArgument(d.conv) then a + 1 else a..];
    }
  }

  /** A whole directive, from the character after its `%`. */
  method DirectivePiece(s: PStream, fmt: CString, f: nat, va: seq<Arg>, a: nat, ghost d: Directive)
    returns (f': nat, a': nat)
    requires s.Valid() && f < |fmt| && a <= |va|
    requires WidthsFit(Body(fmt)[f..]) && Scan(Body(fmt)[f..], NO_SPEC) == d
    requires TakesArgument(d.conv) ==> a < |va| && Typed(d.conv, d.sp.longs, va[a])
    requires |s.emitted| + |DirectiveText(d.conv, d.sp, va[a..])| <= INT_MAX
    modifies s, s.buffer
    ensures s.Valid() && s.emitted == old(s.emitted) + DirectiveText(d.conv, d.sp, va[a..])
    ensures f <= f' < |fmt| && Body(fmt)[f'..] == d.rest
    ensures a' == if TakesArgument(d.conv) then a + 1 else a
  {
    var conv, props;
    conv, props, f' := MoreFmt(fmt, f);
    a' := PrintConversion(s, conv, props, va, a);
  }

  /** The body of the outer loop of `my_vsnprintf`: a literal character or a directive. */
  method Piece(s: PStream, fmt: CString, f: nat, va: seq<Arg>, a: nat) returns (f': nat, a': nat)
    requires s.Valid() && f < |Body(fmt)| && a <= |va| && WellTyped(Body(fmt)[f..], va[a..])
    requires |s.emitted + Expand(Body(fmt)[f..], va[a..])| <= INT_MAX
    modifies s, s.buffer
    ensures s.Valid() && f < f' <= |Body(fmt)| && a' <= |va| && WellTyped(Body(fmt)[f'..], va[a'..])
    ensures s.emitted + Expand(Body(fmt)[f'..], va[a'..]) == old(s.emitted) + Expand(Body(fmt)[f..], va[a..])
  {
    ghost var piece, rest, left := ExpandAt(Body(fmt), f, va, a);
    Associates(s.emitted, piece, Expand(rest, left));
    var c := fmt[f];
    f', a' := f + 1, a;
    if c != PERCENT {
      s.AddChar(c);
    } else {
      f', a' := DirectivePiece(s, fmt, f', va, a, Scan(Body(fmt)[f + 1..], NO_SPEC));
    }
    assert Body(fmt)[f'..] == rest && va[a'..] == left;
  }

  /** The outer loop of `my_vsnprintf`. */
  method Pieces(s: PStream, fmt: CString, va: seq<Arg>)
    requires s.Valid() && WellTyped(Body(fmt), va)
    requires |s.emitted| + |Expand(Body(fmt), va)| <= INT_MAX
    modifies s, s.buffer
    ensures s.Valid() && s.emitted == old(s.emitted) + Expand(Body(fmt), va)
  {
    ghost var text := old(s.emitted) + Expand(Body(fmt), va);
    var f, a := 0, 0;
    assert Body(fmt)[0..] == Body(fmt) && va[0..] == va;
    while fmt[f] != NUL
      invariant 0 <= f < |fmt| && 0 <= a <= |va|
      invariant s.Valid()
      invariant WellTyped(Body(fmt)[f..], va[a..])
      invariant s.emitted + Expand(Body(fmt)[f..], va[a..]) == text
      decreases |fmt| - f
    {
      f, a := Piece(s, fmt, f, va, a);
    }
    assert s.emitted + [] == text;
  }

  /** `my_vsnprintf`: the buffer gets as much of the expansion as fits before a terminator, nothing else in it
      changes, and the result is the length of the whole expansion whatever the size. */
  method VSnprintf(buf: array<byte>, size: nat, fmt: CString, va: seq<Arg>) returns (r: int)
    requires 1 <= size <= buf.Length
    requires WellTyped(Body(fmt), va) && |Expand(Body(fmt), va)| <= INT_MAX
    modifies buf
    ensures r == |Expand(Body(fmt), va)|
    ensures buf[..] == Written(Expand(Body(fmt), va), size, old(buf[..]))
  {
    var s := new PStream(buf, size);
    Pieces(s, fmt, va);
    assert s.emitted == Expand(Body(fmt), va);
    r := s.Terminate();
  }

  method Snprintf(buf: array<byte>, size: nat, fmt: CString, va: seq<Arg>) returns (r: int)
    requires 1 <= size <= buf.Length
    requires WellTyped(Body(fmt), va) && |Expand(Body(fmt), va)| <= INT_MAX
    modifies buf
    ensures r == |Expand(Body(fmt), va)|
    ensures buf[..] == Written(Expand(Body(fmt), va), size, old(buf[..]))
  {
    r := VSnprintf(buf, size, fmt, va);
  }
}

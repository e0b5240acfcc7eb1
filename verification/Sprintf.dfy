/** The second formatter, in src/lib/string.c: `simple_sprintf` and its two number converters. */
module Sprintf {
  import opened CTypes
  import opened Numerals
  import opened Bits
  import opened Format
  import opened Reversal

  predicate SimpleTyped(conv: byte, arg: Arg) {
    if conv == LOWER_D || conv == LOWER_C then arg.I32?
    else if conv == LOWER_X || conv == UPPER_X then arg.U32?
    else conv == LOWER_S && arg.Str?
  }

  predicate SimpleTakes(conv: byte) { conv in [LOWER_D, LOWER_X, UPPER_X, LOWER_S, LOWER_C] }

  function HexText(v: nat, uppercase: bool): seq<byte> {
    if uppercase then [ZERO, UPPER_X] + Upper(Numeral(v, 16)) else [ZERO, LOWER_X] + Numeral(v, 16)
  }

  function SimpleText(conv: byte, args: seq<Arg>): seq<byte>
    requires SimpleTakes(conv) ==> args != [] && SimpleTyped(conv, args[0])
  {
    if conv == LOWER_D then SignedNumeral(args[0].i, 10)
    else if conv == LOWER_X then HexText(args[0].u, false)
    else if conv == UPPER_X then HexText(args[0].u, true)
    else if conv == LOWER_S then Body(args[0].s)
    else if conv == LOWER_C then [args[0].i % 0x100]
    else if conv == PERCENT then [PERCENT]
    else [PERCENT, conv]
  }

  predicate SimpleSupplied(fmt: seq<byte>, args: seq<Arg>)
    decreases |fmt|
  {
    if fmt == [] then true
    else if fmt[0] != PERCENT || |fmt| == 1 then SimpleSupplied(fmt[1..], args)
    else if SimpleTakes(fmt[1]) then args != [] && SimpleTyped(fmt[1], args[0]) && SimpleSupplied(fmt[2..], args[1..])
    else SimpleSupplied(fmt[2..], args)
  }

  /** What `simple_sprintf` prints: a `%` that ends the format, or precedes a character without a meaning,
      stands for itself. */
  function SimpleExpand(fmt: seq<byte>, args: seq<Arg>): seq<byte>
    requires SimpleSupplied(fmt, args)
    decreases |fmt|
  {
    if fmt == [] then []
    else if fmt[0] != PERCENT || |fmt| == 1 then [fmt[0]] + SimpleExpand(fmt[1..], args)
    else SimpleText(fmt[1], args) + SimpleExpand(fmt[2..], if SimpleTakes(fmt[1]) then args[1..] else args)
  }

  /** `itoa_decimal`: the sign goes first, the digits after it backwards, and only they are reversed. */
  method ItoaDecimal(value: i64, str: array<byte>) returns (len: nat)
    requires value > I64_MIN && |SignedNumeral(value, 10)| < str.Length
    modifies str
    ensures NUL !in SignedNumeral(value, 10) && len == |SignedNumeral(value, 10)|
    ensures str[..len + 1] == Terminated(SignedNumeral(value, 10))
  {
    NoNul(Abs(value), 10);
    SignedSplits(value);
    var start, p := DecimalBackwards(value, str);
    Finish(str, start, p);
    len := p;
  }

  function Sign(value: int): seq<byte> { if value < 0 then [MINUS] else [] }

  lemma SignedSplits(value: int)
    ensures SignedNumeral(value, 10) == Sign(value) + Numeral(Abs(value), 10)
  {
  }

  /** The sign, and the digits backwards. */
  method DecimalBackwards(value: i64, str: array<byte>) returns (start: nat, p: nat)
    requires value > I64_MIN && |Sign(value)| + |Numeral(Abs(value), 10)| < str.Length
    modifies str
    ensures start == |Sign(value)| && start < p < str.Length && p == start + |Numeral(Abs(value), 10)|
    ensures str[..start] == Sign(value) && Rev(str[start..p]) == Numeral(Abs(value), 10)
  {
    var v := value;
    p, start := 0, 0;
    if v < 0 {
      str[p] := MINUS;
      p := p + 1;
      v := -v;
      start := p;
    }
    p := DoDigits(str, start, v);
  }

  /** The terminator, and the reversal of what stands between the sign or prefix and it. */
  method Finish(str: array<byte>, start: nat, p: nat)
    requires start < p < str.Length
    modifies str
    ensures str[..p + 1] == old(str[..start]) + Rev(old(str[start..p])) + [NUL]
  {
    str[p] := NUL;
    ghost var before := str[..];
    assert before[start..p] == old(str[start..p]) && before[..start] == old(str[..start]);
    SwapInward(str, start, p);
    Spliced(str[..], before[..start], Rev(before[start..p]), before[p..]);
  }

  lemma Spliced(s: seq<byte>, sign: seq<byte>, digits: seq<byte>, rest: seq<byte>)
    requires rest != [] && s == sign + digits + rest
    ensures s[..|sign| + |digits| + 1] == sign + digits + [rest[0]]
  {
  }

  function HexDigits(v: nat, uppercase: bool): seq<byte> { if uppercase then Upper(Digits(v, 16)) else Digits(v, 16) }

  function HexChar(d: nat, uppercase: bool): byte
    requires d < 16
  {
    if uppercase then UpperDigitChar(d) else DigitChar(d)
  }

  lemma UpperNoNul(s: seq<byte>)
    requires NUL !in s
    ensures NUL !in Upper(s)
  {
    forall i | 0 <= i < |s| ensures Upper(s)[i] != NUL {
      assert s[i] in s;
    }
  }

  lemma HexTextOf(v: nat, uppercase: bool)
    ensures NUL !in HexText(v, uppercase)
    ensures HexText(v, uppercase) == [ZERO, if uppercase then UPPER_X else LOWER_X]
      + if v == 0 then [ZERO] else HexDigits(v, uppercase)
    ensures |HexDigits(v, uppercase)| == |Digits(v, 16)|
  {
    NoNul(v, 16);
    UpperNoNul(Numeral(v, 16));
    assert Upper([ZERO]) == [ZERO];
  }

  /** `itoa_hex`: digits come off the low end by masking and shifting. */
  method ItoaHex(value: u64, str: array<byte>, uppercase: bool) returns (len: nat)
    requires |HexText(value, uppercase)| < str.Length
    modifies str
    ensures NUL !in HexText(value, uppercase) && len == |HexText(value, uppercase)|
    ensures str[..len + 1] == Terminated(HexText(value, uppercase))
  {
    HexTextOf(value, uppercase);
    var p := HexBackwards(value, str, uppercase);
    Finish(str, 2, p);
    len := p;
  }

  /** The prefix, and the digits backwards. */
  method HexBackwards(value: u64, str: array<byte>, uppercase: bool) returns (p: nat)
    requires (if value == 0 then 1 else |HexDigits(value, uppercase)|) + 2 < str.Length
    modifies str
    ensures p == 2 + if value == 0 then 1 else |HexDigits(value, uppercase)|
    ensures str[..2] == [ZERO, if uppercase then UPPER_X else LOWER_X]
    ensures Rev(str[2..p]) == if value == 0 then [ZERO] else HexDigits(value, uppercase)
  {
    str[0] := ZERO;
    str[1] := if uppercase then UPPER_X else LOWER_X;
    assert str[..2] == [ZERO, if uppercase then UPPER_X else LOWER_X];
    p := 2;
    if value == 0 {
      str[p] := ZERO;
      p := p + 1;
      assert str[2..p] == [ZERO];
    } else {
      p := HexLoop(value, str, uppercase);
    }
  }

  method HexLoop(value: u64, str: array<byte>, uppercase: bool) returns (p: nat)
    requires |HexDigits(value, uppercase)| + 2 <= str.Length
    modifies str
    ensures p == 2 + |HexDigits(value, uppercase)|
    ensures Rev(str[2..p]) == HexDigits(value, uppercase)
    ensures str[..2] == old(str[..2])
  {
    ghost var q := Quotients(value, 16);
    var v := value;
    p := 2;
    while v > 0
      invariant 2 <= p < 2 + |q| && v == q[p - 2]
      invariant forall i :: 2 <= i < p ==> str[i] == HexChar(q[i - 2] % 16, uppercase)
      invariant forall i :: 0 <= i < 2 ==> str[i] == old(str[i])
      decreases 2 + |q| - p
    {
      Nibble(v);
      assert Shrinks(q, p - 2, 16);
      str[p] := HexChar(BitAnd(v, 0xF), uppercase);
      p := p + 1;
      v := Shr(v, 4);
    }
    assert p - 2 < |q| - 1 ==> Shrinks(q, p - 2, 16);
    HexBackwardsAre(value, q, str[2..p], uppercase);
  }

  lemma HexBackwardsAre(v: nat, q: seq<nat>, s: seq<byte>, uppercase: bool)
    requires Descends(q, v, 16) && |s| == |q| - 1 == |Digits(v, 16)|
    requires forall i :: 0 <= i < |s| ==> s[i] == HexChar(q[i] % 16, uppercase)
    ensures Rev(s) == HexDigits(v, uppercase)
  {
    var lower := seq(|s|, i requires 0 <= i < |s| => DigitChar(q[i] % 16));
    Backwards(v, 16, q, lower);
    InCase(lower, s, uppercase);
  }

  lemma InCase(lower: seq<byte>, s: seq<byte>, uppercase: bool)
    requires |s| == |lower|
    requires forall i :: 0 <= i < |s| ==> s[i] == if uppercase && 97 <= lower[i] <= 122 then lower[i] - 32 else lower[i]
    ensures Rev(s) == if uppercase then Upper(Rev(lower)) else Rev(lower)
  {
    assert uppercase ==> Rev(s) == Upper(Rev(lower));
  }

  /** The 32-byte temporaries hold every converted number. */
  lemma TemporariesSuffice(i: i32, u: u32, uppercase: bool)
    ensures |SignedNumeral(i, 10)| < 32 && |HexText(u, uppercase)| < 32
  {
    Pow10();
    Pow16();
    DigitCount(Abs(i), 10, 19);
    DigitCount(u, 16, 8);
  }

  /** `strcpy(p, src)` into the middle of a buffer, and the length of `src` added to `p`. */
  method CopyAt(buf: array<byte>, p: nat, src: CString) returns (end: nat)
    requires p + |src| <= buf.Length
    modifies buf
    ensures end == p + |Body(src)| && buf[..end] == old(buf[..p]) + Body(src) && buf[end] == NUL
    ensures forall i :: end < i < buf.Length ==> buf[i] == old(buf[i])
  {
    var k := 0;
    while true
      invariant 0 <= k < |src|
      invariant forall i :: 0 <= i < p || p + k <= i < buf.Length ==> buf[i] == old(buf[i])
      invariant forall i :: p <= i < p + k ==> buf[i] == src[i - p]
      decreases |src| - k
    {
      buf[p + k] := src[k];
      if src[k] == NUL {
        break;
      }
      k := k + 1;
    }
    assert k == |src| - 1;
    end := p + k;
    assert buf[..end] == old(buf[..p]) + src[..k];
  }

  /** The three cases that convert a number into the temporary. */
  method PutNumber(temp: array<byte>, conv: byte, arg: Arg) returns (len: nat)
    requires temp.Length == 32
    requires conv in [LOWER_D, LOWER_X, UPPER_X] && SimpleTyped(conv, arg)
    modifies temp
    ensures len == |SimpleText(conv, [arg])| < 32 && NUL !in SimpleText(conv, [arg])
    ensures temp[..len + 1] == Terminated(SimpleText(conv, [arg]))
  {
    if conv == LOWER_D {
      TemporariesSuffice(arg.i, 0, false);
      len := ItoaDecimal(arg.i, temp);
    } else {
      TemporariesSuffice(0, arg.u, conv == UPPER_X);
      len := ItoaHex(arg.u, temp, conv == UPPER_X);
    }
  }

  method PutConverted(buf: array<byte>, p: nat, conv: byte, arg: Arg) returns (p': nat)
    requires conv in [LOWER_D, LOWER_X, UPPER_X] && SimpleTyped(conv, arg)
    requires p + |SimpleText(conv, [arg])| < buf.Length
    modifies buf
    ensures p' == p + |SimpleText(conv, [arg])|
    ensures buf[..p'] == old(buf[..p]) + SimpleText(conv, [arg])
    ensures forall i :: p' < i < buf.Length ==> buf[i] == old(buf[i])
  {
    var temp := new byte[32];
    var len := PutNumber(temp, conv, arg);
    p' := CopyAt(buf, p, temp[..len + 1]);
  }

  /** The body of the switch of `simple_sprintf`: the text of one conversion goes straight to the write
      pointer, or through a temporary. The byte behind it may have been overwritten by a terminator. */
  method PutConversion(buf: array<byte>, p: nat, conv: byte, args: seq<Arg>) returns (p': nat)
    requires SimpleTakes(conv) ==> args != [] && SimpleTyped(conv, args[0])
    requires p + |SimpleText(conv, args)| < buf.Length
    modifies buf
    ensures p' == p + |SimpleText(conv, args)|
    ensures buf[..p'] == old(buf[..p]) + SimpleText(conv, args)
    ensures forall i :: p' < i < buf.Length ==> buf[i] == old(buf[i])
  {
    if conv == LOWER_D || conv == LOWER_X || conv == UPPER_X {
      p' := PutConverted(buf, p, conv, args[0]);
    } else if conv == LOWER_S {
      p' := CopyAt(buf, p, args[0].s);
    } else if conv == LOWER_C {
      p' := Push(buf, p, args[0].i % 0x100);
    } else if conv == PERCENT {
      p' := Push(buf, p, PERCENT);
    } else {
      p' := PutUnknown(buf, p, conv);
    }
  }

  /** A character without a meaning goes out behind its `%`. */
  method PutUnknown(buf: array<byte>, p: nat, conv: byte) returns (p': nat)
    requires p + 2 < buf.Length
    modifies buf
    ensures p' == p + 2 && buf[..p'] == old(buf[..p]) + [PERCENT, conv]
    ensures forall i :: p' < i < buf.Length ==> buf[i] == old(buf[i])
  {
    p' := Push(buf, p, PERCENT);
    p' := Push(buf, p', conv);
  }

  lemma SimpleAt(body: seq<byte>, f: nat, args: seq<Arg>, a: nat)
    returns (piece: seq<byte>, f': nat, a': nat)
    requires f < |body| && a <= |args| && SimpleSupplied(body[f..], args[a..])
    ensures f < f' <= |body| && a' <= |args| && SimpleSupplied(body[f'..], args[a'..])
    ensures SimpleExpand(body[f..], args[a..]) == piece + SimpleExpand(body[f'..], args[a'..])
    ensures
      if body[f] != PERCENT || f + 1 == |body| then piece == [body[f]] && f' == f + 1 && a' == a
      else
        && (SimpleTakes(body[f + 1]) ==> a < |args| && SimpleTyped(body[f + 1], args[a]))
        && piece == SimpleText(body[f + 1], args[a..]) && f' == f + 2
        && a' == if SimpleTakes(body[f + 1]) then a + 1 else a
  {
    var s := body[f..];
    assert s[1..] == body[f + 1..];
    if body[f] != PERCENT || f + 1 == |body| {
      piece, f', a' := [body[f]], f + 1, a;
    } else {
      assert s[1] == body[f + 1] && s[2..] == body[f + 2..];
      assert a < |args| ==> args[a..][1..] == args[a + 1..];
      piece, f', a' := SimpleText(body[f + 1], args[a..]), f + 2, if SimpleTakes(body[f + 1]) then a + 1 else a;
    }
  }

  /** One turn of the loop of `simple_sprintf`. */
  method SimplePiece(buf: array<byte>, p: nat, fmt: CString, f: nat, args: seq<Arg>, a: nat, ghost piece: seq<byte>)
    returns (p': nat, f': nat, a': nat)
    requires f < |Body(fmt)| && a <= |args|
    requires fmt[f] == PERCENT && fmt[f + 1] != NUL && SimpleTakes(fmt[f + 1]) ==>
      a < |args| && SimpleTyped(fmt[f + 1], args[a])
    requires piece == if fmt[f] == PERCENT && fmt[f + 1] != NUL then SimpleText(fmt[f + 1], args[a..]) else [fmt[f]]
    requires p + |piece| < buf.Length
    modifies buf
    ensures p' == p + |piece| && buf[..p'] == old(buf[..p]) + piece
    ensures forall i :: p' < i < buf.Length ==> buf[i] == old(buf[i])
    ensures f' == if fmt[f] == PERCENT && fmt[f + 1] != NUL then f + 2 else f + 1
    ensures a' == if fmt[f] == PERCENT && fmt[f + 1] != NUL && SimpleTakes(fmt[f + 1]) then a + 1 else a
  {
    f', a' := f, a;
    if fmt[f'] == PERCENT && fmt[f' + 1] != NUL {
      f' := f' + 1;
      p' := PutConversion(buf, p, fmt[f'], args[a..]);
      a' := if SimpleTakes(fmt[f']) then a + 1 else a;
    } else {
      p' := Push(buf, p, fmt[f']);
    }
    f' := f' + 1;
  }

  /** The same turn, in terms of the text still to come. */
  method SimpleTurn(buf: array<byte>, p: nat, fmt: CString, f: nat, args: seq<Arg>, a: nat)
    returns (p': nat, f': nat, a': nat)
    requires f < |Body(fmt)| && a <= |args| && SimpleSupplied(Body(fmt)[f..], args[a..])
    requires p + |SimpleExpand(Body(fmt)[f..], args[a..])| < buf.Length
    modifies buf
    ensures f < f' <= |Body(fmt)| && a' <= |args| && SimpleSupplied(Body(fmt)[f'..], args[a'..])
    ensures p' + |SimpleExpand(Body(fmt)[f'..], args[a'..])| == p + |SimpleExpand(Body(fmt)[f..], args[a..])|
    ensures buf[..p'] + SimpleExpand(Body(fmt)[f'..], args[a'..]) ==
      old(buf[..p]) + SimpleExpand(Body(fmt)[f..], args[a..])
    ensures forall i :: p' < i < buf.Length ==> buf[i] == old(buf[i])
  {
    ghost var piece, g, b := SimpleAt(Body(fmt), f, args, a);
    Associates(buf[..p], piece, SimpleExpand(Body(fmt)[g..], args[b..]));
    p', f', a' := SimplePiece(buf, p, fmt, f, args, a, piece);
    assert f' == g && a' == b;
  }

  /** The loop of `simple_sprintf`. */
  method SimplePieces(buf: array<byte>, fmt: CString, args: seq<Arg>) returns (p: nat)
    requires SimpleSupplied(Body(fmt), args) && |SimpleExpand(Body(fmt), args)| < buf.Length
    modifies buf
    ensures p == |SimpleExpand(Body(fmt), args)| && buf[..p] == SimpleExpand(Body(fmt), args)
    ensures forall i :: p < i < buf.Length ==> buf[i] == old(buf[i])
  {
    ghost var text := SimpleExpand(Body(fmt), args);
    var f, a := 0, 0;
    p := 0;
    assert Body(fmt)[0..] == Body(fmt) && args[0..] == args && buf[..0] + text == text;
    while fmt[f] != NUL
      invariant 0 <= f < |fmt| && 0 <= a <= |args| && 0 <= p
      invariant SimpleSupplied(Body(fmt)[f..], args[a..])
      invariant p + |SimpleExpand(Body(fmt)[f..], args[a..])| == |text|
      invariant buf[..p] + SimpleExpand(Body(fmt)[f..], args[a..]) == text
      invariant forall i :: |text| < i < buf.Length ==> buf[i] == old(buf[i])
      decreases |fmt| - f
    {
      p, f, a := SimpleTurn(buf, p, fmt, f, args, a);
    }
    assert buf[..p] + [] == text;
  }

  /** `simple_sprintf`: the whole expansion and a terminator, and nothing behind them. */
  method SimpleSprintf(buf: array<byte>, fmt: CString, args: seq<Arg>) returns (r: int)
    requires SimpleSupplied(Body(fmt), args)
    requires |SimpleExpand(Body(fmt), args)| < buf.Length && |SimpleExpand(Body(fmt), args)| <= INT_MAX
    modifies buf
    ensures r == |SimpleExpand(Body(fmt), args)|
    ensures buf[..] == SimpleExpand(Body(fmt), args) + [NUL] + old(buf[..])[r + 1..]
  {
    ghost var before := buf[..];
    var p := SimplePieces(buf, fmt, args);
    buf[p] := NUL;
    assert buf[p + 1..] == before[p + 1..];
    r := p;
  }
}

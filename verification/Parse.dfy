/** The number parsers of src/lib/string.c, and what they read back of what the formatter prints. */
module Parse {
  import opened CTypes
  import opened Numerals
  import opened Format

  predicate IsBlank(c: byte) { c == SPACE || c == TAB || c == LF }

  /** How many blanks a text starts with. */
  function Blanks(s: seq<byte>): (k: nat)
    ensures k <= |s|
  {
    if s == [] || !IsBlank(s[0]) then 0 else 1 + Blanks(s[1..])
  }

  /** The text after the blanks and one optional sign. */
  function Unsigned(s: seq<byte>): seq<byte> {
    var t := s[Blanks(s)..];
    if t != [] && (t[0] == MINUS || t[0] == PLUS) then t[1..] else t
  }

  predicate Negative(s: seq<byte>) {
    var t := s[Blanks(s)..];
    t != [] && t[0] == MINUS
  }

  function Magnitude(s: seq<byte>): nat { Value(s[..DigitRun(s)], 10) }

  /** The number a text denotes: what follows the digits is ignored, and no digits denote zero. */
  function ParsedValue(s: seq<byte>): int {
    if Negative(s) then 0 - Magnitude(Unsigned(s)) else Magnitude(Unsigned(s))
  }

  lemma {:induction false} BlanksAre(blanks: seq<byte>, rest: seq<byte>)
    requires forall i :: 0 <= i < |blanks| ==> blanks[i] in {9, 10, 32}
    requires rest != [] ==> rest[0] !in {9, 10, 32}
    ensures Blanks(blanks + rest) == |blanks|
  {
    if blanks == [] {
      assert blanks + rest == rest;
    } else {
      BlanksAre(blanks[1..], rest);
      assert (blanks + rest)[1..] == blanks[1..] + rest;
    }
  }

  lemma {:induction false} RunOfDigits(digits: seq<byte>, rest: seq<byte>)
    requires forall i :: 0 <= i < |digits| ==> 48 <= digits[i] <= 57
    requires rest != [] ==> !(48 <= rest[0] <= 57)
    ensures DigitRun(digits + rest) == |digits| && Magnitude(digits + rest) == Value(digits, 10)
  {
    if digits == [] {
      assert digits + rest == rest;
    } else {
      RunOfDigits(digits[1..], rest);
      assert (digits + rest)[1..] == digits[1..] + rest;
    }
    assert (digits + rest)[..|digits|] == digits;
  }

  lemma AfterBlanks(blanks: seq<byte>, t: seq<byte>)
    requires forall i :: 0 <= i < |blanks| ==> blanks[i] in {9, 10, 32}
    requires t != [] ==> t[0] !in {9, 10, 32}
    ensures Negative(blanks + t) == (t != [] && t[0] == 45)
    ensures Unsigned(blanks + t) == if t != [] && (t[0] == 43 || t[0] == 45) then t[1..] else t
  {
    BlanksAre(blanks, t);
    assert (blanks + t)[|blanks|..] == t;
  }

  lemma AfterSign(sign: seq<byte>, number: seq<byte>)
    requires sign == [] || sign == [43] || sign == [45]
    requires sign == [] && number != [] ==> number[0] !in {9, 10, 32, 43, 45}
    ensures var t := sign + number;
      && (t != [] ==> t[0] !in {9, 10, 32})
      && (t != [] && t[0] == 45 <==> sign == [45])
      && (if t != [] && (t[0] == 43 || t[0] == 45) then t[1..] else t) == number
  {
    if sign == [] {
      assert sign + number == number;
    } else {
      assert (sign + number)[1..] == number;
    }
  }

  lemma AfterBoth(blanks: seq<byte>, sign: seq<byte>, number: seq<byte>)
    requires forall i :: 0 <= i < |blanks| ==> blanks[i] in {9, 10, 32}
    requires sign == [] || sign == [43] || sign == [45]
    requires sign == [] && number != [] ==> number[0] !in {9, 10, 32, 43, 45}
    ensures Unsigned(blanks + (sign + number)) == number && Negative(blanks + (sign + number)) == (sign == [45])
  {
    AfterSign(sign, number);
    AfterBlanks(blanks, sign + number);
  }

  /** What `atol` reads: after spaces, tabs and line feeds and an optional `+` or `-`, the digits up to the first
      character that is none; no digits are zero. */
  lemma Reads(blanks: seq<byte>, sign: seq<byte>, digits: seq<byte>, rest: seq<byte>)
    requires forall i :: 0 <= i < |blanks| ==> blanks[i] in {9, 10, 32}
    requires sign == [] || sign == [43] || sign == [45]
    requires forall i :: 0 <= i < |digits| ==> 48 <= digits[i] <= 57
    requires rest != [] ==> !(48 <= rest[0] <= 57)
    requires sign == [] && digits == [] && rest != [] ==> rest[0] !in {9, 10, 32, 43, 45}
    ensures var s := blanks + (sign + (digits + rest));
      && ParsedValue(s) == (if sign == [45] then 0 - Value(digits, 10) else Value(digits, 10))
      && Magnitude(Unsigned(s)) == Value(digits, 10)
  {
    RunOfDigits(digits, rest);
    assert digits == [] ==> digits + rest == rest;
    AfterBoth(blanks, sign, digits + rest);
    ReadsAs(blanks + (sign + (digits + rest)), digits + rest, sign == [45], Value(digits, 10));
  }

  lemma ReadsAs(s: seq<byte>, number: seq<byte>, negative: bool, v: nat)
    requires Unsigned(s) == number && Negative(s) == negative && Magnitude(number) == v
    ensures ParsedValue(s) == (if negative then 0 - v else v) && Magnitude(Unsigned(s)) == v
  {
  }

  /** `atol`; the accumulator stays within `long` whenever the magnitude does. */
  method Atol(str: CString) returns (r: i64)
    requires Magnitude(Unsigned(Body(str))) <= I64_MAX
    ensures r == ParsedValue(Body(str))
  {
    ghost var s := Body(str);
    var sign := 1;
    var at := SkipBlanks(str);
    if str[at] == MINUS {
      sign := -1;
      at := at + 1;
    } else if str[at] == PLUS {
      at := at + 1;
    }
    assert at > Blanks(s) ==> s[Blanks(s)..][1..] == s[at..];
    var result := Accumulate(str, at);
    r := result * sign;
  }

  method SkipBlanks(str: CString) returns (at: nat)
    ensures at == Blanks(Body(str)) < |str|
    ensures at < |str| - 1 ==> Body(str)[at..][0] == str[at]
  {
    at := 0;
    assert Body(str)[0..] == Body(str);
    while str[at] == SPACE || str[at] == TAB || str[at] == LF
      invariant 0 <= at < |str|
      invariant Blanks(Body(str)) == at + Blanks(Body(str)[at..])
      decreases |str| - at
    {
      assert Body(str)[at..][1..] == Body(str)[at + 1..];
      at := at + 1;
    }
  }

  /** The digit loop of `atol`. */
  method Accumulate(str: CString, start: nat) returns (result: i64)
    requires start < |str| && Magnitude(Body(str)[start..]) <= I64_MAX
    ensures result == Magnitude(Body(str)[start..])
  {
    ghost var s := Body(str)[start..];
    ghost var run := s[..DigitRun(s)];
    var at := start;
    result := 0;
    while ZERO <= str[at] <= NINE
      invariant at - start <= |run| && start <= at < |str|
      invariant result == Value(run[..at - start], 10)
      decreases |str| - at
    {
      assert s[at - start] == str[at];
      DigitStep(run, at - start);
      result := result * 10 + (str[at] - ZERO);
      at := at + 1;
    }
    assert at - start < |s| ==> s[at - start] == str[at];
    assert run[..at - start] == run;
  }

  method Atoi(str: CString) returns (r: i32)
    requires Magnitude(Unsigned(Body(str))) <= I64_MAX
    ensures r == ToInt(ParsedValue(Body(str)))
  {
    var l := Atol(str);
    r := ToInt(l);
  }
}

/** Positional numerals: what every number printer and parser of the kernel is measured against. */
module Numerals {
  import opened CTypes

  function Pow(b: nat, k: nat): (p: nat)
    ensures b >= 1 ==> p >= 1
  {
    if k == 0 then 1 else b * Pow(b, k - 1)
  }

  /** The table "0123456789abcdef" (logger.c:57, string.c:235). */
  function DigitChar(d: nat): byte
    requires d < 16
  {
    if d < 10 then 48 + d else 87 + d
  }

  function UpperDigitChar(d: nat): byte
    requires d < 16
  {
    if d < 10 then 48 + d else 55 + d
  }

  /** Both tables in their characters, and the digits read back as their values in either case. */
  lemma DigitTables(d: nat)
    requires d < 16
    ensures DigitChar(d) == Ascii("0123456789abcdef")[d] && UpperDigitChar(d) == Ascii("0123456789ABCDEF")[d]
    ensures DigitVal(DigitChar(d)) == DigitVal(UpperDigitChar(d)) == d
  {
    LowerTable(d);
    UpperTable(d);
  }

  lemma LowerTable(d: nat)
    requires d < 16
    ensures DigitChar(d) == Ascii("0123456789abcdef")[d]
  {
  }

  lemma UpperTable(d: nat)
    requires d < 16
    ensures UpperDigitChar(d) == Ascii("0123456789ABCDEF")[d]
  {
  }

  predicate IsDigit(c: byte) { ZERO <= c <= NINE }

  /** The value of a digit of either case; 99 for every byte that is none. */
  function DigitVal(c: byte): nat {
    if 48 <= c <= 57 then c - 48
    else if 97 <= c <= 102 then c - 87
    else if 65 <= c <= 70 then c - 55
    else 99
  }

  /** Horner's rule, the most significant digit first. */
  function Value(s: seq<byte>, b: nat): nat {
    if s == [] then 0 else Value(s[..|s| - 1], b) * b + DigitVal(s[|s| - 1])
  }

  /** The digits a `while (n)` loop produces, read backwards: nothing for zero. */
  function Digits(n: nat, b: nat): (s: seq<byte>)
    requires 2 <= b <= 16
    ensures n > 0 ==> s != []
  {
    if n == 0 then [] else DivShrinks(n, b); Digits(n / b, b) + [DigitChar(n % b)]
  }

  function Numeral(n: nat, b: nat): (s: seq<byte>)
    requires 2 <= b <= 16
    ensures s != []
  {
    if n == 0 then [ZERO] else Digits(n, b)
  }

  function SignedNumeral(n: int, b: nat): seq<byte>
    requires 2 <= b <= 16
  {
    if n < 0 then [MINUS] + Numeral(-n, b) else Numeral(n, b)
  }

  /** A well-formed numeral: lower-case digits below the base and no leading zero. */
  predicate IsNumeral(s: seq<byte>, b: nat) {
    && s != []
    && (forall i :: 0 <= i < |s| ==> DigitVal(s[i]) < b && !(65 <= s[i] <= 70))
    && (s[0] == ZERO ==> |s| == 1)
  }

  /** The upper-case form of a lower-case hexadecimal text. */
  function Upper(s: seq<byte>): seq<byte> {
    seq(|s|, i requires 0 <= i < |s| => if 97 <= s[i] <= 122 then s[i] - 32 else s[i])
  }

  lemma DivShrinks(n: nat, b: nat)
    requires n > 0 && b >= 2
    ensures 0 <= n / b < n
    ensures 0 <= n % b < b && n == n / b * b + n % b
  {
    MulMono(n / b, n / b, 2, b);
  }

  lemma MulMono(a: nat, c: nat, b: nat, d: nat)
    requires a <= c && b <= d
    ensures a * b <= c * d
  {
    assert a * b <= c * b && c * b <= c * d;
  }

  lemma MulAssociates(a: nat, b: nat, c: nat)
    ensures a * (b * c) == a * b * c
  {
  }

  lemma MultipleIsFar(k: int, b: nat)
    ensures k >= 1 ==> k * b >= b
    ensures k <= -1 ==> k * b + b <= 0
  {
  }

  lemma QuotientIs(q: nat, b: nat, r: nat)
    requires r < b
    ensures (q * b + r) / b == q && (q * b + r) % b == r
  {
    var n := q * b + r;
    assert n == n / b * b + n % b;
    assert (n / b - q) * b == r - n % b;
    MultipleIsFar(n / b - q, b);
  }

  lemma DivTwice(v: nat, a: nat, b: nat)
    requires a > 0 && b > 0
    ensures v / a / b == v / (a * b)
  {
    Composed(v, a, b, v / a, v % a, v / a / b, v / a % b);
  }

  lemma Composed(v: nat, a: nat, b: nat, x: nat, t: nat, q: nat, r: nat)
    requires v == x * a + t && x == q * b + r && t < a && r < b
    ensures a * b > 0 && v / (a * b) == q
  {
    MulAdd(q * b, r, a);
    MulAssociates(q, b, a);
    MulMono(r + 1, b, a, a);
    MulAdd(r, 1, a);
    QuotientIs(q, b * a, r * a + t);
  }

  lemma MulAdd(x: nat, y: nat, a: nat)
    ensures (x + y) * a == x * a + y * a
  {
  }

  lemma ValueSnoc(s: seq<byte>, c: byte, b: nat)
    ensures Value(s + [c], b) == Value(s, b) * b + DigitVal(c)
  {
    assert (s + [c])[..|s|] == s;
  }

  lemma {:induction false} ValueOfDigits(n: nat, b: nat)
    requires 2 <= b <= 16
    ensures Value(Digits(n, b), b) == n
  {
    if n > 0 {
      DivShrinks(n, b);
      ValueOfDigits(n / b, b);
      ValueSnoc(Digits(n / b, b), DigitChar(n % b), b);
    }
  }

  lemma {:induction false} DigitsAreDigits(n: nat, b: nat)
    requires 2 <= b <= 16
    ensures var s := Digits(n, b);
      && (forall i :: 0 <= i < |s| ==>
            DigitVal(s[i]) < b && !(65 <= s[i] <= 70) && s[i] != MINUS && s[i] != SPACE && s[i] != NUL)
      && (s != [] ==> s[0] != ZERO)
      && (b <= 10 ==> forall i :: 0 <= i < |s| ==> IsDigit(s[i]))
  {
    if n > 0 {
      DivShrinks(n, b);
      DigitsAreDigits(n / b, b);
    }
  }

  /** The printed numeral is a numeral of the number it was made from. */
  lemma NumeralMeans(n: nat, b: nat)
    requires 2 <= b <= 16
    ensures IsNumeral(Numeral(n, b), b) && Value(Numeral(n, b), b) == n
    ensures b <= 10 ==> forall i :: 0 <= i < |Numeral(n, b)| ==> IsDigit(Numeral(n, b)[i])
    ensures NUL !in Numeral(n, b)
  {
    ValueOfDigits(n, b);
    DigitsAreDigits(n, b);
    assert n == 0 ==> Value([ZERO], b) == 0 by { ValueSnoc([], ZERO, b); assert [] + [ZERO] == [ZERO]; }
  }

  lemma NoNul(n: nat, b: nat)
    requires 2 <= b <= 16
    ensures NUL !in Numeral(n, b)
  {
    NumeralMeans(n, b);
  }

  lemma DecimalDigits(n: nat)
    ensures forall i :: 0 <= i < |Numeral(n, 10)| ==> IsDigit(Numeral(n, 10)[i])
  {
    NumeralMeans(n, 10);
  }

  lemma ValueOfNumeral(n: nat, b: nat)
    requires 2 <= b <= 16
    ensures Value(Numeral(n, b), b) == n
  {
    NumeralMeans(n, b);
  }

  lemma FirstDigit(n: nat, b: nat)
    requires 2 <= b <= 16
    ensures Numeral(n, b)[0] >= ZERO
  {
    assert DigitVal(Numeral(n, b)[0]) < b by { NumeralMeans(n, b); }
  }

  /** One step of the do-while digit loops. */
  lemma LastDigit(v: nat)
    ensures Numeral(v, 10) == (if v / 10 > 0 then Numeral(v / 10, 10) else []) + [ZERO + v % 10]
  {
    if v > 0 {
      assert Digits(v, 10) == Digits(v / 10, 10) + [DigitChar(v % 10)];
      assert v / 10 == 0 ==> Digits(v / 10, 10) == [];
    }
  }

  lemma {:induction false} DigitsUnique(s: seq<byte>, b: nat)
    requires 2 <= b <= 16
    requires forall i :: 0 <= i < |s| ==> DigitVal(s[i]) < b && !(65 <= s[i] <= 70)
    requires s != [] ==> s[0] != ZERO
    ensures s == Digits(Value(s, b), b)
  {
    if s != [] {
      var t, c := s[..|s| - 1], s[|s| - 1];
      DigitsUnique(t, b);
      QuotientIs(Value(t, b), b, DigitVal(c));
      assert DigitChar(DigitVal(c)) == c;
      MultipleIsFar(Value(t, b), b);
      assert s == t + [c];
    }
  }

  /** A numeral of several digits is that of the number without its last digit, and the last digit. */
  lemma NumeralSplits(n: nat, b: nat)
    requires 2 <= b <= 16 && n >= b
    ensures 0 < n / b < n && Numeral(n, b) == Numeral(n / b, b) + [Ascii("0123456789abcdef")[n % b]]
  {
    DivShrinks(n, b);
    QuotientBelow(n, b, 1);
    DigitTables(n % b);
  }

  lemma NumeralOfOne(n: nat, b: nat)
    requires 2 <= b <= 16 && n < b
    ensures Numeral(n, b) == [Ascii("0123456789abcdef")[n]]
  {
    DigitTables(n);
    QuotientIs(0, b, n);
    assert n > 0 ==> Digits(n, b) == Digits(0, b) + [DigitChar(n)];
  }

  /** The numeral without leading zeros is unique: any text that is one is what the printers produce. */
  lemma NumeralUnique(s: seq<byte>, b: nat)
    requires 2 <= b <= 16
    ensures IsNumeral(s, b) <==> s == Numeral(Value(s, b), b)
  {
    if IsNumeral(s, b) {
      if s[0] == ZERO {
        NumeralMeans(0, b);
        assert s == [ZERO];
      } else {
        DigitsUnique(s, b);
        assert Value(s, b) == 0 ==> s == [];
      }
    } else {
      NumeralMeans(Value(s, b), b);
    }
  }

  lemma PowStep(b: nat, k: nat)
    requires b >= 1
    ensures Pow(b, k) >= 1 && Pow(b, k + 1) == b * Pow(b, k)
  {
    if k > 0 { PowStep(b, k - 1); MulMono(1, b, 1, Pow(b, k - 1)); }
  }

  lemma QuotientBelow(n: nat, b: nat, p: nat)
    requires b >= 1
    ensures n / b < p <==> n < b * p
  {
    var q := n / b;
    assert n == q * b + n % b;
    assert q + 1 <= p ==> (q + 1) * b <= p * b by { if q + 1 <= p { MulMono(q + 1, p, b, b); } }
    assert p <= q ==> p * b <= q * b by { if p <= q { MulMono(p, q, b, b); } }
    assert (q + 1) * b == q * b + b;
  }

  /** How many digits a number has: exactly the least `k` with `n < b^k`. */
  lemma {:induction false} DigitCount(n: nat, b: nat, k: nat)
    requires 2 <= b <= 16
    ensures |Digits(n, b)| <= k <==> n < Pow(b, k)
  {
    if n == 0 {
      PowStep(b, k);
    } else if k > 0 {
      DivShrinks(n, b);
      DigitCount(n / b, b, k - 1);
      QuotientBelow(n, b, Pow(b, k - 1));
    } else {
      assert |Digits(n, b)| >= 1;
    }
  }

  lemma {:induction false} PowMono(b: nat, c: nat, k: nat)
    requires b <= c
    ensures Pow(b, k) <= Pow(c, k)
  {
    if k > 0 {
      PowMono(b, c, k - 1);
      MulMono(b, c, Pow(b, k - 1), Pow(c, k - 1));
    }
  }

  lemma {:induction false} PowAdd(b: nat, j: nat, k: nat)
    ensures Pow(b, j + k) == Pow(b, j) * Pow(b, k)
  {
    if j > 0 {
      PowAdd(b, j - 1, k);
      MulAssociates(b, Pow(b, j - 1), Pow(b, k));
    }
  }

  /** A prefix of a decimal text is no larger than the whole. */
  lemma {:induction false} ValueGrows(s: seq<byte>, k: nat)
    requires k <= |s|
    ensures Value(s[..k], 10) <= Value(s, 10)
    decreases |s|
  {
    if k < |s| {
      ValueGrows(s[..|s| - 1], k);
      assert s[..|s| - 1][..k] == s[..k];
    } else {
      assert s[..k] == s;
    }
  }

  lemma ValueNext(run: seq<byte>, k: nat)
    requires k < |run|
    ensures Value(run[..k + 1], 10) == Value(run[..k], 10) * 10 + DigitVal(run[k])
  {
    assert run[..k + 1] == run[..k] + [run[k]];
    ValueSnoc(run[..k], run[k], 10);
  }

  /** One step of a digit loop that accumulates a decimal number. */
  lemma DigitStep(run: seq<byte>, k: nat)
    requires k < |run| && IsDigit(run[k])
    ensures Value(run[..k + 1], 10) == Value(run[..k], 10) * 10 + (run[k] - ZERO) <= Value(run, 10)
  {
    ValueGrows(run, k + 1);
    ValueNext(run, k);
  }

  /** Zeros in front do not change what a text denotes. */
  lemma {:induction false} ZerosKeepValue(k: nat, s: seq<byte>, b: nat)
    ensures Value(Rep(ZERO, k) + s, b) == Value(s, b)
    decreases |s|, k
  {
    var t := Rep(ZERO, k) + s;
    if s != [] {
      ZerosKeepValue(k, s[..|s| - 1], b);
      assert t[..|t| - 1] == Rep(ZERO, k) + s[..|s| - 1];
    } else if k > 0 {
      ZerosKeepValue(k - 1, [], b);
      assert t[..|t| - 1] == Rep(ZERO, k - 1) + [];
    }
  }

  /** Letter case does not change what a hexadecimal text denotes. */
  lemma {:induction false} UpperKeepsValue(s: seq<byte>)
    requires forall i :: 0 <= i < |s| ==> DigitVal(s[i]) < 16
    ensures Value(Upper(s), 16) == Value(s, 16)
  {
    if s != [] {
      UpperKeepsValue(s[..|s| - 1]);
      assert Upper(s)[..|s| - 1] == Upper(s[..|s| - 1]);
    }
  }

  // The powers that bound the 64-bit range.

  lemma Pow6()
    ensures Pow(6, 24) == 4738381338321616896 && Pow(6, 25) == 6 * 4738381338321616896
  {
    PowAdd(6, 8, 8);
    PowAdd(6, 16, 8);
    PowStep(6, 24);
  }

  lemma Pow7()
    ensures Pow(7, 23) == 27368747340080916343
  {
    PowAdd(7, 8, 8);
    PowAdd(7, 16, 7);
  }

  lemma Pow10()
    ensures Pow(10, 19) == 10000000000000000000 && Pow(10, 20) == 100000000000000000000
  {
    PowAdd(10, 8, 8);
    PowAdd(10, 16, 3);
    PowStep(10, 19);
  }

  lemma Pow16()
    ensures Pow(16, 8) == 0x1_0000_0000 && Pow(16, 16) == TWO64
  {
    PowAdd(16, 8, 8);
  }
}

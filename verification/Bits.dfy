/** Bitwise operators on 64-bit words, defined on binary digits, and the alignment macros of types.h. */
module Bits {
  import opened CTypes
  import opened Numerals

  function BitAnd(a: nat, b: nat): nat {
    if a == 0 || b == 0 then 0 else 2 * BitAnd(a / 2, b / 2) + if a % 2 == 1 && b % 2 == 1 then 1 else 0
  }

  function Shr(a: nat, k: nat): nat { if k == 0 then a else Shr(a / 2, k - 1) }

  function Not64(a: u64): u64 { TWO64 - 1 - a }

  function AlignUp(addr: u64, align: u64): nat
    requires align > 0
  {
    BitAnd((addr + align - 1) % TWO64, Not64(align - 1))
  }

  function AlignDown(addr: u64, align: u64): nat
    requires align > 0
  {
    BitAnd(addr, Not64(align - 1))
  }

  ghost predicate IsPowerOfTwo(x: nat) { exists k: nat :: x == Pow(2, k) }

  lemma {:induction false} MaskIsMod(a: nat, k: nat)
    ensures BitAnd(a, Pow(2, k) - 1) == a % Pow(2, k)
    decreases k
  {
    if k > 0 {
      var m := Pow(2, k - 1);
      MaskIsMod(a / 2, k - 1);
      assert (Pow(2, k) - 1) / 2 == m - 1;
      ModDouble(a, m);
    }
  }

  lemma ModDouble(a: nat, m: nat)
    requires m >= 1
    ensures a % (2 * m) == 2 * (a / 2 % m) + a % 2
    ensures a / (2 * m) == a / 2 / m
  {
    var q, r := a / 2 / m, a / 2 % m;
    assert a / 2 == q * m + r;
    assert a == q * (2 * m) + (2 * r + a % 2);
    QuotientIs(q, 2 * m, 2 * r + a % 2);
  }

  lemma {:induction false} ShiftIsDiv(a: nat, k: nat)
    ensures Shr(a, k) == a / Pow(2, k)
  {
    if k > 0 {
      ShiftIsDiv(a / 2, k - 1);
      ModDouble(a, Pow(2, k - 1));
    }
  }

  lemma {:induction false} ShiftAdd(a: nat, j: nat, k: nat)
    ensures Shr(Shr(a, j), k) == Shr(a, j + k)
    decreases j
  {
    if j > 0 {
      ShiftAdd(a / 2, j - 1, k);
    }
  }

  /** The two operators of the hexadecimal printers take a number's lowest digit and drop it. */
  lemma Nibble(a: nat)
    ensures BitAnd(a, 0xF) == a % 16 && Shr(a, 4) == a / 16
  {
    assert Pow(2, 4) == 16;
    MaskIsMod(a, 4);
    ShiftIsDiv(a, 4);
  }

  lemma {:induction false} PowMonotone(j: nat, k: nat)
    requires j <= k
    ensures Pow(2, j) <= Pow(2, k)
    ensures j < k ==> 2 * Pow(2, j) <= Pow(2, k)
  {
    if j < k { PowMonotone(j, k - 1); }
  }

  lemma AndEven(a: nat, high: nat, low: nat)
    requires low <= high
    ensures BitAnd(a, 2 * high - 2 * low) == 2 * BitAnd(a / 2, high - low)
  {
    var mask := 2 * high - 2 * low;
    assert mask / 2 == high - low && mask % 2 == 0;
  }

  lemma DoubleProduct(q: nat, m: nat)
    ensures 2 * (q * m) == q * (2 * m)
  {
  }

  lemma LowMask(a: nat, w: nat)
    requires a < Pow(2, w)
    ensures BitAnd(a, Pow(2, w) - 1) == a
  {
    MaskIsMod(a, w);
    QuotientIs(0, Pow(2, w), a);
  }

  /** The mask with the low `k` of `w` bits clear keeps a number's quotient by `2^k` and drops the rest. */
  lemma {:induction false} HighMask(a: nat, w: nat, k: nat) returns (q: nat)
    requires k <= w && a < Pow(2, w)
    ensures Pow(2, k) <= Pow(2, w)
    ensures q == a / Pow(2, k) && BitAnd(a, Pow(2, w) - Pow(2, k)) == q * Pow(2, k)
    decreases k
  {
    PowMonotone(k, w);
    if k == 0 {
      LowMask(a, w);
      q := a;
    } else {
      q := HighMask(a / 2, w - 1, k - 1);
      ModDouble(a, Pow(2, k - 1));
      AndEven(a, Pow(2, w - 1), Pow(2, k - 1));
      DoubleProduct(q, Pow(2, k - 1));
    }
  }

  lemma {:induction false} AndSelf(a: nat)
    ensures BitAnd(a, a) == a
  {
    if a > 0 { AndSelf(a / 2); }
  }

  lemma {:induction false} TestAccepts(k: nat)
    ensures BitAnd(Pow(2, k), Pow(2, k) - 1) == 0
  {
    if k > 0 {
      TestAccepts(k - 1);
      assert (Pow(2, k) - 1) / 2 == Pow(2, k - 1) - 1;
    }
  }

  lemma {:induction false} TestRejects(x: nat) returns (k: nat)
    requires x > 0 && BitAnd(x, x - 1) == 0
    ensures x == Pow(2, k)
  {
    if x == 1 {
      k := 0;
    } else {
      assert x / 2 > 0;
      AndSelf(x / 2);
      assert x % 2 == 0;
      assert (x - 1) / 2 == x / 2 - 1;
      k := TestRejects(x / 2);
      k := k + 1;
    }
  }

  /** `x & (x - 1)` tells the powers of two from all other non-zero words. */
  lemma PowerOfTwoTest(x: nat)
    requires x > 0
    ensures BitAnd(x, x - 1) == 0 <==> IsPowerOfTwo(x)
  {
    if BitAnd(x, x - 1) == 0 {
      var k := TestRejects(x);
    }
    if IsPowerOfTwo(x) {
      var k: nat :| x == Pow(2, k);
      TestAccepts(k);
    }
  }

  lemma Word64()
    ensures Pow(2, 64) == TWO64
  {
    assert Pow(2, 8) == 0x100;
    PowAdd(2, 8, 8);
    PowAdd(2, 16, 16);
    PowAdd(2, 32, 32);
  }

  lemma MaskRounds(a: u64, m: u64)
    requires IsPowerOfTwo(m)
    ensures var r := BitAnd(a, Not64(m - 1)); r == a / m * m && r % m == 0 && r <= a < r + m
  {
    var k: nat :| m == Pow(2, k);
    Word64();
    if k > 64 { PowMonotone(64, k); }
    var q := HighMask(a, 64, k);
    DivMod(a, m);
    QuotientIs(a / m, m, 0);
  }

  lemma DivMod(a: nat, m: nat)
    requires m > 0
    ensures a / m * m <= a < a / m * m + m
  {
  }

  lemma AlignUpRounds(a: u64, m: u64)
    requires IsPowerOfTwo(m)
    ensures AlignUp(a, m) == (a + m - 1) % TWO64 / m * m
  {
    MaskRounds((a + m - 1) % TWO64, m);
  }

  /** Multiples of `m` are ordered as their quotients. */
  lemma MultiplesApart(q: nat, t: nat, m: nat)
    requires m > 0 && t % m == 0
    ensures t < q * m + m ==> t <= q * m
    ensures t > q * m - m ==> t >= q * m
  {
    var p := t / m;
    assert t == p * m;
    assert (q + 1) * m == q * m + m && (q - 1) * m == q * m - m;
    if p >= q + 1 { MulMono(q + 1, p, m, m); }
    if p + 1 <= q { MulMono(p, q - 1, m, m); }
  }

  lemma LeastAbove(a: nat, m: nat, r: nat)
    requires m > 0 && r == (a + m - 1) / m * m
    ensures r % m == 0 && a <= r < a + m
    ensures forall t: nat :: t % m == 0 && t >= a ==> t >= r
  {
    var q := (a + m - 1) / m;
    DivMod(a + m - 1, m);
    QuotientIs(q, m, 0);
    forall t: nat | t % m == 0 && t >= a ensures t >= r { MultiplesApart(q, t, m); }
  }

  lemma GreatestBelow(a: nat, m: nat, r: nat)
    requires m > 0 && r == a / m * m
    ensures r % m == 0 && r <= a < r + m
    ensures forall t: nat :: t % m == 0 && t <= a ==> t <= r
  {
    DivMod(a, m);
    QuotientIs(a / m, m, 0);
    forall t: nat | t % m == 0 && t <= a ensures t <= r { MultiplesApart(a / m, t, m); }
  }

  /** ALIGN_UP by masks is the least multiple of the alignment that is not below the address. */
  lemma AlignUpIsLeast(a: u64, m: u64)
    requires IsPowerOfTwo(m) && a + m - 1 < TWO64
    ensures var r := AlignUp(a, m); r % m == 0 && a <= r < a + m
    ensures forall t: nat :: t % m == 0 && t >= a ==> t >= AlignUp(a, m)
  {
    AlignUpRounds(a, m);
    Unwrapped(a + m - 1);
    LeastAbove(a, m, AlignUp(a, m));
  }

  lemma Unwrapped(s: nat)
    requires s < TWO64
    ensures s % TWO64 == s
  {
  }

  /** ALIGN_DOWN by masks is the greatest multiple of the alignment that is not above the address. */
  lemma AlignDownIsGreatest(a: u64, m: u64)
    requires IsPowerOfTwo(m)
    ensures var r := AlignDown(a, m); r % m == 0 && r <= a < r + m
    ensures forall t: nat :: t % m == 0 && t <= a ==> t <= AlignDown(a, m)
  {
    MaskRounds(a, m);
    GreatestBelow(a, m, AlignDown(a, m));
  }
}

/** The digit loops of the number printers, which write a number backwards, and the loops that reverse it in place. */
module Reversal {
  import opened CTypes
  import opened Numerals

  /** `*p++ = c`: the text grows by one byte at its end, and read backwards at its front. */
  method Push(buf: array<byte>, p: nat, c: byte) returns (p': nat)
    requires p < buf.Length
    modifies buf
    ensures p' == p + 1 && buf[..p'] == old(buf[..p]) + [c]
    ensures Rev(buf[..p']) == [c] + Rev(old(buf[..p]))
    ensures forall i :: p' <= i < buf.Length ==> buf[i] == old(buf[i])
  {
    buf[p] := c;
    p' := p + 1;
  }

  /** The digit loop of `print_int`, `print_unsigned` and `generic_uart_print_dec`: nothing for zero. */
  method PutDigits(buf: array<byte>, n: nat, base: nat) returns (p: nat)
    requires 2 <= base <= 16 && |Digits(n, base)| <= buf.Length
    modifies buf
    ensures p == |Digits(n, base)| && Rev(buf[..p]) == Digits(n, base)
  {
    ghost var q := Quotients(n, base);
    var m := n;
    p := 0;
    while m != 0
      invariant p < |q| && m == q[p]
      invariant forall i :: 0 <= i < p ==> buf[i] == DigitChar(q[i] % base)
      decreases |q| - p
    {
      assert Shrinks(q, p, base);
      buf[p] := DigitChar(m % base);
      p := p + 1;
      m := m / base;
    }
    assert p < |q| - 1 ==> Shrinks(q, p, base);
    Backwards(n, base, q, buf[..p]);
  }

  /** The do-while digit loop of `itoa_decimal` and `dw_uart_print_dec`, which writes a zero too. */
  method DoDigits(str: array<byte>, start: nat, value: nat) returns (p: nat)
    requires start + |Numeral(value, 10)| <= str.Length
    modifies str
    ensures p == start + |Numeral(value, 10)|
    ensures Rev(str[start..p]) == Numeral(value, 10)
    ensures forall i :: 0 <= i < start || p <= i < str.Length ==> str[i] == old(str[i])
  {
    ghost var q := DoQuotients(value);
    var v, more := value, true;
    p := start;
    while more
      invariant start <= p < start + |q| && v == q[p - start] && more == (v > 0 || p == start)
      invariant forall i :: start <= i < p ==> str[i] == ZERO + q[i - start] % 10
      invariant forall i :: 0 <= i < start || p <= i < str.Length ==> str[i] == old(str[i])
      decreases start + |q| - p
    {
      assert Shrinks(q, p - start, 10);
      str[p] := ZERO + v % 10;
      p := p + 1;
      v := v / 10;
      more := v > 0;
    }
    assert p - start < |q| - 1 ==> Shrinks(q, p - start, 10);
    DoBackwards(value, q, str[start..p]);
  }

  /** The values a digit loop goes through, from the number down to the zero that ends it. */
  ghost predicate Descends(q: seq<nat>, n: nat, base: nat)
    requires base > 0
  {
    && q != [] && q[0] == n && q[|q| - 1] == 0
    && forall i :: 0 <= i < |q| - 1 ==> Shrinks(q, i, base)
  }

  ghost predicate Shrinks(q: seq<nat>, i: nat, base: nat)
    requires base > 0 && i + 1 < |q|
  {
    q[i + 1] == q[i] / base && (i > 0 ==> q[i] > 0)
  }

  lemma {:induction false} Quotients(n: nat, base: nat) returns (q: seq<nat>)
    requires 2 <= base <= 16
    ensures Descends(q, n, base) && |q| == |Digits(n, base)| + 1
  {
    if n == 0 {
      q := [0];
    } else {
      DivShrinks(n, base);
      var rest := Quotients(n / base, base);
      q := [n] + rest;
      forall i | 0 <= i < |q| - 1 ensures Shrinks(q, i, base) {
        assert i > 0 ==> Shrinks(rest, i - 1, base);
        assert i > 1 ==> q[i] == rest[i - 1] > 0;
        assert i == 1 ==> n / base > 0;
      }
    }
  }

  /** Their last digits are the digits of the number, backwards. */
  lemma {:induction false} Backwards(n: nat, base: nat, q: seq<nat>, s: seq<byte>)
    requires 2 <= base <= 16 && Descends(q, n, base) && |s| == |q| - 1 && (n == 0 ==> |q| == 1)
    requires forall i :: 0 <= i < |s| ==> s[i] == DigitChar(q[i] % base)
    ensures Rev(s) == Digits(n, base)
  {
    if n > 0 {
      DivShrinks(n, base);
      var rest := q[1..];
      assert Shrinks(q, 0, base);
      assert |q| > 2 ==> Shrinks(q, 1, base);
      assert forall i :: 0 <= i < |rest| - 1 ==> Shrinks(q, i + 1, base) ==> Shrinks(rest, i, base);
      Backwards(n / base, base, rest, s[1..]);
      assert Rev(s) == Rev(s[1..]) + [s[0]];
    }
  }

  /** The do-while loop goes through zero once when it starts there. */
  lemma DoQuotients(n: nat) returns (q: seq<nat>)
    ensures Descends(q, n, 10) && |q| == |Numeral(n, 10)| + 1
  {
    q := Quotients(n, 10);
    if n == 0 {
      q := [0, 0];
      assert Shrinks(q, 0, 10);
    }
  }

  lemma DoBackwards(n: nat, q: seq<nat>, s: seq<byte>)
    requires Descends(q, n, 10) && |q| == |Numeral(n, 10)| + 1 == |s| + 1
    requires forall i :: 0 <= i < |s| ==> s[i] == ZERO + q[i] % 10
    ensures Rev(s) == Numeral(n, 10)
  {
    if n > 0 {
      Backwards(n, 10, q, s);
    } else {
      assert s == [ZERO];
    }
  }

  /** The counting loop of logger.c: swaps `buf[i]` with `p[-1 - i]`, where `p` is `buf + n`. */
  method SwapHalves(buf: array<byte>, n: nat)
    requires n <= buf.Length
    modifies buf
    ensures buf[..] == Rev(old(buf[..n])) + old(buf[n..])
  {
    var i := 0;
    while i < n / 2
      invariant 0 <= i <= n / 2
      invariant forall k :: 0 <= k < i ==> buf[k] == old(buf[n - 1 - k]) && buf[n - 1 - k] == old(buf[k])
      invariant forall k :: i <= k < n - i || n <= k < buf.Length ==> buf[k] == old(buf[k])
    {
      var tmp := buf[i];
      buf[i] := buf[n - 1 - i];
      buf[n - 1 - i] := tmp;
      i := i + 1;
    }
  }

  /** The pointer loop of string.c and dw_uart.c: `start` and `end` walk towards each other. */
  method SwapInward(buf: array<byte>, lo: nat, hi: nat)
    requires lo < hi <= buf.Length
    modifies buf
    ensures buf[..] == old(buf[..lo]) + Rev(old(buf[lo..hi])) + old(buf[hi..])
  {
    var start, end := lo, hi - 1;
    while start < end
      invariant lo <= start <= end + 1 <= hi
      invariant start + end == lo + hi - 1
      invariant forall k :: lo <= k < start ==>
        buf[k] == old(buf[lo + hi - 1 - k]) && buf[lo + hi - 1 - k] == old(buf[k])
      invariant forall k :: 0 <= k < lo || start <= k <= end || hi <= k < buf.Length ==> buf[k] == old(buf[k])
    {
      var temp := buf[start];
      buf[start] := buf[end];
      buf[end] := temp;
      start := start + 1;
      end := end - 1;
    }
    Joined(buf[..], old(buf[..]), lo, hi);
  }

  lemma Joined(s: seq<byte>, was: seq<byte>, lo: nat, hi: nat)
    requires lo <= hi <= |s| == |was|
    requires forall k :: lo <= k < hi ==> s[k] == was[lo + hi - 1 - k]
    requires forall k :: 0 <= k < lo || hi <= k < |s| ==> s[k] == was[k]
    ensures s == was[..lo] + Rev(was[lo..hi]) + was[hi..]
  {
  }
}

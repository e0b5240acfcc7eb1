/** Comparison and search in src/lib/string.c. */
module Strings {
  import opened CTypes

  /** The lexicographic order on unsigned bytes: negative, zero or positive. */
  function Order(a: seq<byte>, b: seq<byte>): int {
    if a == [] || b == [] then (if a == [] then 0 else 1) - (if b == [] then 0 else 1)
    else if a[0] != b[0] then if a[0] < b[0] then -1 else 1
    else Order(a[1..], b[1..])
  }

  function Sign(x: int): int { if x < 0 then -1 else if x > 0 then 1 else 0 }

  /** How far two texts agree. */
  function Common(a: seq<byte>, b: seq<byte>): (k: nat)
    ensures k <= |a| && k <= |b| && a[..k] == b[..k]
    ensures k < |a| && k < |b| ==> a[k] != b[k]
  {
    if a == [] || b == [] || a[0] != b[0] then 0
    else
      var k := 1 + Common(a[1..], b[1..]);
      assert a[..k] == [a[0]] + a[1..][..k - 1] && b[..k] == [b[0]] + b[1..][..k - 1];
      k
  }

  lemma {:induction false} CommonIs(a: seq<byte>, b: seq<byte>, k: nat)
    requires k <= |a| && k <= |b| && a[..k] == b[..k]
    requires k == |a| || k == |b| || a[k] != b[k]
    ensures Common(a, b) == k
  {
    if k > 0 {
      assert a[..k][0] == b[..k][0];
      assert a[1..][..k - 1] == a[..k][1..] && b[1..][..k - 1] == b[..k][1..];
      CommonIs(a[1..], b[1..], k - 1);
    }
  }

  function Diff(x: byte, y: byte): int {
    var i: int := x;
    i - y
  }

  /** The result of `strcmp`: the difference of the first bytes that differ, terminators included. */
  function StrcmpValue(s: CString, t: CString): int {
    var k := Common(Body(s), Body(t));
    Diff(s[k], t[k])
  }

  function StrncmpValue(s: CString, t: CString, n: nat): int {
    var k := Common(Body(s), Body(t));
    if k >= n then 0 else Diff(s[k], t[k])
  }

  function MemcmpValue(p: seq<byte>, q: seq<byte>, n: nat): int
    requires n <= |p| && n <= |q|
  {
    var k := Common(p[..n], q[..n]);
    if k == n then 0 else Diff(p[k], q[k])
  }

  method Strlen(str: CString) returns (len: nat)
    ensures len == |Body(str)|
    ensures str[len] == 0 && forall i :: 0 <= i < len ==> str[i] != 0
  {
    len := 0;
    while str[len] != NUL
      invariant 0 <= len < |str|
      decreases |str| - len
    {
      len := len + 1;
    }
  }

  method Strcmp(s1: CString, s2: CString) returns (r: int)
    ensures r == StrcmpValue(s1, s2)
  {
    var k := 0;
    while s1[k] != NUL && s1[k] == s2[k]
      invariant 0 <= k < |s1| && k < |s2| && s1[..k] == s2[..k]
      decreases |s1| - k
    {
      k := k + 1;
    }
    CommonOfStrings(s1, s2, k);
    r := Diff(s1[k], s2[k]);
  }

  lemma CommonOfStrings(s: CString, t: CString, k: nat)
    requires k < |s| && k < |t| && s[..k] == t[..k]
    requires s[k] == NUL || s[k] != t[k]
    ensures Diff(s[k], t[k]) == StrcmpValue(s, t)
    ensures k == Common(Body(s), Body(t)) || (s[k] == t[k] == NUL && k == |Body(s)| == |Body(t)|)
  {
    assert Body(s)[..k] == s[..k] && Body(t)[..k] == t[..k];
    if s[k] == NUL && t[k] == NUL {
      assert Body(s) == Body(t);
    }
    CommonIs(Body(s), Body(t), k);
  }

  method Strncmp(s1: CString, s2: CString, n: nat) returns (r: int)
    ensures r == StrncmpValue(s1, s2, n)
  {
    var i := 0;
    while i < n
      invariant 0 <= i <= n
      invariant i <= Common(Body(s1), Body(s2))
      invariant i < |s1| && i < |s2| && s1[..i] == s2[..i]
    {
      if s1[i] != s2[i] || s1[i] == NUL {
        CommonOfStrings(s1, s2, i);
        return Diff(s1[i], s2[i]);
      }
      assert i < |Body(s1)| && i < |Body(s2)| && Body(s1)[i] == Body(s2)[i];
      i := i + 1;
    }
    return 0;
  }

  method Memcmp(p1: seq<byte>, p2: seq<byte>, n: nat) returns (r: int)
    requires n <= |p1| && n <= |p2|
    ensures r == MemcmpValue(p1, p2, n)
  {
    var k := 0;
    while k < n
      invariant 0 <= k <= n && p1[..k] == p2[..k]
    {
      if p1[k] != p2[k] {
        assert p1[..n][..k] == p1[..k] && p2[..n][..k] == p2[..k];
        CommonIs(p1[..n], p2[..n], k);
        return Diff(p1[k], p2[k]);
      }
      k := k + 1;
    }
    CommonIs(p1[..n], p2[..n], n);
    return 0;
  }

  // ------------------------------------------------------------------ the order

  lemma {:induction false} OrderAtCommon(a: seq<byte>, b: seq<byte>)
    ensures var k := Common(a, b);
      Order(a, b) == if k < |a| && k < |b| then Sign(Diff(a[k], b[k])) else Sign(|a| - |b|)
  {
    if a != [] && b != [] && a[0] == b[0] {
      OrderAtCommon(a[1..], b[1..]);
    }
  }

  /** The order by its first difference, and for a text that another begins with. */
  lemma OrderMeans(a: seq<byte>, b: seq<byte>, k: nat)
    requires k <= |a| && k <= |b| && a[..k] == b[..k]
    ensures k < |a| && k < |b| && a[k] < b[k] ==> Order(a, b) < 0 && Order(b, a) > 0
    ensures k == |a| < |b| ==> Order(a, b) < 0 && Order(b, a) > 0
    ensures k == |a| == |b| ==> Order(a, b) == 0
  {
    if (k < |a| && k < |b| && a[k] < b[k]) || k == |a| {
      CommonIs(a, b, k);
      CommonIs(b, a, k);
      OrderAtCommon(a, b);
      OrderAtCommon(b, a);
    }
  }

  /** The comparisons at their first difference, which may be at a terminator: the difference of the two bytes. */
  lemma FirstDifference(s: CString, t: CString, k: nat, n: nat)
    requires k < |s| && k < |t| && s[..k] == t[..k] && s[k] != t[k]
    ensures StrcmpValue(s, t) == Diff(s[k], t[k]) == s[k] as int - t[k] as int
    ensures StrncmpValue(s, t, n) == if k < n then s[k] as int - t[k] as int else 0
  {
    assert Body(s)[..k] == s[..k] && Body(t)[..k] == t[..k];
    CommonIs(Body(s), Body(t), k);
  }

  lemma FirstByteDifference(p: seq<byte>, q: seq<byte>, k: nat, n: nat)
    requires k < n <= |p| && n <= |q| && p[..k] == q[..k] && p[k] != q[k]
    ensures MemcmpValue(p, q, n) == p[k] as int - q[k] as int
  {
    assert p[..n][..k] == p[..k] && q[..n][..k] == q[..k];
    CommonIs(p[..n], q[..n], k);
  }

  /** `memcmp` orders the first `n` bytes, whatever they are. */
  lemma MemcmpOrders(p: seq<byte>, q: seq<byte>, n: nat)
    requires n <= |p| && n <= |q|
    ensures Sign(MemcmpValue(p, q, n)) == Order(p[..n], q[..n])
    ensures MemcmpValue(p, q, n) == 0 <==> p[..n] == q[..n]
  {
    OrderAtCommon(p[..n], q[..n]);
    OrderAntisymmetric(p[..n], q[..n]);
  }

  /** `strcmp` orders C strings as texts of unsigned bytes. */
  lemma StrcmpOrders(s: CString, t: CString)
    ensures Sign(StrcmpValue(s, t)) == Order(Body(s), Body(t))
  {
    var a, b := Body(s), Body(t);
    var k := Common(a, b);
    OrderAtCommon(a, b);
    assert k < |a| ==> s[k] == a[k] && a[k] in a;
    assert k < |b| ==> t[k] == b[k] && b[k] in b;
  }

  lemma {:induction false} OrderAntisymmetric(a: seq<byte>, b: seq<byte>)
    ensures Order(a, b) == -Order(b, a)
    ensures Order(a, b) == 0 <==> a == b
  {
    if a != [] && b != [] && a[0] == b[0] {
      OrderAntisymmetric(a[1..], b[1..]);
      assert a == [a[0]] + a[1..] && b == [b[0]] + b[1..];
    }
  }

  lemma {:induction false} OrderTransitive(a: seq<byte>, b: seq<byte>, c: seq<byte>)
    requires Order(a, b) <= 0 && Order(b, c) <= 0
    ensures Order(a, c) <= 0
    ensures Order(a, b) < 0 || Order(b, c) < 0 ==> Order(a, c) < 0
  {
    if a != [] && b != [] && c != [] && a[0] == b[0] == c[0] {
      OrderTransitive(a[1..], b[1..], c[1..]);
    }
  }

  /** `strcmp` is a total order on strings. */
  lemma StrcmpTotalOrder(s: CString, t: CString, u: CString)
    ensures Sign(StrcmpValue(s, t)) == -Sign(StrcmpValue(t, s))
    ensures StrcmpValue(s, t) == 0 <==> s == t
    ensures StrcmpValue(s, t) <= 0 && StrcmpValue(t, u) <= 0 ==> StrcmpValue(s, u) <= 0
    ensures StrcmpValue(s, t) < 0 && StrcmpValue(t, u) <= 0 ==> StrcmpValue(s, u) < 0
  {
    StrcmpOrders(s, t);
    StrcmpOrders(t, s);
    StrcmpOrders(t, u);
    StrcmpOrders(s, u);
    OrderAntisymmetric(Body(s), Body(t));
    assert s == Body(s) + [NUL] && t == Body(t) + [NUL];
    if Order(Body(s), Body(t)) <= 0 && Order(Body(t), Body(u)) <= 0 {
      OrderTransitive(Body(s), Body(t), Body(u));
    }
  }

  /** `strncmp` compares the first `n` bytes; it gives what `strcmp` gives exactly when the strings are equal or
      differ within them, and so whenever `n` exceeds the shorter length. */
  lemma StrncmpAgrees(s: CString, t: CString, n: nat)
    ensures StrncmpValue(s, t, n) == StrcmpValue(s, t) <==> s == t || Common(Body(s), Body(t)) < n
    ensures n > Min(|Body(s)|, |Body(t)|) ==> StrncmpValue(s, t, n) == StrcmpValue(s, t)
  {
    StrcmpTotalOrder(s, t, t);
  }

  lemma StrncmpOrders(s: CString, t: CString, n: nat)
    ensures Sign(StrncmpValue(s, t, n)) == Order(Body(s)[..Min(n, |Body(s)|)], Body(t)[..Min(n, |Body(t)|)])
  {
    var a, b := Body(s), Body(t);
    var c, d := a[..Min(n, |a|)], b[..Min(n, |b|)];
    var k := Common(a, b);
    StrcmpOrders(s, t);
    OrderAtCommon(a, b);
    OrderAtCommon(c, d);
    assert a[..k] == b[..k];
    if k >= n {
      assert c == a[..k][..n] && d == b[..k][..n];
      OrderAntisymmetric(c, d);
    } else {
      assert c[..k] == a[..k] && d[..k] == b[..k];
      CommonIs(c, d, k);
    }
  }

  /** `memcmp` over the shorter string and its terminator gives what `strcmp` gives. */
  lemma MemcmpAgrees(s: CString, t: CString)
    ensures MemcmpValue(s, t, Min(|s|, |t|)) == StrcmpValue(s, t)
  {
    var n, k := Min(|s|, |t|), Common(Body(s), Body(t));
    assert s[..n][..k] == Body(s)[..k] && t[..n][..k] == Body(t)[..k];
    if s[k] != t[k] {
      CommonIs(s[..n], t[..n], k);
    } else {
      StrcmpTotalOrder(s, t, t);
      CommonIs(s[..n], t[..n], n);
    }
  }

  // ------------------------------------------------------------------ substring search

  predicate OccursAt(text: seq<byte>, pattern: seq<byte>, i: nat) {
    i + |pattern| <= |text| && text[i..i + |pattern|] == pattern
  }

  lemma Suffix(s: CString, i: nat)
    requires i < |s|
    ensures s[i..][|s| - i - 1] == NUL && NUL !in s[i..][..|s| - i - 1]
    ensures s[i..][..|s| - i - 1] == Body(s)[i..]
  {
  }

  lemma OccursIsCommon(text: seq<byte>, pattern: seq<byte>, i: nat)
    requires i <= |text|
    ensures OccursAt(text, pattern, i) <==> Common(text[i..], pattern) == |pattern|
  {
    var a := text[i..];
    if OccursAt(text, pattern, i) {
      assert a[..|pattern|] == pattern == pattern[..|pattern|];
      CommonIs(a, pattern, |pattern|);
    }
    if Common(a, pattern) == |pattern| {
      assert text[i..i + |pattern|] == a[..|pattern|] && pattern[..|pattern|] == pattern;
    }
  }

  lemma PrefixCompared(s: CString, needle: CString)
    ensures StrncmpValue(s, needle, |Body(needle)|) == 0 <==> Common(Body(s), Body(needle)) == |Body(needle)|
  {
    var k := Common(Body(s), Body(needle));
    if k < |Body(needle)| {
      assert Body(needle)[k] in Body(needle) && needle[k] == Body(needle)[k];
      assert k < |Body(s)| ==> s[k] == Body(s)[k];
    }
  }

  lemma ComparedWhole(text: seq<byte>, needle: CString, i: nat)
    requires i <= |text| && NUL !in text
    ensures NUL !in text[i..]
    ensures StrncmpValue(Terminated(text[i..]), needle, |Body(needle)|) == 0 <==> OccursAt(text, Body(needle), i)
  {
    OccursIsCommon(text, Body(needle), i);
    PrefixCompared(Terminated(text[i..]), needle);
  }

  /** `strstr`: the least index at which the needle occurs, or none when there is no such index. */
  method Strstr(haystack: CString, needle: CString) returns (r: int)
    ensures 0 <= r ==> OccursAt(Body(haystack), Body(needle), r)
    ensures forall j: nat :: j < r ==> !OccursAt(Body(haystack), Body(needle), j)
    ensures r < 0 ==> r == -1 && forall j: nat :: !OccursAt(Body(haystack), Body(needle), j)
    ensures 0 <= r ==> r + |needle| <= |haystack| && forall k :: 0 <= k < |needle| - 1 ==> haystack[r + k] == needle[k]
  {
    var needleLen := Strlen(needle);
    if needleLen == 0 {
      return 0;
    }
    var at := 0;
    while haystack[at] != NUL
      invariant 0 <= at < |haystack|
      invariant forall j: nat :: j < at ==> !OccursAt(Body(haystack), Body(needle), j)
      decreases |haystack| - at
    {
      Suffix(haystack, at);
      ComparedWhole(Body(haystack), needle, at);
      assert haystack[at..] == Terminated(Body(haystack)[at..]);
      var c := Strncmp(haystack[at..], needle, needleLen);
      if c == 0 {
        return at;
      }
      at := at + 1;
    }
    return -1;
  }
}

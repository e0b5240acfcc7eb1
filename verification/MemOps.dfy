/** The copying loops of src/lib/string.c, on offsets into one memory so that the regions may overlap. */
module MemOps {
  import opened CTypes
  import opened Numerals

  /** A memory with the `n` bytes at `dst` replaced. */
  function Stored(mem: seq<byte>, dst: nat, bytes: seq<byte>): seq<byte>
    requires dst + |bytes| <= |mem|
  {
    mem[..dst] + bytes + mem[dst + |bytes|..]
  }

  /** `memmove`: the destination gets what the source held, however the two overlap, and nothing else changes. */
  method Memmove(mem: array<byte>, dst: nat, src: nat, n: nat)
    requires dst + n <= mem.Length && src + n <= mem.Length
    modifies mem
    ensures mem[..] == Stored(old(mem[..]), dst, old(mem[src..src + n]))
    ensures forall k :: dst <= k < dst + n ==> mem[k] == old(mem[src + (k - dst)])
    ensures forall k :: 0 <= k < dst || dst + n <= k < mem.Length ==> mem[k] == old(mem[k])
  {
    ghost var was := mem[..];
    ghost var bytes := was[src..src + n];
    if dst < src {
      forall k | 0 <= k < n ensures CopiedFrom(was, bytes, dst, src, k) {}
      CopyForward(mem, dst, src, n, bytes);
    } else {
      CopyBackward(mem, dst, src, n);
    }
    IsStored(mem[..], was, dst, bytes);
  }

  /** What a forward byte copy leaves at the destination: when it starts inside the source it repeats the bytes
      between the two starts, over and over. */
  function ForwardCopy(mem: seq<byte>, dst: nat, src: nat, n: nat): (bytes: seq<byte>)
    requires dst + n <= |mem| && src + n <= |mem|
    ensures |bytes| == n
  {
    seq(n, k requires 0 <= k < n => mem[src + if src < dst then k % (dst - src) else k])
  }

  lemma Wraps(k: nat, d: nat)
    requires d > 0
    ensures k < d ==> k % d == k
    ensures k >= d ==> (k - d) % d == k % d
    ensures k % d < d && k % d <= k
  {
    if k < d {
      QuotientIs(0, d, k);
    } else {
      var q, r := (k - d) / d, (k - d) % d;
      assert (q + 1) * d == q * d + d;
      QuotientIs(q + 1, d, r);
    }
  }

  /** `memcpy`, for every pair of regions. */
  method Memcpy(mem: array<byte>, dst: nat, src: nat, n: nat)
    requires dst + n <= mem.Length && src + n <= mem.Length
    modifies mem
    ensures mem[..] == Stored(old(mem[..]), dst, ForwardCopy(old(mem[..]), dst, src, n))
    ensures !(src < dst < src + n) ==> forall k :: dst <= k < dst + n ==> mem[k] == old(mem[src + (k - dst)])
    ensures forall k :: 0 <= k < dst || dst + n <= k < mem.Length ==> mem[k] == old(mem[k])
  {
    ghost var was := mem[..];
    ghost var copy := ForwardCopy(was, dst, src, n);
    ForwardBytes(was, dst, src, n);
    forall k | 0 <= k < n ensures CopiedFrom(was, copy, dst, src, k) {}
    CopyForward(mem, dst, src, n, copy);
    IsStored(mem[..], was, dst, copy);
  }

  /** Where the loop finds byte `k` of the copy: in the old source, or in what it has written. */
  predicate CopiedFrom(was: seq<byte>, copy: seq<byte>, dst: nat, src: nat, k: nat)
    requires k < |copy| && src + |copy| <= |was|
  {
    copy[k] == if dst <= src || k < dst - src then was[src + k] else copy[k - (dst - src)]
  }

  /** The second loop of `memmove`. */
  method CopyBackward(mem: array<byte>, dst: nat, src: nat, n: nat)
    requires dst + n <= mem.Length && src + n <= mem.Length && src <= dst
    modifies mem
    ensures forall k :: dst <= k < dst + n ==> mem[k] == old(mem[src + (k - dst)])
    ensures forall k :: 0 <= k < dst || dst + n <= k < mem.Length ==> mem[k] == old(mem[k])
  {
    var d, s, left := dst + n, src + n, n;
    while left > 0
      invariant 0 <= left <= n && d == dst + left && s == src + left
      invariant forall k :: d <= k < dst + n ==> mem[k] == old(mem[src + (k - dst)])
      invariant forall k :: 0 <= k < d || dst + n <= k < mem.Length ==> mem[k] == old(mem[k])
    {
      d, s := d - 1, s - 1;
      mem[d] := mem[s];
      left := left - 1;
    }
  }

  /** The loop of `memcpy`, and the first of `memmove`. */
  method CopyForward(mem: array<byte>, dst: nat, src: nat, n: nat, ghost copy: seq<byte>)
    requires dst + n <= mem.Length && src + n <= mem.Length && |copy| == n
    requires forall k :: 0 <= k < n ==> CopiedFrom(mem[..], copy, dst, src, k)
    modifies mem
    ensures forall k :: dst <= k < dst + n ==> mem[k] == copy[k - dst]
    ensures forall k :: 0 <= k < dst || dst + n <= k < mem.Length ==> mem[k] == old(mem[k])
  {
    var d, s, left := dst, src, n;
    ghost var was := mem[..];
    while left > 0
      invariant 0 <= left <= n && d == dst + (n - left) && s == src + (n - left)
      invariant forall k :: dst <= k < d ==> mem[k] == copy[k - dst]
      invariant forall k :: 0 <= k < dst || d <= k < mem.Length ==> mem[k] == was[k]
    {
      assert CopiedFrom(was, copy, dst, src, n - left);
      mem[d] := mem[s];
      d, s, left := d + 1, s + 1, left - 1;
    }
  }

  lemma IsStored(s: seq<byte>, was: seq<byte>, dst: nat, bytes: seq<byte>)
    requires |s| == |was| && dst + |bytes| <= |was|
    requires forall k :: dst <= k < dst + |bytes| ==> s[k] == bytes[k - dst]
    requires forall k :: 0 <= k < dst || dst + |bytes| <= k < |s| ==> s[k] == was[k]
    ensures s == Stored(was, dst, bytes)
  {
  }

  /** Byte by byte: what a forward copy puts at the destination is the old source up to the point where it runs into
      its own output, and from there on what it has itself put that far back. */
  lemma ForwardBytes(mem: seq<byte>, dst: nat, src: nat, n: nat)
    requires dst + n <= |mem| && src + n <= |mem|
    ensures var copy := ForwardCopy(mem, dst, src, n);
      && (forall k :: 0 <= k < n && (dst <= src || k < dst - src) ==> copy[k] == mem[src + k])
      && (forall k :: 0 <= k < n && src < dst && k >= dst - src ==> copy[k] == copy[k - (dst - src)])
  {
    forall k | 0 <= k < n && (dst <= src || k < dst - src) ensures ForwardCopy(mem, dst, src, n)[k] == mem[src + k] {
      if src < dst { Wraps(k, dst - src); }
    }
    forall k | 0 <= k < n && src < dst && k >= dst - src
      ensures ForwardCopy(mem, dst, src, n)[k] == ForwardCopy(mem, dst, src, n)[k - (dst - src)]
    {
      Repeats(mem, dst, src, n, k);
    }
  }

  lemma Repeats(mem: seq<byte>, dst: nat, src: nat, n: nat, k: nat)
    requires dst + n <= |mem| && src + n <= |mem| && src < dst && dst - src <= k < n
    ensures ForwardCopy(mem, dst, src, n)[k] == ForwardCopy(mem, dst, src, n)[k - (dst - src)]
  {
    Wraps(k, dst - src);
  }

  lemma StoredBytes(mem: seq<byte>, dst: nat, bytes: seq<byte>)
    requires dst + |bytes| <= |mem|
    ensures |Stored(mem, dst, bytes)| == |mem|
    ensures forall k :: 0 <= k < |bytes| ==> Stored(mem, dst, bytes)[dst + k] == bytes[k]
    ensures forall k :: 0 <= k < dst || dst + |bytes| <= k < |mem| ==> Stored(mem, dst, bytes)[k] == mem[k]
  {
  }

  /** `memcpy` does what `memmove` does, whatever the memory holds, exactly when the destination does not start
      strictly inside the source. */
  lemma MemcpyIsMemmove(size: nat, dst: nat, src: nat, n: nat)
    requires dst + n <= size && src + n <= size
    ensures (forall mem: seq<byte> :: |mem| == size ==> ForwardCopy(mem, dst, src, n) == mem[src..src + n])
      <==> !(src < dst < src + n)
  {
    if src < dst < src + n {
      var d := dst - src;
      var mem := seq(size, i => if i == src then 1 else 0);
      Wraps(d, d);
      Wraps(0, d);
      assert ForwardCopy(mem, dst, src, n)[d] == 1 && mem[src..src + n][d] == 0;
    } else {
      forall mem: seq<byte> | |mem| == size ensures ForwardCopy(mem, dst, src, n) == mem[src..src + n] {
        forall k | 0 <= k < n ensures ForwardCopy(mem, dst, src, n)[k] == mem[src..src + n][k] {
          if src < dst { Wraps(k, dst - src); }
        }
      }
    }
  }
}

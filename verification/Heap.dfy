/** The bump allocator of src/mem/mem.c. */
module Heap {
  import opened CTypes
  import opened Numerals
  import opened Bits

  const MEM_START: int := 0x8000_0000
  const MEM_SIZE: int := 0x1000_0000
  const HEAP_END: int := MEM_START + MEM_SIZE - 32 * 1024 * 1024

  /** `heap_info_t`. */
  datatype HeapInfo = HeapInfo(start: u64, end: u64, current: u64, totalSize: u64, allocatedSize: u64, align: u64)

  datatype Op =
    | Malloc(size: u64)
    | Calloc(count: u64, size: u64)
    | AlignedAlloc(alignment: u64, size: u64)
    | Free(ptr: u64)

  // ------------------------------------------------------------------ what the operations do, wrap-around included

  /** Arithmetic modulo 2^64. */
  function Word(x: int): u64 {
    if 0 <= x < TWO64 then x else if TWO64 <= x < 2 * TWO64 then x - TWO64 else x % TWO64
  }

  /** The multiple of `m` among the `m` numbers from `a` on. */
  ghost function RoundUp(a: nat, m: nat): (r: nat)
    requires m > 0
    ensures a <= r < a + m && r % m == 0
  {
    MultipleExists(a, m);
    var r: nat :| a <= r < a + m && r % m == 0;
    r
  }

  lemma MultipleExists(a: nat, m: nat)
    requires m > 0
    ensures exists r: nat :: a <= r < a + m && r % m == 0
  {
    var q := (a + m - 1) / m;
    DivMod(a + m - 1, m);
    QuotientIs(q, m, 0);
    assert a <= q * m < a + m && q * m % m == 0;
  }

  lemma ExactQuotient(r: nat, m: nat)
    requires m > 0 && r % m == 0
    ensures r / m * m == r
  {
  }

  lemma RoundUpUnique(a: nat, m: nat, r: nat)
    requires m > 0 && a <= r < a + m && r % m == 0
    ensures r == RoundUp(a, m)
  {
    ExactQuotient(r, m);
    MultiplesApart(r / m, RoundUp(a, m), m);
  }

  ghost function RoundUp8(size: nat): nat { RoundUp(size, 8) }

  ghost function InitInfo(heapStart: u64): HeapInfo {
    var start := Word(RoundUp(Max(heapStart, MEM_START + 4 * 1024 * 1024), 4096));
    HeapInfo(start, HEAP_END, start, Word(HEAP_END - start), 0, 8)
  }

  ghost function MallocStep(h: HeapInfo, size: u64): (HeapInfo, u64) {
    var rounded := RoundUp8(size);
    if size == 0 || Word(h.current + rounded) > h.end then (h, 0)
    else (h.(current := Word(h.current + rounded), allocatedSize := Word(h.allocatedSize + rounded)), h.current)
  }

  ghost function CallocStep(h: HeapInfo, count: u64, size: u64): (HeapInfo, u64) {
    if count * size >= TWO64 then (h, 0) else MallocStep(h, count * size)
  }

  ghost function AlignedAllocStep(h: HeapInfo, alignment: u64, size: u64): (HeapInfo, u64) {
    if !IsPowerOfTwo(alignment) then (h, 0)
    else
      var (h', raw) := MallocStep(h, Word(size + alignment - 1));
      (h', if raw == 0 then 0 else Word(RoundUp(raw, alignment)))
  }

  ghost function Step(h: HeapInfo, op: Op): (HeapInfo, u64) {
    match op
    case Malloc(size) => MallocStep(h, size)
    case Calloc(count, size) => CallocStep(h, count, size)
    case AlignedAlloc(alignment, size) => AlignedAllocStep(h, alignment, size)
    case Free(_) => (h, 0)
  }

  // ------------------------------------------------------------------ masks and divisions do the same

  lemma EndAligned()
    ensures AlignDown(HEAP_END, 4096) == HEAP_END
  {
    assert Pow(2, 12) == 4096;
    AlignDownIsGreatest(HEAP_END, 4096);
    assert HEAP_END % 4096 == 0;
  }

  lemma AddressRounds(raw: u64, m: u64)
    requires IsPowerOfTwo(m)
    ensures AlignUp(raw, m) == Word(RoundUp(raw, m))
  {
    if raw + m - 1 < TWO64 {
      AddressInRange(raw, m);
    } else {
      AddressWraps(raw, m);
    }
  }

  lemma AddressInRange(raw: u64, m: u64)
    requires IsPowerOfTwo(m) && raw + m - 1 < TWO64
    ensures AlignUp(raw, m) == RoundUp(raw, m)
  {
    AlignUpIsLeast(raw, m);
    RoundUpUnique(raw, m, AlignUp(raw, m));
  }

  lemma AddressWraps(raw: u64, m: u64)
    requires IsPowerOfTwo(m) && raw + m - 1 >= TWO64
    ensures AlignUp(raw, m) == 0 && RoundUp(raw, m) == TWO64
  {
    assert (raw + m - 1) % TWO64 == raw + m - 1 - TWO64;
    AlignUpRounds(raw, m);
    SmallQuotient(raw + m - 1 - TWO64, m);
    DividesWord(m);
    RoundUpUnique(raw, m, TWO64);
  }

  lemma SmallQuotient(a: nat, m: nat)
    requires a < m
    ensures a / m * m == 0
  {
    QuotientIs(0, m, a);
  }

  lemma MallocRounds(current: u64, size: u64)
    ensures Word(current + AlignUp(size, 8)) == Word(current + RoundUp8(size))
  {
    assert AlignUp(size, 8) == Word(RoundUp(size, 8)) by {
      assert Pow(2, 3) == 8;
      AddressRounds(size, 8);
    }
    assert RoundUp8(size) <= TWO64;
    WordOfWord(current, RoundUp8(size));
  }

  lemma WordOfWord(current: u64, r: nat)
    requires r <= TWO64
    ensures Word(current + Word(r)) == Word(current + r)
  {
  }

  lemma DividesWord(m: u64)
    requires IsPowerOfTwo(m)
    ensures TWO64 % m == 0
  {
    var k: nat :| m == Pow(2, k);
    Word64();
    if k > 64 { PowMonotone(64, k); }
    PowAdd(2, 64 - k, k);
    QuotientIs(Pow(2, 64 - k), m, 0);
  }

  /** The division test of `calloc` detects overflow of the product exactly. */
  lemma OverflowTest(count: u64, size: u64)
    requires count > 0
    ensures Word(count * size) / count == size <==> count * size < TWO64
  {
    var product := count * size;
    QuotientIs(size, count, 0);
    if product >= TWO64 {
      QuotientBelow(Word(product), count, size);
    }
  }

  /** The state of the allocator over the memory it manages; address `a` is `ram[a - MEM_START]`. */
  class Allocator {
    const ram: array<byte>
    var start: u64
    var end: u64
    var current: u64
    var totalSize: u64
    var allocatedSize: u64
    var align: u64

    function Info(): HeapInfo
      reads this
    {
      HeapInfo(start, end, current, totalSize, allocatedSize, align)
    }

    /** `mem_init`, for any place the linker may have put the heap. */
    constructor (ram: array<byte>, heapStart: u64)
      ensures this.ram == ram && Info() == InitInfo(heapStart)
      ensures current == start && end == 0x8e00_0000 && align == 8 && allocatedSize == 0
      ensures heapStart <= 0x8e00_0000 ==>
        && start % 4096 == 0 && start >= heapStart && start >= 0x8040_0000 && totalSize == end - start
        && forall t: nat :: t % 4096 == 0 && t >= heapStart && t >= 0x8040_0000 ==> start <= t
    {
      BootHeap(heapStart);
      this.ram := ram;
      var s: u64 := heapStart;
      var e: u64 := MEM_START + MEM_SIZE - 32 * 1024 * 1024;
      if s < MEM_START + 4 * 1024 * 1024 {
        s := MEM_START + 4 * 1024 * 1024;
      }
      assert Pow(2, 12) == 4096;
      AddressRounds(s, 4096);
      EndAligned();
      var from, to: u64 := Word(AlignUp(s, 4096)), AlignDown(e, 4096);
      var total := Word(to as int - from as int);
      start, end := from, to;
      current := from;
      totalSize := total;
      allocatedSize, align := 0, 8;
    }

    /** `malloc`. */
    method Malloc(size: u64) returns (ptr: u64)
      requires align == 8
      modifies this`current, this`allocatedSize
      ensures (Info(), ptr) == MallocStep(old(Info()), size)
    {
      if size == 0 {
        return 0;
      }
      MallocRounds(current, size);
      MallocRounds(allocatedSize, size);
      var rounded := AlignUp(size, align);
      if Word(current + rounded) > end {
        return 0;
      }
      ptr := current;
      current := Word(current + rounded);
      allocatedSize := Word(allocatedSize + rounded);
    }

    /** `calloc`: the block it returns is zeroed, and no other byte of memory changes. */
    method Calloc(count: u64, size: u64) returns (ptr: u64)
      requires ram.Length == MEM_SIZE && Valid(Info()) && count > 0 && Harmless(Info(), Op.Calloc(count, size))
      modifies this`current, this`allocatedSize, ram
      ensures (Info(), ptr) == CallocStep(old(Info()), count, size)
      ensures ptr == 0 ==> ram[..] == old(ram[..])
      ensures ptr != 0 ==> MEM_START <= ptr && ptr + count * size <= MEM_START + MEM_SIZE
      ensures ptr != 0 ==> ram[..] == Cleared(old(ram[..]), ptr - MEM_START, count * size)
    {
      OverflowTest(count, size);
      var total := Word(count * size);
      if total / count != size {
        return 0;
      }
      assert total == count * size;
      MallocGrants(Info(), total);
      ptr := Malloc(total);
      if ptr != 0 {
        Clear(ptr - MEM_START, total);
      }
    }

    /** The zero-fill loop of `calloc`. */
    method Clear(at: nat, n: nat)
      requires at + n <= ram.Length
      modifies ram
      ensures ram[..] == Cleared(old(ram[..]), at, n)
    {
      var i := 0;
      while i < n
        invariant 0 <= i <= n
        invariant ram[..] == Cleared(old(ram[..]), at, i)
      {
        ram[at + i] := 0;
        i := i + 1;
      }
    }

    /** `aligned_alloc`. */
    method AlignedAlloc(alignment: u64, size: u64) returns (ptr: u64)
      requires align == 8
      modifies this`current, this`allocatedSize
      ensures (Info(), ptr) == AlignedAllocStep(old(Info()), alignment, size)
    {
      if alignment > 0 {
        PowerOfTwoTest(alignment);
      }
      if alignment == 0 || BitAnd(alignment, alignment - 1) != 0 {
        return 0;
      }
      var asked := Word(size as int + alignment as int - 1);
      var raw := Malloc(asked);
      if raw == 0 {
        return 0;
      }
      AddressRounds(raw, alignment);
      ptr := Word(AlignUp(raw, alignment));
    }

    /** `free` ignores its argument. */
    method Free(ptr: u64)
      ensures (Info(), 0) == Step(old(Info()), Op.Free(ptr))
    {
    }

    /** `mem_get_free_size`: together with what is allocated it makes up the heap. */
    method GetFreeSize() returns (r: u64)
      ensures r == Word(Info().end - Info().current)
      ensures Valid(Info()) ==> r == end - current
      ensures Valid(Info()) ==> r + Info().allocatedSize == Info().totalSize
    {
      r := Word(end - current);
    }

    /** `mem_is_heap_addr`. */
    method IsHeapAddr(addr: u64) returns (r: bool)
      ensures r == HeapAddr(Info(), addr) == (start <= addr < current)
    {
      r := addr >= start && addr < current;
    }
  }

  predicate HeapAddr(h: HeapInfo, addr: u64) { h.start <= addr < h.current }

  function Cleared(mem: seq<byte>, at: nat, n: nat): seq<byte>
    requires at + n <= |mem|
  {
    mem[..at] + Rep(0, n) + mem[at + n..]
  }

  /** Byte by byte: zero within the block and unchanged around it. */
  lemma ClearedBytes(mem: seq<byte>, at: nat, n: nat)
    requires at + n <= |mem|
    ensures |Cleared(mem, at, n)| == |mem|
    ensures forall i :: at <= i < at + n ==> Cleared(mem, at, n)[i] == 0
    ensures forall i :: 0 <= i < at || at + n <= i < |mem| ==> Cleared(mem, at, n)[i] == mem[i]
  {
  }

  // ------------------------------------------------------------------ single operations

  /** What every operation keeps. */
  predicate Valid(h: HeapInfo) {
    && MEM_START < h.start <= h.current <= h.end <= MEM_START + MEM_SIZE
    && h.current % 8 == 0
    && h.allocatedSize == h.current - h.start
    && h.totalSize == h.end - h.start
    && h.align == 8
  }

  /** `malloc` refuses a request that is empty or does not fit. */
  ghost predicate Refused(h: HeapInfo, size: u64) { size == 0 || h.current + RoundUp8(size) > h.end }

  ghost predicate Fits(h: HeapInfo, size: nat) { h.current + RoundUp8(size) < TWO64 }

  /** A request whose sizes do not leave the 64-bit range, or that is refused all the same. A caller can check it
      beforehand. */
  ghost predicate Harmless(h: HeapInfo, op: Op) {
    match op
    case Malloc(size) => Fits(h, size)
    case Calloc(count, size) => count > 0 && (count * size < TWO64 ==> Fits(h, count * size))
    case AlignedAlloc(alignment, size) => IsPowerOfTwo(alignment) ==> AlignedHarmless(h, alignment, size)
    case Free(_) => true
  }

  /** The padded request itself may wrap, if what is left of it is refused. */
  ghost predicate AlignedHarmless(h: HeapInfo, alignment: u64, size: u64) {
    var asked := Word(size as int + alignment as int - 1);
    Fits(h, asked) && (size + alignment > TWO64 ==> Refused(h, asked))
  }

  /** The heap is set up soundly exactly when the linker put its start below the end of the usable memory. */
  lemma InitValid(heapStart: u64)
    ensures Valid(InitInfo(heapStart)) <==> heapStart <= HEAP_END
  {
    var clamped := Max(heapStart, MEM_START + 4 * 1024 * 1024);
    var start := RoundUp(clamped, 4096);
    MultiplesApart(HEAP_END / 4096, start, 4096);
    MultiplesApart(TWO64 / 4096, start, 4096);
    ExactQuotient(start, 4096);
    QuotientIs(start / 4096 * 512, 8, 0);
  }

  /** Where the heap lies from boot: from the least page boundary that is neither below the place the linker chose nor
      within the first four megabytes, up to 0x8E000000. */
  lemma BootHeap(heapStart: u64)
    ensures var h := InitInfo(heapStart);
      && h.current == h.start && h.end == 0x8e00_0000 && h.align == 8 && h.allocatedSize == 0
      && (heapStart <= 0x8e00_0000 ==>
            && h.start % 4096 == 0 && h.start >= heapStart && h.start >= 0x8040_0000 && h.totalSize == h.end - h.start
            && forall t: nat :: t % 4096 == 0 && t >= heapStart && t >= 0x8040_0000 ==> h.start <= t)
  {
    if heapStart <= 0x8e00_0000 {
      InitValid(heapStart);
      var clamped := Max(heapStart, 0x8040_0000);
      var start := RoundUp(clamped, 4096);
      assert start < TWO64;
      ExactQuotient(start, 4096);
      forall t: nat | t % 4096 == 0 && t >= heapStart && t >= 0x8040_0000 ensures start <= t {
        MultiplesApart(start / 4096, t, 4096);
      }
    }
  }

  /** `malloc` on a valid heap: it grants the next bytes, rounded up to a multiple of 8, exactly when there are any to
      grant and they fit. */
  lemma MallocGives(h: HeapInfo, size: u64)
    requires Valid(h) && size < 0x8000_0000_0000_0000
    ensures var (h', ptr) := MallocStep(h, size); var rounded := (size + 7) / 8 * 8;
      if size == 0 || rounded > h.end - h.current then ptr == 0 && h' == h
      else
        && ptr == h.current && ptr != 0 && h'.current == h.current + rounded
        && h' == h.(current := h'.current, allocatedSize := h.allocatedSize + rounded)
  {
    Eights(size);
    RoundUpUnique(size, 8, (size + 7) / 8 * 8);
    MallocGrants(h, size);
  }

  lemma Eights(size: nat)
    ensures var r := (size + 7) / 8 * 8; size <= r < size + 8 && r % 8 == 0
  {
    DivMod(size + 7, 8);
    QuotientIs((size + 7) / 8, 8, 0);
  }

  /** What `malloc` does on a valid heap when nothing wraps: it fails and changes nothing exactly when the request
      is empty or does not fit, and otherwise grants the next bytes of the heap. */
  lemma MallocGrants(h: HeapInfo, size: u64)
    requires Valid(h) && h.current + RoundUp8(size) < TWO64
    ensures var (h', ptr) := MallocStep(h, size);
      if Refused(h, size) then ptr == 0 && h' == h
      else
        && ptr == h.current && h'.current == h.current + RoundUp8(size) && Valid(h')
        && h' == h.(current := h'.current, allocatedSize := h'.allocatedSize)
  {
  }

  /** A failed call that changed nothing, or a block of its own inside a heap that is still valid. */
  predicate Sound(h: HeapInfo, h': HeapInfo, ptr: u64, size: nat) {
    || (ptr == 0 && h' == h)
    || (Valid(h') && ptr % 8 == 0 && h.current <= ptr < h'.current && ptr + size <= h'.current)
  }

  /** `malloc` is sound exactly when the rounded request does not wrap past the end of the address space. */
  lemma MallocSoundExactly(h: HeapInfo, size: u64)
    requires Valid(h)
    ensures var (h', ptr) := MallocStep(h, size); Sound(h, h', ptr, size) <==> Harmless(h, Op.Malloc(size))
  {
  }

  /** The largest request is one of those: `malloc` returns a pointer and reserves nothing. */
  lemma MallocWraps(h: HeapInfo)
    requires Valid(h)
    ensures MallocStep(h, TWO64 - 1) == (h, h.current) && h.current != 0
  {
    RoundUpUnique(TWO64 - 1, 8, TWO64);
  }

  /** `calloc` grants a block for the whole product, never for a wrapped one. */
  lemma CallocSound(h: HeapInfo, count: u64, size: u64)
    requires Valid(h) && Harmless(h, Op.Calloc(count, size))
    ensures var (h', ptr) := CallocStep(h, count, size);
      && Sound(h, h', ptr, count * size)
      && (ptr != 0 <==> 0 < count * size < TWO64 && h.current + RoundUp8(count * size) <= h.end)
  {
    if count * size < TWO64 {
      MallocGrants(h, count * size);
    }
  }

  /** For a positive count `calloc` is sound exactly when the product overflows or does not wrap on rounding. */
  lemma CallocSoundExactly(h: HeapInfo, count: u64, size: u64)
    requires Valid(h) && count > 0
    ensures var (h', ptr) := CallocStep(h, count, size);
      Sound(h, h', ptr, count * size) <==> Harmless(h, Op.Calloc(count, size))
  {
    if count * size < TWO64 {
      MallocSoundExactly(h, count * size);
    }
  }

  lemma EightDivides(m: nat)
    requires IsPowerOfTwo(m) && m >= 8
    ensures m % 8 == 0
  {
    var k: nat :| m == Pow(2, k);
    if k < 3 { PowMonotone(k, 3); }
    assert Pow(2, 3) == 8;
    PowAdd(2, k - 3, 3);
    QuotientIs(Pow(2, k - 3), 8, 0);
  }

  lemma EightAligned(a: nat, m: nat)
    requires IsPowerOfTwo(m) && a % m == 0 && m >= 8
    ensures a % 8 == 0
  {
    EightDivides(m);
    ExactQuotient(a, m);
    ExactQuotient(m, 8);
    MulAssociates(a / m, m / 8, 8);
    QuotientIs(a / m * (m / 8), 8, 0);
  }

  lemma SmallPowers(m: nat)
    requires IsPowerOfTwo(m) && m < 8
    ensures m == 1 || m == 2 || m == 4
  {
    var k: nat :| m == Pow(2, k);
    assert Pow(2, 3) == 8;
    if k >= 3 { PowMonotone(3, k); }
  }

  lemma DividesEight(raw: nat, m: nat)
    requires raw % 8 == 0 && (m == 1 || m == 2 || m == 4)
    ensures raw % m == 0
  {
    if m == 1 {
      assert raw % 1 == 0;
    } else if m == 2 {
      assert raw % 2 == 0;
    } else {
      assert raw % 4 == 0;
    }
  }

  lemma AlignedStays(raw: u64, m: u64)
    requires raw % 8 == 0 && IsPowerOfTwo(m)
    ensures RoundUp(raw, m) % 8 == 0
  {
    if m >= 8 {
      EightAligned(RoundUp(raw, m), m);
    } else {
      SmallPowers(m);
      DividesEight(raw, m);
      RoundUpUnique(raw, m, raw);
    }
  }

  lemma HalfWord(m: u64)
    requires IsPowerOfTwo(m)
    ensures 1 <= m && 2 * m <= TWO64
  {
    var k: nat :| m == Pow(2, k);
    Word64();
    if k < 64 { PowMonotone(k, 64); } else { PowMonotone(64, k); }
  }

  /** `aligned_alloc` in terms of its inner `malloc`. */
  lemma AlignedAllocIs(h: HeapInfo, alignment: u64, size: u64, asked: u64)
    requires Valid(h) && IsPowerOfTwo(alignment) && asked == Word(size as int + alignment as int - 1)
    ensures var (h', ptr) := AlignedAllocStep(h, alignment, size); var (inner, raw) := MallocStep(h, asked);
      && h' == inner && (raw == 0 || raw == h.current)
      && ptr == (if raw == 0 then 0 else RoundUp(raw, alignment))
      && h.current <= RoundUp(h.current, alignment) < TWO64
  {
    HalfWord(alignment);
  }

  lemma AlignedGranted(h: HeapInfo, alignment: u64, size: u64)
    requires Valid(h) && IsPowerOfTwo(alignment) && size + alignment > 1
    requires h.current + RoundUp8(size + alignment - 1) <= h.end
    ensures var (h', ptr) := AlignedAllocStep(h, alignment, size);
      ptr == RoundUp(h.current, alignment) && Sound(h, h', ptr, size) && ptr != 0
  {
    var asked := size + alignment - 1;
    assert 0 < asked <= RoundUp8(asked) < TWO64;
    MallocGrants(h, asked);
    AlignedAllocIs(h, alignment, size, asked);
    AlignedInside(h, alignment, size, MallocStep(h, asked).0);
  }

  lemma AlignedInside(h: HeapInfo, alignment: u64, size: u64, h': HeapInfo)
    requires Valid(h) && Valid(h') && IsPowerOfTwo(alignment) && size + alignment > 1
    requires h.current + (size + alignment - 1) <= h'.current
    ensures RoundUp(h.current, alignment) < TWO64 && Sound(h, h', RoundUp(h.current, alignment), size)
  {
    var r := RoundUp(h.current, alignment);
    AlignedStays(h.current, alignment);
    assert h.current <= r < h.current + alignment;
    assert r + size <= h.current + (size + alignment - 1);
    if size == 0 { LastNotReached(h.current, alignment); }
  }

  /** An aligned address is never the last of the padding. */
  lemma LastNotReached(a: u64, m: u64)
    requires a % 8 == 0 && IsPowerOfTwo(m) && m > 1
    ensures RoundUp(a, m) + 1 < a + m
  {
    if m >= 8 {
      EightDivides(m);
      AlignedStays(a, m);
      EightsApart(RoundUp(a, m), a, m);
    } else {
      SmallPowers(m);
      DividesEight(a, m);
      RoundUpUnique(a, m, a);
    }
  }

  lemma EightsApart(r: nat, a: nat, m: nat)
    requires r % 8 == 0 && a % 8 == 0 && m % 8 == 0 && r < a + m
    ensures r + 8 <= a + m
  {
  }

  /** `aligned_alloc` refuses an alignment that is no power of two, and otherwise returns an aligned address whose
      bytes all lie inside the block its inner `malloc` reserved. */
  lemma AlignedAllocSound(h: HeapInfo, alignment: u64, size: u64)
    requires Valid(h) && Harmless(h, Op.AlignedAlloc(alignment, size))
    ensures var (h', ptr) := AlignedAllocStep(h, alignment, size);
      && Sound(h, h', ptr, size)
      && (ptr != 0 ==> IsPowerOfTwo(alignment) && alignment > 0 && ptr % alignment == 0)
      && (ptr != 0 <==>
            IsPowerOfTwo(alignment) && size + alignment > 1 && h.current + RoundUp8(size + alignment - 1) <= h.end)
  {
    if IsPowerOfTwo(alignment) {
      HalfWord(alignment);
      var total := size + alignment - 1;
      var asked := Word(total);
      if total > 0 && h.current + RoundUp8(total) <= h.end {
        AlignedGranted(h, alignment, size);
      } else {
        assert Refused(h, asked);
        MallocGrants(h, asked);
        AlignedAllocIs(h, alignment, size, asked);
      }
    }
  }

  /** `aligned_alloc` is sound exactly when its padded request neither wraps nor makes its inner `malloc` wrap, or
      is refused after wrapping. */
  lemma AlignedAllocSoundExactly(h: HeapInfo, alignment: u64, size: u64)
    requires Valid(h)
    ensures var (h', ptr) := AlignedAllocStep(h, alignment, size);
      Sound(h, h', ptr, size) <==> Harmless(h, Op.AlignedAlloc(alignment, size))
  {
    if Harmless(h, Op.AlignedAlloc(alignment, size)) {
      AlignedAllocSound(h, alignment, size);
    } else {
      HalfWord(alignment);
      var asked := Word(size + alignment - 1);
      AlignedAllocIs(h, alignment, size, asked);
      if h.current + RoundUp8(asked) < TWO64 {
        MallocGrants(h, asked);
        PaddingWrapped(h, alignment, size);
      } else {
        InnerWraps(h, asked);
      }
    }
  }

  lemma PaddingWrapped(h: HeapInfo, alignment: u64, size: u64)
    requires Valid(h) && 1 <= alignment && 2 * alignment <= TWO64 && size + alignment > TWO64
    ensures size > h.end
  {
  }

  lemma InnerWraps(h: HeapInfo, asked: u64)
    requires Valid(h) && h.current + RoundUp8(asked) >= TWO64
    ensures MallocStep(h, asked).1 == h.current && MallocStep(h, asked).0.current <= h.current
  {
    MultiplesApart(TWO64 / 8, RoundUp8(asked), 8);
  }

  /** A request of the second kind: with room for eight bytes left, `aligned_alloc(16, 2^64 - 8)` returns a pointer
      and reserves eight bytes. */
  lemma AlignedAllocWraps(h: HeapInfo)
    requires Valid(h) && h.current + 8 <= h.end
    ensures var (h', ptr) := AlignedAllocStep(h, 16, TWO64 - 8);
      ptr != 0 && h'.current == h.current + 8 && !Sound(h, h', ptr, TWO64 - 8)
  {
    assert IsPowerOfTwo(16) by { assert Pow(2, 4) == 16; }
    RoundUpUnique(7, 8, 8);
    MallocGrants(h, 7);
    AlignedAllocIs(h, 16, TWO64 - 8, 7);
  }

  // ------------------------------------------------------------------ runs

  datatype Block = Block(addr: u64, size: nat)

  function Requested(op: Op): nat {
    match op
    case Malloc(size) => size
    case Calloc(count, size) => count * size
    case AlignedAlloc(_, size) => size
    case Free(_) => 0
  }

  /** A run of requests: the heap they leave and every block they were granted, in order; `free` gives none back. */
  ghost function Run(h: HeapInfo, live: seq<Block>, ops: seq<Op>): (HeapInfo, seq<Block>)
    decreases |ops|
  {
    if ops == [] then (h, live)
    else
      var (h', ptr) := Step(h, ops[0]);
      Run(h', if ptr == 0 then live else live + [Block(ptr, Requested(ops[0]))], ops[1..])
  }

  ghost predicate RunHarmless(h: HeapInfo, ops: seq<Op>)
    decreases |ops|
  {
    ops == [] || (Harmless(h, ops[0]) && RunHarmless(Step(h, ops[0]).0, ops[1..]))
  }

  /** Every granted block is aligned, inside the used part of the heap, and disjoint from every other. */
  predicate Safe(h: HeapInfo, live: seq<Block>) {
    && Valid(h)
    && (forall i :: 0 <= i < |live| ==>
          live[i].addr % 8 == 0 && h.start <= live[i].addr < h.current && live[i].addr + live[i].size <= h.current)
    && (forall i, j :: 0 <= i < j < |live| ==>
          live[i].addr + live[i].size <= live[j].addr && live[i].addr < live[j].addr)
  }

  lemma StepSound(h: HeapInfo, op: Op)
    requires Valid(h) && Harmless(h, op)
    ensures var (h', ptr) := Step(h, op);
      Sound(h, h', ptr, Requested(op)) && Valid(h') && h'.start == h.start && h'.end == h.end
  {
    match op
    case Malloc(size) => MallocSoundExactly(h, size);
    case Calloc(count, size) => CallocSound(h, count, size);
    case AlignedAlloc(alignment, size) => AlignedAllocSound(h, alignment, size);
    case Free(_) =>
  }

  /** Allocator safety over whole runs of mixed requests. */
  lemma {:induction false} RunSafe(h: HeapInfo, live: seq<Block>, ops: seq<Op>)
    requires Safe(h, live) && RunHarmless(h, ops)
    ensures var (h', live') := Run(h, live, ops);
      && Safe(h', live') && live <= live'
      && h'.start == h.start && h'.end == h.end && h'.totalSize == h.totalSize
      && h'.allocatedSize + (h'.end - h'.current) == h'.totalSize
    decreases |ops|
  {
    if ops != [] {
      StepSound(h, ops[0]);
      var (h', ptr) := Step(h, ops[0]);
      var live' := if ptr == 0 then live else live + [Block(ptr, Requested(ops[0]))];
      RunSafe(h', live', ops[1..]);
    }
  }

  /** From boot: nothing is granted at first, and every run from there is safe. */
  lemma BootRunSafe(heapStart: u64, ops: seq<Op>)
    requires heapStart <= HEAP_END && RunHarmless(InitInfo(heapStart), ops)
    ensures var (h, live) := Run(InitInfo(heapStart), [], ops);
      && Safe(h, live)
      && (forall i, a: u64 :: 0 <= i < |live| && live[i].addr <= a < live[i].addr + live[i].size ==> HeapAddr(h, a))
      && forall i :: 0 <= i < |live| ==>
           0x8040_0000 <= live[i].addr && heapStart <= live[i].addr && live[i].addr + live[i].size <= 0x8e00_0000
  {
    InitValid(heapStart);
    BootHeap(heapStart);
    RunSafe(InitInfo(heapStart), [], ops);
  }
}

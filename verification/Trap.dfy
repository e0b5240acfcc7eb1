/** The trap path: the hardware's trap entry and `sret`, and the code of src/exception/exception.S between them. */
module Trap {
  import opened CTypes
  import opened Numerals

  const FRAME_SIZE: int := 552
  const SUPERVISOR_ECALL: u64 := 9
  const BREAKPOINT: u64 := 3

  // Words of the trap frame after x0 to x31 and f0 to f31.
  const SEPC: nat := 64
  const SCAUSE: nat := 65
  const STVAL: nat := 66
  const SSTATUS: nat := 67
  const FCSR: nat := 68
  const FRAME_WORDS: nat := 69

  // Weights of the bits of sstatus.
  const SIE: nat := 2
  const SPIE: nat := 32
  const SPP: nat := 256

  // ------------------------------------------------------------------ status bits

  function Bit(word: nat, weight: nat): bool
    requires weight > 0
  {
    word / weight % 2 == 1
  }

  function SetBit(word: nat, weight: nat, value: bool): int
    requires weight > 0
  {
    word + (if value then weight else 0) - (if Bit(word, weight) then weight else 0)
  }

  lemma Halves(q: nat, r: nat)
    requires q / 2 == r / 2
    ensures q / 16 == r / 16 && q / 128 == r / 128
  {
    DivTwice(q, 2, 8);
    DivTwice(q, 2, 64);
    DivTwice(r, 2, 8);
    DivTwice(r, 2, 64);
  }

  lemma FlippedAbove(s: nat, b: bool, d: int)
    requires d == (if b then 1 else 0) - s / 32 % 2
    ensures var t := s + 32 * d; 0 <= t && t / 32 % 2 == (if b then 1 else 0) && t / 256 == s / 256
  {
    var q := s / 32;
    assert q + d >= 0 && (q + d) / 2 == q / 2 && (q + d) % 2 == if b then 1 else 0;
    AddMultiple(s, 32, d);
    Eighths(q, q + d);
    ByteAbove(s);
    ByteAbove(s + 32 * d);
  }

  lemma FlippedBelow(s: nat, d: int)
    requires s + 32 * d >= 0
    ensures (s + 32 * d) / 2 % 2 == s / 2 % 2
  {
    AddMultiple(s, 2, 16 * d);
    AddMultiple(s / 2, 2, 8 * d);
  }

  lemma Eighths(q: nat, r: nat)
    requires q / 2 == r / 2
    ensures q / 8 == r / 8
  {
    DivTwice(q, 2, 4);
    DivTwice(r, 2, 4);
  }

  lemma ByteAbove(s: nat)
    ensures s / 256 == s / 32 / 8
  {
    DivTwice(s, 32, 8);
  }

  lemma SetSie(s: u64, b: bool)
    ensures var t := SetBit(s, SIE, b);
      0 <= t < TWO64 && Bit(t, SIE) == b && Bit(t, SPIE) == Bit(s, SPIE) && Bit(t, SPP) == Bit(s, SPP)
  {
    var q := s / 2;
    var d := (if b then 1 else 0) - q % 2;
    assert SetBit(s, SIE, b) == s + 2 * d && q + d >= 0 && (q + d) / 2 == q / 2;
    AddMultiple(s, 2, d);
    Halves(q, q + d);
    AboveTwo(s);
    AboveTwo(s + 2 * d);
  }

  lemma AboveTwo(s: nat)
    ensures s / 32 == s / 2 / 16 && s / 256 == s / 2 / 128
  {
    DivTwice(s, 2, 16);
    DivTwice(s, 2, 128);
  }

  lemma SetSpie(s: u64, b: bool)
    ensures var t := SetBit(s, SPIE, b);
      0 <= t < TWO64 && Bit(t, SPIE) == b && Bit(t, SIE) == Bit(s, SIE) && Bit(t, SPP) == Bit(s, SPP)
  {
    var t, q := SetBit(s, SPIE, b), s / 32;
    var d := (if b then 1 else 0) - q % 2;
    assert t == s + 32 * d;
    FlippedAbove(s, b, d);
    FlippedBelow(s, d);
  }

  lemma AddMultiple(x: nat, p: nat, e: int)
    requires p > 0 && x + p * e >= 0
    ensures (x + p * e) / p == x / p + e && (x + p * e) % p == x % p
  {
    var q := x / p + e;
    assert x + p * e == q * p + x % p;
    if q < 0 { MultipleIsFar(q, p); }
    QuotientIs(q, p, x % p);
  }

  lemma LowBitsKept(s: nat, d: int)
    requires s + 256 * d >= 0
    ensures (s + 256 * d) / 2 % 2 == s / 2 % 2 && (s + 256 * d) / 32 % 2 == s / 32 % 2
  {
    AddMultiple(s, 2, 128 * d);
    AddMultiple(s / 2, 2, 64 * d);
    AddMultiple(s, 32, 8 * d);
    AddMultiple(s / 32, 2, 4 * d);
  }

  lemma SetSpp(s: u64, b: bool)
    ensures var t := SetBit(s, SPP, b);
      0 <= t < TWO64 && Bit(t, SPP) == b && Bit(t, SIE) == Bit(s, SIE) && Bit(t, SPIE) == Bit(s, SPIE)
  {
    var t, q := SetBit(s, SPP, b), s / 256;
    var d := (if b then 1 else 0) - q % 2;
    assert t == s + 256 * d && t / 256 == q + d;
    LowBitsKept(s, d);
  }

  /** The three interrupt fields of `sstatus` written together; no other bit of it changes. */
  function WithFields(s: u64, sie: bool, spie: bool, spp: bool): (t: u64)
    ensures Bit(t, SIE) == sie && Bit(t, SPIE) == spie && Bit(t, SPP) == spp
  {
    SetSie(s, sie);
    var s1 := SetBit(s, SIE, sie);
    SetSpie(s1, spie);
    var s2 := SetBit(s1, SPIE, spie);
    SetSpp(s2, spp);
    SetBit(s2, SPP, spp)
  }

  /** Of two writes of the fields the later one counts. */
  lemma LastFieldsCount(s: u64, a: bool, b: bool, c: bool, sie: bool, spie: bool, spp: bool)
    ensures WithFields(WithFields(s, a, b, c), sie, spie, spp) == WithFields(s, sie, spie, spp)
  {
    FieldsAdd(s, a, b, c);
    FieldsAdd(WithFields(s, a, b, c), sie, spie, spp);
    FieldsAdd(s, sie, spie, spp);
  }

  lemma FieldsAdd(s: u64, sie: bool, spie: bool, spp: bool)
    ensures WithFields(s, sie, spie, spp) == s
      + (if sie then SIE else 0) - (if Bit(s, SIE) then SIE else 0)
      + (if spie then SPIE else 0) - (if Bit(s, SPIE) then SPIE else 0)
      + (if spp then SPP else 0) - (if Bit(s, SPP) then SPP else 0)
  {
    SetSie(s, sie);
    SetSpie(SetBit(s, SIE, sie), spie);
  }

  // ------------------------------------------------------------------ the machine

  /** What the trap path can see of a hart; memory is addressed in aligned 64-bit words. */
  datatype Cpu = Cpu(x: seq<u64>, f: seq<u64>, fcsr: u64, sepc: u64, scause: u64, stval: u64, sstatus: u64, pc: u64,
                     supervisor: bool, mem: map<int, u64>)

  predicate WellFormed(c: Cpu) { |c.x| == 32 && |c.f| == 32 && c.x[0] == 0 }

  function Load(mem: map<int, u64>, addr: int): u64 { if addr in mem then mem[addr] else 0 }

  /** The hardware takes a trap: the interrupt enable moves to SPIE, the old mode to SPP, and the rest is recorded
      (section 3.1.6.1 of the RISC-V Privileged Architecture). */
  function Taken(c: Cpu, cause: u64, tval: u64, vector: u64): Cpu {
    c.(sepc := c.pc, scause := cause, stval := tval, pc := vector, supervisor := true,
       sstatus := WithFields(c.sstatus, false, Bit(c.sstatus, SIE), c.supervisor))
  }

  /** `sret` undoes that (section 3.3.2). */
  function Returned(c: Cpu): Cpu {
    c.(pc := c.sepc, supervisor := Bit(c.sstatus, SPP),
       sstatus := WithFields(c.sstatus, Bit(c.sstatus, SPIE), true, false))
  }

  /** What the hardware does on a trap, bit by bit: the interrupt enable (bit 1) is cleared and moves to bit 5, the
      mode moves to bit 8, and no other bit of `sstatus` changes. */
  lemma TrapTaken(c: Cpu, cause: u64, tval: u64, vector: u64)
    ensures var t := Taken(c, cause, tval, vector);
      && t.sepc == c.pc && t.scause == cause && t.stval == tval && t.pc == vector && t.supervisor
      && t.x == c.x && t.f == c.f && t.fcsr == c.fcsr && t.mem == c.mem
      && t.sstatus / 2 % 2 == 0 && t.sstatus / 32 % 2 == c.sstatus / 2 % 2
      && t.sstatus / 256 % 2 == (if c.supervisor then 1 else 0)
      && t.sstatus - t.sstatus / 32 % 2 * 32 - t.sstatus / 256 % 2 * 256 ==
         c.sstatus - c.sstatus / 2 % 2 * 2 - c.sstatus / 32 % 2 * 32 - c.sstatus / 256 % 2 * 256
  {
    FieldsAdd(c.sstatus, false, Bit(c.sstatus, SIE), c.supervisor);
  }

  /** What `sret` does: bit 5 moves back to bit 1 and is set, bit 8 gives the mode and is cleared. */
  lemma TrapReturned(c: Cpu)
    ensures var t := Returned(c);
      && t.pc == c.sepc && t.supervisor == (c.sstatus / 256 % 2 == 1)
      && t.x == c.x && t.f == c.f && t.fcsr == c.fcsr && t.mem == c.mem
      && t.sstatus / 2 % 2 == c.sstatus / 32 % 2 && t.sstatus / 32 % 2 == 1 && t.sstatus / 256 % 2 == 0
      && t.sstatus - t.sstatus / 2 % 2 * 2 - 32 ==
         c.sstatus - c.sstatus / 2 % 2 * 2 - c.sstatus / 32 % 2 * 32 - c.sstatus / 256 % 2 * 256
  {
    FieldsAdd(c.sstatus, Bit(c.sstatus, SPIE), true, false);
  }

  /** The contents of word `i` of the frame that saves `c`. */
  function FrameWord(c: Cpu, i: nat): u64
    requires WellFormed(c) && i < FRAME_WORDS
  {
    if i < 32 then c.x[i]
    else if i < 64 then c.f[i - 32]
    else if i == SEPC then c.sepc
    else if i == SCAUSE then c.scause
    else if i == STVAL then c.stval
    else if i == SSTATUS then c.sstatus
    else c.fcsr
  }

  /** Words 1 to 68 of the frame at `base` hold `c`; word 0 is never written. */
  ghost predicate FrameHolds(mem: map<int, u64>, base: int, c: Cpu)
    requires WellFormed(c)
  {
    forall i :: 1 <= i < FRAME_WORDS ==> Load(mem, Slot(base, i)) == FrameWord(c, i)
  }

  /** The address of word `i` of the frame at `base`. */
  function Slot(base: int, i: int): int { base + 8 * i }

  /** No word outside the frame at `base` has changed. */
  ghost predicate OutsideKept(mem: map<int, u64>, mem': map<int, u64>, base: int) {
    forall a {:trigger Load(mem', a)} :: !(base + 8 <= a < base + FRAME_SIZE) ==> Load(mem', a) == Load(mem, a)
  }

  /** From the trap to the call of the C handler. */
  ghost predicate Entered(c: Cpu, cause: u64, tval: u64, vector: u64, c': Cpu)
    requires WellFormed(c) && c.x[2] >= FRAME_SIZE
  {
    var t := Taken(c, cause, tval, vector);
    var base := c.x[2] - FRAME_SIZE;
    && WellFormed(c')
    && c'.x[2] == c'.x[10] == base
    && c' == t.(x := t.x[2 := base][5 := cause][6 := SUPERVISOR_ECALL][10 := base], mem := c'.mem)
    && FrameHolds(c'.mem, base, t)
    && OutsideKept(c.mem, c'.mem, base)
  }

  /** The frame of a trap, 552 bytes below the stack pointer, word by word as the C structure has it, and what the
      C function is called with. */
  lemma FrameLayout(c: Cpu, cause: u64, tval: u64, vector: u64, c': Cpu)
    requires WellFormed(c) && c.x[2] >= 552 && Entered(c, cause, tval, vector, c')
    ensures var frame := c.x[2] - 552;
      && c'.x[10] == frame && c'.x[2] == frame
      && (forall i :: 1 <= i < 32 ==> Load(c'.mem, frame + 8 * i) == c.x[i])
      && (forall i :: 0 <= i < 32 ==> Load(c'.mem, frame + 256 + 8 * i) == c.f[i])
      && Load(c'.mem, frame + 512) == c.pc && Load(c'.mem, frame + 520) == cause && Load(c'.mem, frame + 528) == tval
      && Load(c'.mem, frame + 536) == Taken(c, cause, tval, vector).sstatus && Load(c'.mem, frame + 544) == c.fcsr
      && forall a {:trigger Load(c'.mem, a)} :: a < frame + 8 || a >= frame + 552 ==>
           Load(c'.mem, a) == Load(c.mem, a)
  {
    var frame, t := c.x[2] - 552, Taken(c, cause, tval, vector);
    forall i | 1 <= i < 32 ensures Load(c'.mem, frame + 8 * i) == c.x[i] {
      assert Load(c'.mem, Slot(frame, i)) == FrameWord(t, i);
    }
    forall i | 0 <= i < 32 ensures Load(c'.mem, frame + 256 + 8 * i) == c.f[i] {
      assert Load(c'.mem, Slot(frame, 32 + i)) == FrameWord(t, 32 + i);
    }
    assert Load(c'.mem, Slot(frame, 64)) == FrameWord(t, 64) && Load(c'.mem, Slot(frame, 65)) == FrameWord(t, 65);
    assert Load(c'.mem, Slot(frame, 66)) == FrameWord(t, 66) && Load(c'.mem, Slot(frame, 67)) == FrameWord(t, 67);
    assert Load(c'.mem, Slot(frame, 68)) == FrameWord(t, 68);
  }

  /** What the return path takes from where. */
  lemma FrameRead(c: Cpu, frame: int)
    requires WellFormed(c) && frame == c.x[2]
    ensures var after := Resumed(c);
      && after.x[0] == 0 && (forall i :: 1 <= i < 32 ==> after.x[i] == Load(c.mem, frame + 8 * i))
      && (forall i :: 0 <= i < 32 ==> after.f[i] == Load(c.mem, frame + 256 + 8 * i))
      && after.pc == Load(c.mem, frame + 512) && after.fcsr == Load(c.mem, frame + 544)
      && after.supervisor == (Load(c.mem, frame + 536) / 256 % 2 == 1)
      && after.sstatus / 2 % 2 == Load(c.mem, frame + 536) / 32 % 2
      && after.mem == c.mem
  {
    var after := Resumed(c);
    forall i | 1 <= i < 32 ensures after.x[i] == Load(c.mem, frame + 8 * i) {
      assert after.x[i] == Load(c.mem, Slot(frame, i));
    }
    forall i | 0 <= i < 32 ensures after.f[i] == Load(c.mem, frame + 256 + 8 * i) {
      assert after.f[i] == Load(c.mem, Slot(frame, 32 + i));
    }
    ReadStatus(c.(sstatus := Load(c.mem, frame + 536)));
    assert Slot(frame, 64) == frame + 512 && Slot(frame, 67) == frame + 536 && Slot(frame, 68) == frame + 544;
  }

  lemma ReadStatus(c: Cpu)
    ensures Returned(c).supervisor == (c.sstatus / 256 % 2 == 1)
    ensures Returned(c).sstatus / 2 % 2 == c.sstatus / 32 % 2
  {
    TrapReturned(c);
  }

  function LoadedIntegers(mem: map<int, u64>, base: int): seq<u64> {
    seq(32, i => if i == 0 then 0 else Load(mem, Slot(base, i)))
  }

  function LoadedFloats(mem: map<int, u64>, base: int): seq<u64> { seq(32, i => Load(mem, Slot(base, 32 + i))) }

  /** From the return of the C handler to the instruction after `sret`. */
  function Resumed(c: Cpu): (c': Cpu)
    requires WellFormed(c)
    ensures WellFormed(c')
  {
    var base := c.x[2];
    Returned(c.(x := LoadedIntegers(c.mem, base), f := LoadedFloats(c.mem, base),
                sepc := Load(c.mem, Slot(base, SEPC)),
                sstatus := Load(c.mem, Slot(base, SSTATUS)),
                fcsr := Load(c.mem, Slot(base, FCSR))))
  }

  class Hart {
    var x: seq<u64>
    var f: seq<u64>
    var fcsr: u64
    var sepc: u64
    var scause: u64
    var stval: u64
    var sstatus: u64
    var pc: u64
    var supervisor: bool
    var mem: map<int, u64>

    function Snapshot(): Cpu
      reads this
    {
      Cpu(x, f, fcsr, sepc, scause, stval, sstatus, pc, supervisor, mem)
    }

    /** The hardware's part of a trap. */
    method TakeTrap(cause: u64, tval: u64, vector: u64)
      modifies this
      ensures Snapshot() == Taken(old(Snapshot()), cause, tval, vector)
    {
      sstatus := WithFields(sstatus, false, Bit(sstatus, SIE), supervisor);
      sepc, scause, stval, pc, supervisor := pc, cause, tval, vector, true;
    }

    /** One `sd`. */
    method Store(offset: nat, value: u64)
      requires |x| == 32
      modifies this`mem
      ensures Load(mem, Slot(x[2], offset)) == value
      ensures forall a {:trigger Load(mem, a)} :: a != Slot(x[2], offset) ==> Load(mem, a) == Load(old(mem), a)
    {
      mem := mem[Slot(x[2], offset) := value];
    }

    /** The stores of x1 to x31. */
    method StoreIntegers()
      requires WellFormed(Snapshot())
      modifies this`mem
      ensures forall i :: 1 <= i < 32 ==> Load(mem, Slot(x[2], i)) == x[i]
      ensures OutsideKept(old(mem), mem, x[2])
    {
      for i := 1 to 32
        invariant forall k :: 1 <= k < i ==> Load(mem, Slot(x[2], k)) == x[k]
        invariant OutsideKept(old(mem), mem, x[2])
      {
        Store(i, x[i]);
      }
    }

    /** The stores of f0 to f31. */
    method StoreFloats()
      requires WellFormed(Snapshot())
      modifies this`mem
      ensures forall i :: 0 <= i < 32 ==> Load(mem, Slot(x[2], 32 + i)) == f[i]
      ensures forall i :: 1 <= i < 32 ==> Load(mem, Slot(x[2], i)) == Load(old(mem), Slot(x[2], i))
      ensures OutsideKept(old(mem), mem, x[2])
    {
      for i := 0 to 32
        invariant forall k :: 0 <= k < i ==> Load(mem, Slot(x[2], 32 + k)) == f[k]
        invariant forall k :: 1 <= k < 32 ==> Load(mem, Slot(x[2], k)) == Load(old(mem), Slot(x[2], k))
        invariant OutsideKept(old(mem), mem, x[2])
      {
        Store(32 + i, f[i]);
      }
    }

    /** The stores of the trap registers, each through `t0`. */
    method StoreTrapRegisters()
      requires WellFormed(Snapshot())
      modifies this`mem, this`x
      ensures x == old(x)[5 := fcsr]
      ensures Load(mem, Slot(x[2], SEPC)) == sepc && Load(mem, Slot(x[2], SCAUSE)) == scause
      ensures Load(mem, Slot(x[2], STVAL)) == stval && Load(mem, Slot(x[2], SSTATUS)) == sstatus
      ensures Load(mem, Slot(x[2], FCSR)) == fcsr
      ensures forall i :: 1 <= i < 64 ==> Load(mem, Slot(x[2], i)) == Load(old(mem), Slot(x[2], i))
      ensures OutsideKept(old(mem), mem, x[2])
    {
      x := x[5 := sepc];
      Store(SEPC, x[5]);
      x := x[5 := scause];
      Store(SCAUSE, x[5]);
      x := x[5 := stval];
      Store(STVAL, x[5]);
      x := x[5 := sstatus];
      Store(SSTATUS, x[5]);
      x := x[5 := fcsr];
      Store(FCSR, x[5]);
    }

    /** The stores of x1 to x31 from the moved stack pointer. The pointer is stored adjusted and corrected
        afterwards through `t0`, which by then has been saved. */
    method StoreIntegersCorrected()
      requires WellFormed(Snapshot()) && x[2] >= FRAME_SIZE
      modifies this`mem, this`x
      ensures x == old(x)[2 := old(x)[2] - FRAME_SIZE][5 := old(x)[2]]
      ensures forall i :: 1 <= i < 32 ==> Load(mem, Slot(x[2], i)) == old(x)[i]
      ensures OutsideKept(old(mem), mem, x[2])
    {
      x := x[2 := x[2] - FRAME_SIZE];
      StoreIntegers();
      x := x[5 := x[2] + FRAME_SIZE];
      Store(2, x[5]);
    }

    /** `trap_handler`, `save_registers` and `handle_trap`, up to the call. */
    method SaveFrame()
      requires WellFormed(Snapshot()) && x[2] >= FRAME_SIZE
      modifies this`mem, this`x
      ensures var c := old(Snapshot()); var base := c.x[2] - FRAME_SIZE;
        && x == c.x[2 := base][5 := c.scause][6 := SUPERVISOR_ECALL][10 := base]
        && FrameHolds(mem, base, c)
        && OutsideKept(c.mem, mem, base)
    {
      StoreIntegersCorrected();
      StoreFloats();
      StoreTrapRegisters();
      x := x[10 := x[2]];
      x := x[5 := scause];
      x := x[6 := SUPERVISOR_ECALL];
      assert x == old(x)[2 := x[2]][5 := scause][6 := SUPERVISOR_ECALL][10 := x[2]];
    }

    /** A trap, up to the call of the C handler. */
    method TrapHandler(cause: u64, tval: u64, vector: u64)
      requires WellFormed(Snapshot()) && x[2] >= FRAME_SIZE
      modifies this
      ensures Entered(old(Snapshot()), cause, tval, vector, Snapshot())
    {
      TakeTrap(cause, tval, vector);
      SaveFrame();
    }

    /** The loads of the trap registers, through `t0`. */
    method LoadTrapRegisters()
      requires WellFormed(Snapshot())
      modifies this`x, this`sepc, this`sstatus, this`fcsr
      ensures |x| == 32
      ensures sepc == Load(mem, Slot(x[2], SEPC)) && sstatus == Load(mem, Slot(x[2], SSTATUS))
      ensures fcsr == Load(mem, Slot(x[2], FCSR)) && x == old(x)[5 := fcsr]
    {
      x := x[5 := Load(mem, Slot(x[2], SEPC))];
      sepc := x[5];
      x := x[5 := Load(mem, Slot(x[2], SSTATUS))];
      sstatus := x[5];
      x := x[5 := Load(mem, Slot(x[2], FCSR))];
      fcsr := x[5];
    }

    /** The loads of f0 to f31. */
    method LoadFloats()
      requires WellFormed(Snapshot())
      modifies this`f
      ensures f == LoadedFloats(mem, x[2])
    {
      for i := 0 to 32
        invariant |f| == 32
        invariant forall k :: 0 <= k < i ==> f[k] == Load(mem, Slot(x[2], 32 + k))
      {
        f := f[i := Load(mem, Slot(x[2], 32 + i))];
      }
    }

    /** The loads of x1 and x3 to x31, and of the stack pointer at the very end. */
    method LoadIntegers()
      requires WellFormed(Snapshot())
      modifies this`x
      ensures x == LoadedIntegers(mem, old(x)[2])
    {
      ghost var base := x[2];
      x := x[1 := Load(mem, Slot(x[2], 1))];
      for i := 3 to 32
        invariant |x| == 32 && x[2] == base && x[0] == 0
        invariant forall k :: 1 <= k < i && k != 2 ==> x[k] == Load(mem, Slot(base, k))
      {
        x := x[i := Load(mem, Slot(x[2], i))];
      }
      x := x[2 := Load(mem, Slot(x[2], 2))];
    }

    /** `restore_registers` and `sret`. */
    method RestoreRegisters()
      requires WellFormed(Snapshot())
      modifies this
      ensures Snapshot() == Resumed(old(Snapshot()))
    {
      LoadTrapRegisters();
      LoadFloats();
      LoadIntegers();
      Sret();
    }

    method Sret()
      modifies this`pc, this`supervisor, this`sstatus
      ensures Snapshot() == Returned(old(Snapshot()))
    {
      pc, supervisor := sepc, Bit(sstatus, SPP);
      sstatus := WithFields(sstatus, Bit(sstatus, SPIE), true, false);
    }
  }
}

/** Whole runs of nested traps: kernel and handler code, traps taken inside handlers to any depth, and returns. */
module Nesting {
  import opened CTypes
  import opened Trap
  import opened Kernel

  /** How far a trap in progress has come: its frame has been saved, or its handler has been called as well. */
  datatype Phase = Waiting | Called(effect: Effect)

  /** A trap in progress: the hart just before it, what it was, how far it has come, and what the C code has written
      to its frame. */
  datatype Entry = Entry(before: Cpu, cause: u64, tval: u64, vector: u64, phase: Phase, writes: FrameWrites)

  /** The hart, the traps in progress from the outermost to the innermost, and the handler tables. */
  datatype State = State(cpu: Cpu, stack: seq<Entry>, tables: Tables)

  predicate EntryOk(e: Entry) { WellFormed(e.before) && e.before.x[2] >= FRAME_SIZE }

  function Base(e: Entry): int
    requires EntryOk(e)
  {
    e.before.x[2] - FRAME_SIZE
  }

  function Top(s: State): Entry
    requires s.stack != []
  {
    s.stack[|s.stack| - 1]
  }

  function WithTop(s: State, e: Entry): State
    requires s.stack != []
  {
    s.(stack := s.stack[|s.stack| - 1 := e])
  }

  function Saved(e: Entry): Cpu { Taken(e.before, e.cause, e.tval, e.vector) }

  /** What word `i` of a trap's frame holds while it is in progress. */
  function ExpectedWord(e: Entry, i: nat): u64
    requires EntryOk(e) && 1 <= i < FRAME_WORDS
  {
    if i in e.writes then e.writes[i] else FrameWord(Saved(e), i)
  }

  ghost predicate FrameHeld(mem: map<int, u64>, e: Entry)
    requires EntryOk(e)
  {
    forall i :: 1 <= i < FRAME_WORDS ==> Load(mem, Slot(Base(e), i)) == ExpectedWord(e, i)
  }

  // ------------------------------------------------------------------ steps

  /** Code outside any trap does as it likes. */
  ghost predicate KernelStep(s: State, s': State) {
    s.stack == [] && WellFormed(s'.cpu) && s' == s.(cpu := s'.cpu)
  }

  /** Code of a C handler keeps to the calling convention: its stack stays below the frame, it writes no live frame
      other than as below, and it leaves the interrupt enable and the mode alone. */
  ghost predicate HandlerStep(s: State, s': State) {
    && s.stack != [] && s' == s.(cpu := s'.cpu) && WellFormed(s'.cpu)
    && (forall e :: e in s.stack ==> EntryOk(e))
    && s'.cpu.x[2] <= Base(Top(s))
    && Bit(s'.cpu.sstatus, SIE) == Bit(s.cpu.sstatus, SIE) && s'.cpu.supervisor == s.cpu.supervisor
    && forall e, i :: e in s.stack && 1 <= i < FRAME_WORDS ==>
         Load(s'.cpu.mem, Slot(Base(e), i)) == Load(s.cpu.mem, Slot(Base(e), i))
  }

  /** Any code registers any handlers. */
  ghost predicate RegisterStep(s: State, s': State) { s'.tables.Valid() && s' == s.(tables := s'.tables) }

  /** A trap is taken and its frame saved; interrupts only while they are enabled. */
  ghost predicate EnterStep(s: State, s': State, cause: u64, tval: u64, vector: u64) {
    && WellFormed(s.cpu) && s.cpu.x[2] >= FRAME_SIZE
    && (cause >= INTERRUPT_BIT && s.cpu.supervisor ==> Bit(s.cpu.sstatus, SIE))
    && Entered(s.cpu, cause, tval, vector, s'.cpu)
    && s' == s.(cpu := s'.cpu, stack := s.stack + [Entry(s.cpu, cause, tval, vector, Waiting, map[])])
  }

  /** The assembly and `handle_exception` choose what handles the innermost trap. */
  ghost predicate DispatchStep(s: State, s': State) {
    && s.tables.Valid() && s.stack != [] && EntryOk(Top(s)) && Top(s).phase.Waiting?
    && var cause := Load(s.cpu.mem, Slot(Base(Top(s)), SCAUSE));
       s' == WithTop(s, Top(s).(phase := Called(s.tables.Dispatch(cause))))
  }

  /** What the code called for a trap may store in its frame; `epc` is the saved address. A function installed later
      stores what it likes as often as it likes, except that it leaves the stack pointer and the status of an
      interrupted handler alone. */
  predicate MayStore(e: Entry, outermost: bool, epc: u64, w: FrameWrites) {
    && e.phase.Called?
    && match e.phase.effect
       case SkipInstruction => e.writes == map[] && w == map[SEPC := Plus4(epc)]
       case SyscallReturn => e.writes == map[] && w.Keys == {10, SEPC} && w[SEPC] == Plus4(epc)
       case FrameWriter => outermost || (2 !in w && SSTATUS !in w)
       case _ => false
  }

  /** The C code writes the frame of the innermost trap. */
  ghost predicate EffectStep(s: State, s': State, w: FrameWrites) {
    && s.stack != [] && EntryOk(Top(s))
    && MayStore(Top(s), |s.stack| == 1, Load(s.cpu.mem, Slot(Base(Top(s)), SEPC)), w)
    && Stores(s.cpu.mem, s'.cpu.mem, Base(Top(s)), w) && OutsideKept(s.cpu.mem, s'.cpu.mem, Base(Top(s)))
    && s' == WithTop(s, Top(s).(writes := Top(s).writes + w)).(cpu := s.cpu.(mem := s'.cpu.mem))
  }

  /** The code called for a trap has done its work. */
  predicate Completed(e: Entry) {
    && e.phase.Called?
    && match e.phase.effect
       case Untouched => true
       case SkipInstruction => e.writes != map[]
       case SyscallReturn => e.writes != map[]
       case Halts => false
       case FrameWriter => true
  }

  /** The C code has returned; the frame is restored and `sret` executed. */
  ghost predicate LeaveStep(s: State, s': State) {
    && s.stack != [] && WellFormed(s.cpu) && EntryOk(Top(s)) && s.cpu.x[2] == Base(Top(s))
    && Completed(Top(s))
    && s' == s.(cpu := Resumed(s.cpu), stack := s.stack[..|s.stack| - 1])
  }

  ghost predicate Next(s: State, s': State) {
    || KernelStep(s, s')
    || HandlerStep(s, s')
    || RegisterStep(s, s')
    || (exists cause, tval, vector :: EnterStep(s, s', cause, tval, vector))
    || DispatchStep(s, s')
    || (exists w :: EffectStep(s, s', w))
    || LeaveStep(s, s')
  }

  // ------------------------------------------------------------------ the invariant

  /** What the C code has written to a frame is what the trap calls for. */
  predicate WritesOk(e: Entry) {
    match e.phase
    case Waiting => e.writes == map[]
    case Called(effect) =>
      && (effect.SyscallReturn? <==> e.cause == SUPERVISOR_ECALL)
      && match effect
         case SkipInstruction => e.writes == map[] || e.writes == map[SEPC := Plus4(e.before.pc)]
         case SyscallReturn =>
           e.writes == map[] || (e.writes.Keys == {10, SEPC} && e.writes[SEPC] == Plus4(e.before.pc))
         case FrameWriter => true
         case _ => e.writes == map[]
  }

  ghost predicate FramesHeld(mem: map<int, u64>, stack: seq<Entry>) {
    forall k :: 0 <= k < |stack| ==> EntryOk(stack[k]) && WritesOk(stack[k]) && FrameHeld(mem, stack[k])
  }

  /** Each trap interrupted a handler of the one before it, on the stack below that one's frame. */
  ghost predicate Nested(stack: seq<Entry>) {
    && (forall k :: 0 <= k < |stack| ==> EntryOk(stack[k]))
    && (forall j, k :: 0 <= j < k < |stack| ==> stack[k].before.x[2] <= Base(stack[j]))
    && (forall k :: 1 <= k < |stack| ==>
          && !Bit(stack[k].before.sstatus, SIE) && stack[k].before.supervisor
          && 2 !in stack[k].writes && SSTATUS !in stack[k].writes)
  }

  /** Live frames lie below one another and hold what they should, and the trap path runs in S-mode with
      interrupts off. */
  ghost predicate Inv(s: State) {
    && WellFormed(s.cpu) && s.tables.Valid()
    && FramesHeld(s.cpu.mem, s.stack) && Nested(s.stack)
    && (s.stack != [] ==>
          s.cpu.x[2] <= Base(Top(s)) && !Bit(s.cpu.sstatus, SIE) && s.cpu.supervisor)
  }

  lemma EnterKeeps(s: State, s': State, cause: u64, tval: u64, vector: u64)
    requires Inv(s) && EnterStep(s, s', cause, tval, vector)
    ensures Inv(s')
  {
    var top := Entry(s.cpu, cause, tval, vector, Waiting, map[]);
    BelowAll(s);
    assert FrameHeld(s'.cpu.mem, top);
    FramesOutside(s.cpu.mem, s'.cpu.mem, Base(top), s.stack);
    assert !Bit(s'.cpu.sstatus, SIE) && s'.cpu.supervisor;
  }

  lemma BelowAll(s: State)
    requires Inv(s)
    ensures forall k :: 0 <= k < |s.stack| ==> s.cpu.x[2] <= Base(s.stack[k])
    ensures s.stack != [] ==> !Bit(s.cpu.sstatus, SIE) && s.cpu.supervisor
  {
    forall k | 0 <= k < |s.stack| ensures s.cpu.x[2] <= Base(s.stack[k]) {
      assert k < |s.stack| - 1 ==> Top(s).before.x[2] <= Base(s.stack[k]);
    }
  }

  lemma FramesOutside(mem: map<int, u64>, mem': map<int, u64>, base: int, stack: seq<Entry>)
    requires FramesHeld(mem, stack) && OutsideKept(mem, mem', base)
    requires forall k :: 0 <= k < |stack| ==> base + FRAME_SIZE <= Base(stack[k])
    ensures FramesHeld(mem', stack)
  {
    forall k | 0 <= k < |stack| ensures FrameHeld(mem', stack[k]) {
      HeldOutside(mem, mem', base, stack[k]);
    }
  }

  /** Changes inside one frame leave the frames above it as they are. */
  lemma HeldOutside(mem: map<int, u64>, mem': map<int, u64>, base: int, e: Entry)
    requires EntryOk(e) && FrameHeld(mem, e) && OutsideKept(mem, mem', base) && base + FRAME_SIZE <= Base(e)
    ensures FrameHeld(mem', e)
  {
    forall i | 1 <= i < FRAME_WORDS ensures Load(mem', Slot(Base(e), i)) == ExpectedWord(e, i) {
      assert Load(mem, Slot(Base(e), i)) == ExpectedWord(e, i);
    }
  }

  /** A dispatch goes by the cause the trap was taken with. */
  lemma DispatchedCause(s: State)
    requires Inv(s) && s.stack != [] && Top(s).phase.Waiting?
    ensures Load(s.cpu.mem, Slot(Base(Top(s)), SCAUSE)) == Top(s).cause
  {
    assert FrameHeld(s.cpu.mem, Top(s));
    assert Load(s.cpu.mem, Slot(Base(Top(s)), SCAUSE)) == ExpectedWord(Top(s), SCAUSE);
  }

  lemma HandlersAreNoSyscalls(h: Handler)
    ensures !HandlerEffect(h).SyscallReturn?
  {
  }

  lemma DispatchKeeps(s: State, s': State)
    requires Inv(s) && DispatchStep(s, s')
    ensures Inv(s')
  {
    DispatchedCause(s);
    var e, e' := Top(s), Top(s');
    if e.cause != SUPERVISOR_ECALL { HandlersAreNoSyscalls(s.tables.Selected(e.cause)); }
    assert WritesOk(e');
    assert FrameHeld(s'.cpu.mem, e') by {
      assert FrameHeld(s.cpu.mem, e);
      assert forall i :: 1 <= i < FRAME_WORDS ==> ExpectedWord(e', i) == ExpectedWord(e, i);
    }
  }

  lemma StoresHeld(mem: map<int, u64>, mem': map<int, u64>, e: Entry, w: FrameWrites)
    requires EntryOk(e) && FrameHeld(mem, e) && Stores(mem, mem', Base(e), w)
    ensures FrameHeld(mem', e.(writes := e.writes + w))
  {
  }

  lemma StoresOk(mem: map<int, u64>, e: Entry, outermost: bool, w: FrameWrites)
    requires EntryOk(e) && FrameHeld(mem, e) && WritesOk(e)
    requires MayStore(e, outermost, Load(mem, Slot(Base(e), SEPC)), w)
    ensures WritesOk(e.(writes := e.writes + w))
    ensures !e.phase.effect.FrameWriter? ==> e.writes + w == w
  {
    if !e.phase.effect.FrameWriter? {
      assert Load(mem, Slot(Base(e), SEPC)) == ExpectedWord(e, SEPC) == e.before.pc;
      assert e.writes + w == w;
    }
  }

  lemma EffectFrames(s: State, s': State, w: FrameWrites)
    requires Inv(s) && EffectStep(s, s', w)
    ensures FramesHeld(s'.cpu.mem, s'.stack)
  {
    var n, e := |s.stack| - 1, Top(s);
    assert e == s.stack[n];
    StoresHeld(s.cpu.mem, s'.cpu.mem, e, w);
    StoresOk(s.cpu.mem, e, n == 0, w);
    FramesOutside(s.cpu.mem, s'.cpu.mem, Base(e), s.stack[..n]);
    assert s'.stack == s.stack[..n] + [e.(writes := e.writes + w)];
  }

  lemma EffectKeeps(s: State, s': State, w: FrameWrites)
    requires Inv(s) && EffectStep(s, s', w)
    ensures Inv(s')
  {
    var n, e := |s.stack| - 1, Top(s);
    EffectFrames(s, s', w);
    if n > 0 { InterruptedLeftAlone(e, Load(s.cpu.mem, Slot(Base(e), SEPC)), w); }
  }

  lemma InterruptedLeftAlone(e: Entry, epc: u64, w: FrameWrites)
    requires MayStore(e, false, epc, w) && 2 !in e.writes && SSTATUS !in e.writes
    ensures 2 !in e.writes + w && SSTATUS !in e.writes + w
  {
    assert !e.phase.effect.FrameWriter? ==> forall i :: i in w ==> i in w.Keys;
  }

  /** What a return owes the code that was interrupted: every register, the address, the mode and all of `sstatus` as
      `sret` has to leave it, except for what the C code wrote to the frame. */
  ghost predicate GivesBack(before: Cpu, writes: FrameWrites, after: Cpu)
    requires WellFormed(before)
  {
    && WellFormed(after)
    && (forall r :: 1 <= r < 32 ==> after.x[r] == if r in writes then writes[r] else before.x[r])
    && (forall r :: 0 <= r < 32 ==> after.f[r] == if 32 + r in writes then writes[32 + r] else before.f[r])
    && after.fcsr == (if FCSR in writes then writes[FCSR] else before.fcsr)
    && after.pc == (if SEPC in writes then writes[SEPC] else before.pc)
    && StatusBack(before, writes, after)
  }

  predicate StatusBack(before: Cpu, writes: FrameWrites, after: Cpu) {
    if SSTATUS in writes then
      var status := writes[SSTATUS];
      after.supervisor == Bit(status, SPP) && after.sstatus == WithFields(status, Bit(status, SPIE), true, false)
    else
      && after.supervisor == before.supervisor
      && after.sstatus == WithFields(before.sstatus, Bit(before.sstatus, SIE), true, false)
  }

  /** Restoring a frame gives back what was saved in it. */
  lemma RestoreGivesBack(c: Cpu, e: Entry)
    requires WellFormed(c) && EntryOk(e) && c.x[2] == Base(e) && FrameHeld(c.mem, e)
    ensures GivesBack(e.before, e.writes, Resumed(c))
  {
    var base, after := Base(e), Resumed(c);
    forall r | 1 <= r < 32 ensures after.x[r] == ExpectedWord(e, r) {
      assert after.x[r] == Load(c.mem, Slot(base, r));
    }
    forall r | 0 <= r < 32 ensures after.f[r] == ExpectedWord(e, 32 + r) {
      assert after.f[r] == Load(c.mem, Slot(base, 32 + r));
    }
    assert after.fcsr == Load(c.mem, Slot(base, FCSR)) == ExpectedWord(e, FCSR);
    assert after.pc == Load(c.mem, Slot(base, SEPC)) == ExpectedWord(e, SEPC);
    StatusRestored(c, e);
  }

  lemma StatusRestored(c: Cpu, e: Entry)
    requires WellFormed(c) && EntryOk(e) && c.x[2] == Base(e) && FrameHeld(c.mem, e)
    ensures StatusBack(e.before, e.writes, Resumed(c))
  {
    assert Load(c.mem, Slot(Base(e), SSTATUS)) == ExpectedWord(e, SSTATUS);
    var status, sie := e.before.sstatus, Bit(e.before.sstatus, SIE);
    LastFieldsCount(status, false, sie, e.before.supervisor, sie, true, false);
  }

  /** Every `sret` returns to the interrupted code with all it had, but for what was written to the frame. */
  lemma LeaveGivesBack(s: State, s': State)
    requires Inv(s) && LeaveStep(s, s')
    ensures GivesBack(Top(s).before, Top(s).writes, s'.cpu)
  {
    assert FrameHeld(s.cpu.mem, Top(s));
    RestoreGivesBack(s.cpu, Top(s));
  }

  lemma BackInHandler(e: Entry, after: Cpu)
    requires WellFormed(e.before) && GivesBack(e.before, e.writes, after) && 2 !in e.writes && SSTATUS !in e.writes
    ensures after.x[2] == e.before.x[2] && after.supervisor == e.before.supervisor
    ensures Bit(after.sstatus, SIE) == Bit(e.before.sstatus, SIE)
  {
  }

  lemma InnermostGone(mem: map<int, u64>, stack: seq<Entry>)
    requires stack != [] && FramesHeld(mem, stack) && Nested(stack)
    ensures FramesHeld(mem, stack[..|stack| - 1]) && Nested(stack[..|stack| - 1])
  {
  }

  lemma LeaveKeeps(s: State, s': State)
    requires Inv(s) && LeaveStep(s, s')
    ensures Inv(s')
  {
    LeaveGivesBack(s, s');
    var n := |s.stack| - 1;
    InnermostGone(s.cpu.mem, s.stack);
    if n > 0 {
      BackInHandler(Top(s), s'.cpu);
      assert s.stack[n].before.x[2] <= Base(s.stack[n - 1]);
    }
  }

  lemma HandlerKeeps(s: State, s': State)
    requires Inv(s) && HandlerStep(s, s')
    ensures Inv(s')
  {
    forall k | 0 <= k < |s.stack| ensures FrameHeld(s'.cpu.mem, s.stack[k]) {
      assert s.stack[k] in s.stack && FrameHeld(s.cpu.mem, s.stack[k]);
    }
  }

  lemma OtherKeeps(s: State, s': State)
    requires Inv(s) && (KernelStep(s, s') || RegisterStep(s, s'))
    ensures Inv(s')
  {
  }

  /** Every step keeps the invariant. */
  lemma NextKeeps(s: State, s': State)
    requires Inv(s) && Next(s, s')
    ensures Inv(s')
  {
    if KernelStep(s, s') || RegisterStep(s, s') {
      OtherKeeps(s, s');
    } else if HandlerStep(s, s') {
      HandlerKeeps(s, s');
    } else if LeaveStep(s, s') {
      LeaveKeeps(s, s');
    } else if DispatchStep(s, s') {
      DispatchKeeps(s, s');
    } else if cause, tval, vector :| EnterStep(s, s', cause, tval, vector) {
      EnterKeeps(s, s', cause, tval, vector);
    } else if w :| EffectStep(s, s', w) {
      EffectKeeps(s, s', w);
    }
  }

  // ------------------------------------------------------------------ runs

  ghost predicate IsRun(run: seq<State>) {
    && run != [] && run[0].stack == [] && WellFormed(run[0].cpu) && run[0].tables.Valid()
    && forall k :: 0 <= k < |run| - 1 ==> StepAt(run, k)
  }

  ghost predicate StepAt(run: seq<State>, k: nat)
    requires k + 1 < |run|
  {
    Next(run[k], run[k + 1])
  }

  lemma {:induction false} RunKeeps(run: seq<State>, k: nat)
    requires IsRun(run) && k < |run|
    ensures Inv(run[k])
  {
    if k > 0 {
      RunKeeps(run, k - 1);
      assert StepAt(run, k - 1);
      NextKeeps(run[k - 1], run[k]);
    }
  }

  /** Throughout every run, no handler ever has interrupts enabled, and frames of nested traps never meet. */
  lemma HandlersUninterrupted(run: seq<State>, k: nat)
    requires IsRun(run) && k < |run|
    ensures run[k].stack != [] ==> run[k].cpu.sstatus / 2 % 2 == 0 && run[k].cpu.supervisor
    ensures forall i, j :: 0 <= i < j < |run[k].stack| ==>
      && EntryOk(run[k].stack[i]) && EntryOk(run[k].stack[j])
      && Base(run[k].stack[j]) + FRAME_SIZE <= Base(run[k].stack[i])
  {
    RunKeeps(run, k);
  }

  /** The depth of nesting is bounded by the stack space at the outermost trap. */
  lemma {:induction false} DepthBounded(s: State, k: nat)
    requires Inv(s) && k < |s.stack|
    ensures FRAME_SIZE * (k + 1) <= s.stack[0].before.x[2] - Base(s.stack[k])
  {
    if k > 0 {
      DepthBounded(s, k - 1);
      assert s.stack[k].before.x[2] <= Base(s.stack[k - 1]);
    }
  }

  // ------------------------------------------------------------------ from a trap to its return

  /** The dispatch of a trap, seen from its record. */
  predicate CalledBy(t: Tables, e: Entry, e': Entry) {
    t.Valid() && e.writes == map[] && e' == e.(phase := Called(t.Dispatch(e.cause)))
  }

  /** The record of a trap that stays in progress changes only when it is dispatched or written to. */
  lemma RecordStep(s: State, s': State, d: nat)
    requires Inv(s) && Next(s, s') && d < |s.stack| && d < |s'.stack|
    ensures var e, e' := s.stack[d], s'.stack[d];
      || e' == e
      || (|s.stack| == d + 1 && CalledBy(s.tables, e, e'))
      || (|s.stack| == d + 1 && exists w :: EffectStep(s, s', w) && StoredBy(e, e', w))
  {
    OnlyTopChanges(s, s', d);
    if s'.stack[d] == s.stack[d] {
    } else if DispatchStep(s, s') {
      DispatchedCause(s);
    } else {
      var w :| EffectStep(s, s', w);
      EffectRecorded(s, s', w);
    }
  }

  lemma OnlyTopChanges(s: State, s': State, d: nat)
    requires Next(s, s') && d < |s.stack| && d < |s'.stack|
    ensures
      || s'.stack[d] == s.stack[d]
      || (|s.stack| == d + 1 && (DispatchStep(s, s') || exists w :: EffectStep(s, s', w)))
  {
  }

  lemma EffectRecorded(s: State, s': State, w: FrameWrites)
    requires Inv(s) && EffectStep(s, s', w)
    ensures s'.stack != [] && StoredBy(Top(s), Top(s'), w)
  {
    assert FrameHeld(s.cpu.mem, Top(s));
    StoresOk(s.cpu.mem, Top(s), |s.stack| == 1, w);
  }

  /** The stores of the code called for a trap, seen from its record. */
  predicate StoredBy(e: Entry, e': Entry, w: FrameWrites) {
    && e.phase.Called? && e' == e.(writes := e.writes + w)
    && (!e.phase.effect.FrameWriter? ==> e'.writes == w)
  }

  /** The trap at depth `d` was dispatched after step `i` with the tables of that moment. */
  ghost predicate WasCalled(run: seq<State>, i: nat, j: nat, d: nat, e: Entry)
    requires j <= |run|
  {
    exists k :: i < k < j && |run[k].stack| == d + 1 && run[k].tables.Valid()
      && e.phase == Called(run[k].tables.Dispatch(e.cause))
  }

  /** The trap at depth `d` had these words of its frame written after step `i`. */
  ghost predicate WasStored(run: seq<State>, i: nat, j: nat, d: nat, w: FrameWrites)
    requires j < |run|
  {
    exists k :: i < k < j && |run[k].stack| == d + 1 && EffectStep(run[k], run[k + 1], w)
  }

  /** All that was stored from step `i` to step `j` in the frame of the trap at depth `d`, the last store of a word
      counting. */
  ghost function StoredDuring(run: seq<State>, i: nat, j: nat, d: nat): FrameWrites
    requires i < j < |run|
    decreases j
  {
    if j == i + 1 then map[]
    else StoredDuring(run, i, j - 1, d) + StoredBetween(run[j - 1], run[j], d)
  }

  /** What a step stores in the frame of the trap at depth `d`. */
  ghost function StoredBetween(s: State, s': State, d: nat): FrameWrites {
    if |s.stack| == d + 1 && exists w :: EffectStep(s, s', w) then
      var w :| EffectStep(s, s', w); w
    else map[]
  }

  /** What the record of the trap taken at step `i` says at step `j`. */
  ghost predicate Recorded(run: seq<State>, i: nat, j: nat, d: nat, e: Entry)
    requires i < j < |run|
  {
    && e.before == run[i].cpu && e.cause == run[i + 1].cpu.scause
    && e.writes == StoredDuring(run, i, j, d)
    && (e.phase.Called? ==> WasCalled(run, i, j, d, e))
    && (e.phase.Called? && !e.phase.effect.FrameWriter? && e.writes != map[] ==> WasStored(run, i, j, d, e.writes))
  }

  /** The record of a trap keeps up with what is stored. */
  lemma StoresRecorded(s: State, s': State, d: nat)
    requires Next(s, s') && d < |s.stack| && d < |s'.stack|
    ensures s'.stack[d].writes == s.stack[d].writes + StoredBetween(s, s', d)
  {
    OnlyTopChanges(s, s', d);
    if |s.stack| == d + 1 && exists w :: EffectStep(s, s', w) {
      StoredOnTop(s, s', StoredBetween(s, s', d));
    } else {
      assert s.stack[d].writes + map[] == s.stack[d].writes;
      if s'.stack[d] != s.stack[d] { DispatchStoresNothing(s, s'); }
    }
  }

  lemma StoredOnTop(s: State, s': State, w: FrameWrites)
    requires EffectStep(s, s', w)
    ensures s'.stack != [] && |s'.stack| == |s.stack| && Top(s').writes == Top(s).writes + w
  {
  }

  lemma DispatchStoresNothing(s: State, s': State)
    requires DispatchStep(s, s')
    ensures s'.stack != [] && |s'.stack| == |s.stack| && Top(s').writes == Top(s).writes
  {
  }

  lemma RecordedFirst(run: seq<State>, i: nat)
    requires IsRun(run) && i + 1 < |run| && |run[i + 1].stack| == |run[i].stack| + 1
    ensures Recorded(run, i, i + 1, |run[i].stack|, run[i + 1].stack[|run[i].stack|])
  {
    assert StepAt(run, i);
    var cause, tval, vector :| EnterStep(run[i], run[i + 1], cause, tval, vector);
  }

  lemma RecordedNext(run: seq<State>, i: nat, j: nat, d: nat)
    requires IsRun(run) && i < j < |run| - 1
    requires d < |run[j].stack| && d < |run[j + 1].stack| && Recorded(run, i, j, d, run[j].stack[d])
    ensures Recorded(run, i, j + 1, d, run[j + 1].stack[d])
  {
    var e, e' := run[j].stack[d], run[j + 1].stack[d];
    assert StepAt(run, j);
    RunKeeps(run, j);
    RecordStep(run[j], run[j + 1], d);
    StoresRecorded(run[j], run[j + 1], d);
    if e' == e {
    } else if CalledBy(run[j].tables, e, e') {
      assert WasCalled(run, i, j + 1, d, e');
    } else {
      var w :| EffectStep(run[j], run[j + 1], w) && StoredBy(e, e', w);
      assert WasCalled(run, i, j + 1, d, e');
      assert WasStored(run, i, j + 1, d, w);
    }
  }

  lemma {:induction false} RecordedOverRun(run: seq<State>, i: nat, j: nat)
    requires IsRun(run) && i < j < |run| && |run[i + 1].stack| == |run[i].stack| + 1
    requires forall k :: i < k <= j ==> |run[k].stack| > |run[i].stack|
    ensures Recorded(run, i, j, |run[i].stack|, run[j].stack[|run[i].stack|])
    decreases j
  {
    if j == i + 1 {
      RecordedFirst(run, i);
    } else {
      RecordedOverRun(run, i, j - 1);
      RecordedNext(run, i, j - 1, |run[i].stack|);
    }
  }

  /** Nested traps unwind exactly. Take any run, with handlers registered at any time, a step `i` that takes a trap,
      and the first later step `j` that comes back to the same depth, with any number of traps nested in between. The
      trap was dispatched by its cause with the tables of some moment in between; the code called for it has done its
      work; and the interrupted code goes on with everything it had, but for the words that were stored in this trap's
      frame, which have the value of the last store. A handler that was interrupted gets back its stack pointer and
      status in any case. */
  lemma NestedTrapsUnwind(run: seq<State>, i: nat, j: nat) returns (e: Entry)
    requires IsRun(run) && i < j < |run| - 1
    requires |run[i + 1].stack| == |run[i].stack| + 1
    requires forall k :: i < k <= j ==> |run[k].stack| > |run[i].stack|
    requires |run[j + 1].stack| == |run[i].stack|
    ensures Recorded(run, i, j, |run[i].stack|, e) && Completed(e) && WritesOk(e)
    ensures WellFormed(run[i].cpu)
    ensures GivesBack(run[i].cpu, StoredDuring(run, i, j, |run[i].stack|), run[j + 1].cpu)
    ensures run[i].stack != [] ==> 2 !in e.writes && SSTATUS !in e.writes
  {
    RunKeeps(run, i);
    RecordedOverRun(run, i, j);
    e := ReturnAt(run, j);
  }

  lemma ReturnAt(run: seq<State>, j: nat) returns (e: Entry)
    requires IsRun(run) && j < |run| - 1 && |run[j + 1].stack| < |run[j].stack|
    ensures |run[j].stack| == |run[j + 1].stack| + 1 && e == Top(run[j])
    ensures EntryOk(e) && Completed(e) && WritesOk(e) && GivesBack(e.before, e.writes, run[j + 1].cpu)
    ensures |run[j].stack| > 1 ==> 2 !in e.writes && SSTATUS !in e.writes
  {
    RunKeeps(run, j);
    assert StepAt(run, j);
    ShrinksByReturn(run[j], run[j + 1]);
    e := Top(run[j]);
  }

  lemma ShrinksByReturn(s: State, s': State)
    requires Inv(s) && Next(s, s') && |s'.stack| < |s.stack|
    ensures |s.stack| == |s'.stack| + 1
    ensures EntryOk(Top(s)) && Completed(Top(s)) && WritesOk(Top(s))
    ensures GivesBack(Top(s).before, Top(s).writes, s'.cpu)
  {
    assert LeaveStep(s, s');
    LeaveGivesBack(s, s');
  }

  /** The hart after a trap that only its cause decides on: 9 is a system call, 3 a breakpoint. */
  ghost predicate GoesOn(before: Cpu, cause: u64, after: Cpu)
    requires WellFormed(before)
  {
    && WellFormed(after)
    && (forall r :: 0 <= r < 32 && !(r == 10 && cause == 9) ==> after.x[r] == before.x[r])
    && after.f == before.f && after.fcsr == before.fcsr
    && (cause != 9 && cause != 3 ==> after.pc == before.pc)
    && (cause == 9 || cause == 3 ==>
          after.pc == before.pc + 4 || after.pc == before.pc + 4 - 0x1_0000_0000_0000_0000)
    && after.supervisor == before.supervisor
    && after.sstatus == WithFields(before.sstatus, Bit(before.sstatus, SIE), true, false)
    && after.sstatus / 2 % 2 == before.sstatus / 2 % 2
  }

  lemma BootWrites(e: Entry, after: Cpu)
    requires WellFormed(e.before) && e.phase == Called(EffectOf(e.cause)) && Completed(e) && WritesOk(e)
    requires GivesBack(e.before, e.writes, after)
    ensures GoesOn(e.before, e.cause, after)
    ensures e.cause == SUPERVISOR_ECALL ==> 10 in e.writes && after.x[10] == e.writes[10]
  {
    var w := e.writes;
    assert 10 in w <==> e.cause == SUPERVISOR_ECALL;
    assert SEPC in w <==> e.cause == SUPERVISOR_ECALL || e.cause == BREAKPOINT;
    assert forall i :: i in w ==> i == 10 || i == SEPC;
  }

  /** The same with the handlers of the boot-time tables, in terms of the hart alone: the code goes on with every
      register as it was, `a0` apart after a system call, which holds what was stored for this very trap; at the saved
      address, four further after `ecall` and `ebreak`; in its own mode and with its own interrupt enable. */
  lemma BootTrapsUnwind(run: seq<State>, i: nat, j: nat)
    requires IsRun(run) && i < j < |run| - 1
    requires |run[i + 1].stack| == |run[i].stack| + 1
    requires forall k :: i < k <= j ==> |run[k].stack| > |run[i].stack|
    requires |run[j + 1].stack| == |run[i].stack|
    requires forall k :: i < k < j ==> run[k].tables.AtBoot()
    ensures WellFormed(run[i].cpu)
    ensures GoesOn(run[i].cpu, run[i + 1].cpu.scause, run[j + 1].cpu)
    ensures var cause, pc := run[i + 1].cpu.scause, run[i].cpu.pc;
      (cause == 3 || cause == 9) && pc < 0xffff_ffff_ffff_fffc ==> run[j + 1].cpu.pc == pc + 4
    ensures run[i + 1].cpu.scause == 9 ==>
      exists w: FrameWrites :: 10 in w && w[10] == run[j + 1].cpu.x[10] && WasStored(run, i, j, |run[i].stack|, w)
  {
    var e := NestedTrapsUnwind(run, i, j);
    var k :| i < k < j && |run[k].stack| == |run[i].stack| + 1 && run[k].tables.Valid()
      && e.phase == Called(run[k].tables.Dispatch(e.cause));
    BootEffect(run[k].tables, e.cause);
    BootWrites(e, run[j + 1].cpu);
    NextInstruction(run[i].cpu, e.cause, run[j + 1].cpu);
  }

  lemma NextInstruction(before: Cpu, cause: u64, after: Cpu)
    requires WellFormed(before) && GoesOn(before, cause, after)
    ensures (cause == 3 || cause == 9) && before.pc < 0xffff_ffff_ffff_fffc ==> after.pc == before.pc + 4
  {
  }

  // ------------------------------------------------------------------ the code as a whole

  /** A frame as the assembly saves it; nothing is stored in its word 0. */
  function SavedWords(c: Cpu, cause: u64, tval: u64, vector: u64): (words: seq<u64>)
    requires WellFormed(c) && c.x[2] >= FRAME_SIZE
    ensures |words| == FRAME_WORDS
  {
    seq(FRAME_WORDS, i requires 0 <= i < FRAME_WORDS =>
      if i == 0 then Load(c.mem, c.x[2] - FRAME_SIZE) else FrameWord(Taken(c, cause, tval, vector), i))
  }

  lemma SavedFrame(c: Cpu, cause: u64, tval: u64, vector: u64, c': Cpu)
    requires WellFormed(c) && c.x[2] >= FRAME_SIZE && Entered(c, cause, tval, vector, c')
    ensures FrameWords(c'.mem, c'.x[10]) == SavedWords(c, cause, tval, vector)
    ensures Load(c'.mem, Slot(c'.x[10], SCAUSE)) == cause
  {
    var saved, words, base := Taken(c, cause, tval, vector), FrameWords(c'.mem, c'.x[10]), c'.x[10];
    forall i | 0 <= i < FRAME_WORDS ensures words[i] == SavedWords(c, cause, tval, vector)[i] {
      assert i > 0 ==> Load(c'.mem, Slot(base, i)) == FrameWord(saved, i);
      assert i == 0 ==> Load(c'.mem, Slot(base, 0)) == Load(c.mem, base);
    }
    assert FrameWord(saved, SCAUSE) == cause;
  }

  /** The branch of `handle_trap` and the C side, with any tables. */
  method HandleTrap(hart: Hart, vectors: Vectors, result: SyscallBody, body: HandlerBody) returns (halted: bool)
    requires |hart.x| == 32 && hart.x[6] == SUPERVISOR_ECALL
    requires hart.x[5] == Load(hart.mem, Slot(hart.x[10], SCAUSE))
    requires vectors.Valid()
    modifies hart`mem, vectors`trapCount
    ensures var mem, frame := old(hart.mem), hart.x[10];
      var outcome := vectors.Contents().TrapOutcome(FrameWords(mem, frame), result, body);
      && halted == outcome.Hangs?
      && (!halted ==>
            Stores(mem, hart.mem, frame, outcome.frame) && StoresOutside(mem, hart.mem, frame, outcome.others))
  {
    halted := false;
    if hart.x[5] == hart.x[6] {
      var ran := vectors.HandleSyscall(hart, hart.x[10], result);
    } else {
      var ran;
      ran, halted := vectors.HandleException(hart, hart.x[10], body);
    }
  }

  /** One trap from beginning to end, with any tables. It halts when the handler its cause selects does, and
      otherwise gives the interrupted code everything back but for what that handler stores in the frame; outside
      the frame memory has what that handler stores there and is otherwise as it was. */
  method TrapPath(hart: Hart, vectors: Vectors, cause: u64, tval: u64, vector: u64,
                  result: SyscallBody, body: HandlerBody)
    returns (halted: bool)
    requires WellFormed(hart.Snapshot()) && hart.x[2] >= FRAME_SIZE
    requires vectors.Valid()
    modifies hart, vectors`trapCount
    ensures var before := old(hart.Snapshot());
      var outcome := vectors.Contents().TrapOutcome(SavedWords(before, cause, tval, vector), result, body);
      && halted == outcome.Hangs?
      && (!halted ==>
            && GivesBack(before, outcome.frame, hart.Snapshot())
            && StoresOutside(before.mem, hart.mem, before.x[2] - FRAME_SIZE, outcome.others))
  {
    ghost var before := hart.Snapshot();
    hart.TrapHandler(cause, tval, vector);
    ghost var entered := hart.Snapshot();
    SavedFrame(before, cause, tval, vector, entered);
    halted := HandleTrap(hart, vectors, result, body);
    ghost var served, words := hart.Snapshot(), SavedWords(before, cause, tval, vector);
    ghost var outcome := vectors.Contents().TrapOutcome(words, result, body);
    if !halted {
      OneTrap(before, cause, tval, vector, entered, outcome.frame, served);
      KeptThenStored(before.mem, entered.mem, served.mem, before.x[2] - FRAME_SIZE, outcome.others);
      hart.RestoreRegisters();
    }
  }

  /** The same, and what it comes to for a system call under any tables, and for every cause under the tables of
      `exception_init`: the exceptions other than 3 and 9 halt, everything else goes on. */
  method ServeTrap(hart: Hart, vectors: Vectors, cause: u64, tval: u64, vector: u64,
                   result: SyscallBody, body: HandlerBody)
    returns (halted: bool)
    requires WellFormed(hart.Snapshot()) && hart.x[2] >= FRAME_SIZE
    requires vectors.Valid()
    modifies hart, vectors`trapCount
    ensures var before := old(hart.Snapshot());
      var outcome := vectors.Contents().TrapOutcome(SavedWords(before, cause, tval, vector), result, body);
      && halted == outcome.Hangs?
      && (!halted ==>
            && GivesBack(before, outcome.frame, hart.Snapshot())
            && StoresOutside(before.mem, hart.mem, before.x[2] - FRAME_SIZE, outcome.others))
    ensures cause == 9 ==> !halted && CallReturned(vectors.Contents(), old(hart.Snapshot()), result, hart.Snapshot())
    ensures vectors.Contents().AtBoot() ==>
      && halted == (cause < 0x8000_0000_0000_0000 && cause != 3 && cause != 9)
      && (!halted ==> GoesOn(old(hart.Snapshot()), cause, hart.Snapshot()))
  {
    ghost var before, t := hart.Snapshot(), vectors.Contents();
    halted := TrapPath(hart, vectors, cause, tval, vector, result, body);
    CallServed(t, before, cause, tval, vector, result, body, hart.Snapshot());
    BootServed(t, before, cause, tval, vector, result, body, hart.Snapshot());
  }

  /** After a system call the code goes on four bytes further, with the result of the function that `a7` selects for
      `a0` to `a5`. */
  ghost predicate CallReturned(t: Tables, before: Cpu, result: SyscallBody, after: Cpu)
    requires t.Valid() && WellFormed(before)
  {
    && WellFormed(after)
    && (after.pc == before.pc + 4 || after.pc == before.pc + 4 - 0x1_0000_0000_0000_0000)
    && after.x[10] == result(t.SelectedSyscall(before.x[17]),
         [before.x[10], before.x[11], before.x[12], before.x[13], before.x[14], before.x[15]])
  }

  lemma CallServed(t: Tables, c: Cpu, cause: u64, tval: u64, vector: u64, result: SyscallBody, body: HandlerBody,
                   after: Cpu)
    requires t.Valid() && WellFormed(c) && c.x[2] >= FRAME_SIZE
    ensures var outcome := t.TrapOutcome(SavedWords(c, cause, tval, vector), result, body);
      cause == 9 ==>
        outcome.Returns? && (GivesBack(c, outcome.frame, after) ==> CallReturned(t, c, result, after))
  {
    var words := SavedWords(c, cause, tval, vector);
    SavedArguments(c, words[10..16], cause, tval, vector);
    SavedOthers(c, words, cause, tval, vector);
  }

  lemma SavedOthers(c: Cpu, words: seq<u64>, cause: u64, tval: u64, vector: u64)
    requires WellFormed(c) && c.x[2] >= FRAME_SIZE && words == SavedWords(c, cause, tval, vector)
    ensures words[SCAUSE] == cause && words[17] == c.x[17] && words[SEPC] == c.pc
  {
  }

  lemma SavedArguments(c: Cpu, arguments: seq<u64>, cause: u64, tval: u64, vector: u64)
    requires WellFormed(c) && c.x[2] >= FRAME_SIZE && arguments == SavedWords(c, cause, tval, vector)[10..16]
    ensures arguments == [c.x[10], c.x[11], c.x[12], c.x[13], c.x[14], c.x[15]]
  {
  }

  lemma BootServed(t: Tables, c: Cpu, cause: u64, tval: u64, vector: u64, result: SyscallBody, body: HandlerBody,
                   after: Cpu)
    requires t.Valid() && WellFormed(c) && c.x[2] >= FRAME_SIZE
    ensures var outcome := t.TrapOutcome(SavedWords(c, cause, tval, vector), result, body);
      t.AtBoot() ==>
        && outcome.Hangs? == (cause < 0x8000_0000_0000_0000 && cause != 3 && cause != 9)
        && (outcome.Returns? && GivesBack(c, outcome.frame, after) ==> GoesOn(c, cause, after))
  {
    var outcome := t.TrapOutcome(SavedWords(c, cause, tval, vector), result, body);
    if t.AtBoot() {
      BootEffect(t, cause);
      assert SavedWords(c, cause, tval, vector)[SCAUSE] == cause && SavedWords(c, cause, tval, vector)[SEPC] == c.pc;
      if outcome.Returns? && GivesBack(c, outcome.frame, after) {
        BootWrites(Entry(c, cause, tval, vector, Called(EffectOf(cause)), outcome.frame), after);
      }
    }
  }

  lemma OneTrap(c: Cpu, cause: u64, tval: u64, vector: u64, entered: Cpu, writes: FrameWrites, served: Cpu)
    requires WellFormed(c) && c.x[2] >= FRAME_SIZE && Entered(c, cause, tval, vector, entered)
    requires Stores(entered.mem, served.mem, entered.x[10], writes) && served == entered.(mem := served.mem)
    ensures GivesBack(c, writes, Resumed(served))
  {
    var e := Entry(c, cause, tval, vector, Waiting, map[]);
    assert FrameHeld(entered.mem, e);
    StoresHeld(entered.mem, served.mem, e, writes);
    assert e.writes + writes == writes;
    RestoreGivesBack(served, e.(writes := writes));
  }

  lemma KeptThenStored(mem: map<int, u64>, mem': map<int, u64>, mem'': map<int, u64>, base: int,
                       others: map<int, u64>)
    requires OutsideKept(mem, mem', base) && StoresOutside(mem', mem'', base, others)
    ensures StoresOutside(mem, mem'', base, others)
  {
    forall a {:trigger Load(mem'', a)} | !(base + 8 <= a < base + FRAME_SIZE)
      ensures Load(mem'', a) == if a in others then others[a] else Load(mem, a)
    {
      assert a !in others ==> Load(mem'', a) == Load(mem', a);
    }
  }

  /** What the C side stores in a frame is what the steps above let it store; a function installed later has to leave
      the stack pointer and the status of an interrupted handler alone. */
  lemma CodeMayStore(e: Entry, outermost: bool, tables: Tables, mem: map<int, u64>, result: SyscallBody,
                     body: HandlerBody)
    requires tables.Valid() && EntryOk(e) && FrameHeld(mem, e)
    requires e.writes == map[] && e.phase == Called(tables.Dispatch(e.cause))
    ensures var words := FrameWords(mem, Base(e));
      match tables.TrapOutcome(words, result, body)
      case Hangs => e.phase.effect.Halts? || e.phase.effect.FrameWriter?
      case Returns(w, _) =>
        match e.phase.effect
        case Untouched => w == map[]
        case Halts => false
        case FrameWriter => MayStore(e, outermost, words[SEPC], w) <==> outermost || (2 !in w && SSTATUS !in w)
        case _ => MayStore(e, outermost, words[SEPC], w)
  {
    var words := FrameWords(mem, Base(e));
    assert words[SCAUSE] == Load(mem, Slot(Base(e), SCAUSE)) == ExpectedWord(e, SCAUSE) == e.cause;
    if e.cause != SUPERVISOR_ECALL {
      HandlersAreNoSyscalls(tables.Selected(e.cause));
    } else {
      assert tables.SyscallWrites(words, result).Keys == {10, SEPC};
    }
  }
}

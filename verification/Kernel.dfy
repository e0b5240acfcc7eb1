/** The C side of the trap path, src/exception/exception.c: handler tables and dispatch. */
module Kernel {
  import opened CTypes
  import opened Bits
  import opened Numerals
  import opened Trap

  const INTERRUPT_BIT: u64 := 0x8000_0000_0000_0000

  /** The functions a table entry can point to; `Registered` stands for any function installed later. */
  datatype Handler = DefaultException | DefaultInterrupt | EbreakHandler | Registered(id: nat)

  datatype SyscallHandler = NoHandler | DefaultSyscall | RegisteredSyscall(id: nat)

  /** What the C code does to the frame it is given; a function installed later may write any of it. */
  datatype Effect = Untouched | SkipInstruction | SyscallReturn | Halts | FrameWriter

  function HandlerEffect(h: Handler): Effect {
    match h
    case DefaultException => Halts
    case EbreakHandler => SkipInstruction
    case DefaultInterrupt => Untouched
    case Registered(_) => FrameWriter
  }

  /** The effect of a trap on its frame under the tables that `exception_init` sets up, by cause alone. */
  function EffectOf(cause: u64): Effect {
    if cause == SUPERVISOR_ECALL then SyscallReturn
    else if cause >= INTERRUPT_BIT then Untouched
    else if cause == BREAKPOINT then SkipInstruction
    else Halts
  }

  function Plus4(pc: u64): u64 { (pc + 4) % TWO64 }

  // ------------------------------------------------------------------ what is written to a frame

  /** Values for words of a frame. Word 0, which nothing ever restores, is not among them. */
  type FrameWrites = w: map<nat, u64> | forall i :: i in w ==> 1 <= i < FRAME_WORDS

  /** The words `w` of the frame at `base` have been stored, and its other words are as they were. */
  ghost predicate Stores(mem: map<int, u64>, mem': map<int, u64>, base: int, w: FrameWrites) {
    forall i :: 1 <= i < FRAME_WORDS ==>
      Load(mem', Slot(base, i)) == if i in w then w[i] else Load(mem, Slot(base, i))
  }

  /** Outside the frame at `base` the words of `others` have been stored, and nothing else. */
  ghost predicate StoresOutside(mem: map<int, u64>, mem': map<int, u64>, base: int, others: map<int, u64>) {
    forall a {:trigger Load(mem', a)} :: !(base + 8 <= a < base + FRAME_SIZE) ==>
      Load(mem', a) == if a in others then others[a] else Load(mem, a)
  }

  /** A frame as the C code sees it. */
  function FrameWords(mem: map<int, u64>, base: int): (words: seq<u64>)
    ensures |words| == FRAME_WORDS
  {
    seq(FRAME_WORDS, i => Load(mem, Slot(base, i)))
  }

  /** What a handler does: it never returns, or it returns having stored words of the frame and words elsewhere. */
  datatype Outcome = Hangs | Returns(frame: FrameWrites, others: map<int, u64>)

  /** What a function installed later does with the frame it is given. */
  type HandlerBody = (nat, seq<u64>) -> Outcome

  /** What a system call function returns for its six arguments. */
  type SyscallBody = (SyscallHandler, seq<u64>) -> u64

  function HandlerOutcome(h: Handler, words: seq<u64>, body: HandlerBody): Outcome
    requires |words| == FRAME_WORDS
  {
    match h
    case DefaultException => Hangs
    case DefaultInterrupt => Returns(map[], map[])
    case EbreakHandler => Returns(map[SEPC := Plus4(words[SEPC])], map[])
    case Registered(id) => body(id, words)
  }

  // ------------------------------------------------------------------ the tables

  datatype Tables = Tables(exceptions: seq<Handler>, interrupts: seq<Handler>, syscalls: seq<SyscallHandler>)
  {
    predicate Valid() { |exceptions| == |interrupts| == 16 && |syscalls| == 256 }

    /** As `exception_init` leaves them. */
    predicate AtBoot() {
      && Valid()
      && (forall i :: 0 <= i < 16 ==> exceptions[i] == if i == BREAKPOINT then EbreakHandler else DefaultException)
      && (forall i :: 0 <= i < 16 ==> interrupts[i] == DefaultInterrupt)
      && (forall i :: 0 <= i < 256 ==> syscalls[i] == DefaultSyscall)
    }

    /** The handler a cause selects. */
    function Selected(cause: u64): Handler
      requires Valid()
    {
      if cause >= INTERRUPT_BIT then
        if cause - INTERRUPT_BIT < 16 then interrupts[cause - INTERRUPT_BIT] else DefaultInterrupt
      else if cause < 16 then exceptions[cause] else DefaultException
    }

    function SelectedSyscall(number: u64): SyscallHandler
      requires Valid()
    {
      if number < 256 && syscalls[number] != NoHandler then syscalls[number] else DefaultSyscall
    }

    /** The effect of a trap on its frame: the assembly tells system calls apart, the tables decide on the rest. */
    function Dispatch(cause: u64): Effect
      requires Valid()
    {
      if cause == SUPERVISOR_ECALL then SyscallReturn else HandlerEffect(Selected(cause))
    }

    function SyscallWrites(words: seq<u64>, result: SyscallBody): FrameWrites
      requires Valid() && |words| == FRAME_WORDS
    {
      map[10 := result(SelectedSyscall(words[17]), words[10..16]), SEPC := Plus4(words[SEPC])]
    }

    /** All that the C side does for one trap. */
    function TrapOutcome(words: seq<u64>, result: SyscallBody, body: HandlerBody): Outcome
      requires Valid() && |words| == FRAME_WORDS
    {
      if words[SCAUSE] == SUPERVISOR_ECALL then Returns(SyscallWrites(words, result), map[])
      else HandlerOutcome(Selected(words[SCAUSE]), words, body)
    }
  }

  lemma InterruptBit(cause: u64)
    ensures BitAnd(cause, INTERRUPT_BIT) != 0 <==> cause >= INTERRUPT_BIT
    ensures BitAnd(cause, Not64(INTERRUPT_BIT)) == if cause >= INTERRUPT_BIT then cause - INTERRUPT_BIT else cause
  {
    Word64();
    assert Pow(2, 64) == 2 * Pow(2, 63);
    var q := HighMask(cause, 64, 63);
    assert q == if cause >= INTERRUPT_BIT then 1 else 0;
    MaskIsMod(cause, 63);
  }

  class Vectors {
    const exceptions: array<Handler>
    const interrupts: array<Handler>
    const syscalls: array<SyscallHandler>
    var trapCount: u64

    ghost predicate Valid()
      reads this, exceptions, interrupts, syscalls
    {
      exceptions.Length == interrupts.Length == 16 && syscalls.Length == 256 && exceptions != interrupts
    }

    ghost function Contents(): (t: Tables)
      requires Valid()
      reads this, exceptions, interrupts, syscalls
      ensures t.Valid()
    {
      Tables(exceptions[..], interrupts[..], syscalls[..])
    }

    /** `exception_init`. */
    constructor ()
      ensures Valid() && fresh(exceptions) && fresh(interrupts) && fresh(syscalls) && trapCount == 0
      ensures Contents().AtBoot()
    {
      exceptions := new Handler[16](_ => DefaultException);
      interrupts := new Handler[16](_ => DefaultInterrupt);
      syscalls := new SyscallHandler[256](_ => DefaultSyscall);
      trapCount := 0;
      new;
      RegisterException(BREAKPOINT, EbreakHandler);
    }

    method RegisterException(cause: u64, handler: Handler)
      requires Valid()
      modifies exceptions
      ensures exceptions[..] == if cause < 16 then old(exceptions[..])[cause := handler] else old(exceptions[..])
    {
      if cause < 16 {
        exceptions[cause] := handler;
      }
    }

    method RegisterInterrupt(cause: u64, handler: Handler)
      requires Valid()
      modifies interrupts
      ensures interrupts[..] == if cause < 16 then old(interrupts[..])[cause := handler] else old(interrupts[..])
    {
      if cause < 16 {
        interrupts[cause] := handler;
      }
    }

    method RegisterSyscall(number: u64, handler: SyscallHandler)
      requires Valid()
      modifies syscalls
      ensures syscalls[..] == if number < 256 then old(syscalls[..])[number := handler] else old(syscalls[..])
    {
      if number < 256 {
        syscalls[number] := handler;
      }
    }

    /** `handle_exception`: the handler the cause selects runs on the frame; `halted` when it does not return. */
    method HandleException(hart: Hart, frame: int, body: HandlerBody) returns (ran: Handler, halted: bool)
      requires Valid()
      modifies this`trapCount, hart`mem
      ensures ran == Contents().Selected(Load(old(hart.mem), Slot(frame, SCAUSE)))
      ensures var mem := old(hart.mem); var outcome := HandlerOutcome(ran, FrameWords(mem, frame), body);
        && halted == outcome.Hangs?
        && (!halted ==>
              Stores(mem, hart.mem, frame, outcome.frame) && StoresOutside(mem, hart.mem, frame, outcome.others))
      ensures trapCount == (old(trapCount) + 1) % TWO64
    {
      var cause := Load(hart.mem, Slot(frame, SCAUSE));
      trapCount := (trapCount + 1) % TWO64;
      InterruptBit(cause);
      if BitAnd(cause, INTERRUPT_BIT) != 0 {
        var interruptCause := BitAnd(cause, Not64(INTERRUPT_BIT));
        ran := DefaultInterrupt;
        if interruptCause < 16 {
          ran := interrupts[interruptCause];
        }
      } else {
        ran := DefaultException;
        if cause < 16 {
          ran := exceptions[cause];
        }
      }
      halted := RunHandler(ran, hart, frame, body);
    }

    /** The handlers' own bodies, as far as memory shared with the rest is concerned. */
    method RunHandler(h: Handler, hart: Hart, frame: int, body: HandlerBody) returns (halted: bool)
      modifies hart`mem
      ensures var mem := old(hart.mem); var outcome := HandlerOutcome(h, FrameWords(mem, frame), body);
        && halted == outcome.Hangs?
        && (!halted ==>
              Stores(mem, hart.mem, frame, outcome.frame) && StoresOutside(mem, hart.mem, frame, outcome.others))
    {
      halted := h.DefaultException?;
      if h.EbreakHandler? {
        hart.mem := hart.mem[Slot(frame, SEPC) := Plus4(Load(hart.mem, Slot(frame, SEPC)))];
      } else if h.Registered? {
        var outcome := body(h.id, FrameWords(hart.mem, frame));
        halted := outcome.Hangs?;
        if !halted {
          StoreAll(hart, frame, outcome.frame, outcome.others);
        }
      }
    }

    /** The stores of a function that is not part of this model. */
    method StoreAll(hart: Hart, frame: int, w: FrameWrites, others: map<int, u64>)
      modifies hart`mem
      ensures Stores(old(hart.mem), hart.mem, frame, w) && StoresOutside(old(hart.mem), hart.mem, frame, others)
    {
      hart.mem := hart.mem + map a | a in others && !(frame + 8 <= a < frame + FRAME_SIZE) :: others[a];
      ghost var mem := hart.mem;
      StoreWords(hart, frame, w);
      assert forall a {:trigger Load(hart.mem, a)} :: !(frame + 8 <= a < frame + FRAME_SIZE) ==>
        Load(hart.mem, a) == Load(mem, a);
    }

    method StoreWords(hart: Hart, frame: int, w: FrameWrites)
      modifies hart`mem
      ensures Stores(old(hart.mem), hart.mem, frame, w) && OutsideKept(old(hart.mem), hart.mem, frame)
    {
      for i := 1 to FRAME_WORDS
        invariant OutsideKept(old(hart.mem), hart.mem, frame)
        invariant forall k :: 1 <= k < FRAME_WORDS ==>
          Load(hart.mem, Slot(frame, k)) == if k < i && k in w then w[k] else Load(old(hart.mem), Slot(frame, k))
      {
        if i in w {
          ghost var was := hart.mem;
          hart.mem := hart.mem[Slot(frame, i) := w[i]];
          assert forall a {:trigger Load(hart.mem, a)} :: a != Slot(frame, i) ==> Load(hart.mem, a) == Load(was, a);
        }
      }
    }

    /** `handle_syscall`; `result` is what the selected function returns for the arguments in the frame. */
    method HandleSyscall(hart: Hart, frame: int, result: SyscallBody) returns (ran: SyscallHandler)
      requires Valid()
      modifies hart`mem
      ensures ran == Contents().SelectedSyscall(Load(old(hart.mem), Slot(frame, 17)))
      ensures var mem := old(hart.mem);
        && Stores(mem, hart.mem, frame, Contents().SyscallWrites(FrameWords(mem, frame), result))
        && OutsideKept(mem, hart.mem, frame)
    {
      var number := Load(hart.mem, Slot(frame, 17));
      var arguments := [
        Load(hart.mem, Slot(frame, 10)), Load(hart.mem, Slot(frame, 11)), Load(hart.mem, Slot(frame, 12)),
        Load(hart.mem, Slot(frame, 13)), Load(hart.mem, Slot(frame, 14)), Load(hart.mem, Slot(frame, 15))
      ];
      assert arguments == FrameWords(hart.mem, frame)[10..16];
      ran := DefaultSyscall;
      if number < 256 && syscalls[number] != NoHandler {
        ran := syscalls[number];
      }
      var ret := result(ran, arguments);
      hart.mem := hart.mem[Slot(frame, 10) := ret];
      hart.mem := hart.mem[Slot(frame, SEPC) := Plus4(Load(hart.mem, Slot(frame, SEPC)))];
    }
  }

  // ------------------------------------------------------------------ what is registered is what runs

  lemma ArgumentWords(mem: map<int, u64>, frame: int)
    ensures FrameWords(mem, frame)[10..16] ==
      [Load(mem, frame + 80), Load(mem, frame + 88), Load(mem, frame + 96),
       Load(mem, frame + 104), Load(mem, frame + 112), Load(mem, frame + 120)]
  {
  }

  /** What a system call leaves in its frame: the result for the six argument registers in word 10, and a saved
      address that has moved four bytes on. */
  lemma SyscallFrame(t: Tables, mem: map<int, u64>, mem': map<int, u64>, frame: int, ran: SyscallHandler,
                     result: SyscallBody)
    requires t.Valid() && ran == t.SelectedSyscall(Load(mem, Slot(frame, 17)))
    requires Stores(mem, mem', frame, t.SyscallWrites(FrameWords(mem, frame), result))
    ensures Load(mem', frame + 8 * 10) == result(ran,
      [Load(mem, frame + 80), Load(mem, frame + 88), Load(mem, frame + 96),
       Load(mem, frame + 104), Load(mem, frame + 112), Load(mem, frame + 120)])
    ensures Load(mem, frame + 512) + 4 < 0x1_0000_0000_0000_0000 ==>
      Load(mem', frame + 512) == Load(mem, frame + 512) + 4
    ensures forall i :: 1 <= i < 69 && i != 10 && i != 64 ==> Load(mem', frame + 8 * i) == Load(mem, frame + 8 * i)
  {
    ArgumentWords(mem, frame);
    forall i | 1 <= i < 69 && i != 10 && i != 64 ensures Load(mem', frame + 8 * i) == Load(mem, frame + 8 * i) {
      assert Load(mem', Slot(frame, i)) == Load(mem, Slot(frame, i));
    }
    assert Slot(frame, 10) == frame + 80 && Slot(frame, 64) == frame + 512;
  }

  /** `register_syscall_handler` and then a system call: the registered function runs for its number and gives the
      caller its result for the six argument registers; no other number is affected. */
  method RegisterThenCall(vectors: Vectors, hart: Hart, frame: int, number: u64, handler: SyscallHandler,
                          result: SyscallBody)
    returns (ran: SyscallHandler)
    requires vectors.Valid() && number < 256 && handler != NoHandler
    modifies vectors.syscalls, hart`mem
    ensures var mem, called := old(hart.mem), Load(old(hart.mem), frame + 8 * 17);
      && (called == number ==> ran == handler)
      && (called < 256 && called != number && old(vectors.syscalls[called]) != NoHandler ==>
            ran == old(vectors.syscalls[called]))
      && (called >= 256 ==> ran == DefaultSyscall)
      && Load(hart.mem, frame + 8 * 10) == result(ran,
           [Load(mem, frame + 80), Load(mem, frame + 88), Load(mem, frame + 96),
            Load(mem, frame + 104), Load(mem, frame + 112), Load(mem, frame + 120)])
      && (Load(mem, frame + 512) + 4 < 0x1_0000_0000_0000_0000 ==>
            Load(hart.mem, frame + 512) == Load(mem, frame + 512) + 4)
  {
    ghost var mem := hart.mem;
    vectors.RegisterSyscall(number, handler);
    ran := vectors.HandleSyscall(hart, frame, result);
    SyscallFrame(vectors.Contents(), mem, hart.mem, frame, ran, result);
  }

  /** `register_exception_handler` and then an exception, and `register_interrupt_handler` and then an interrupt:
      the registered function runs for its cause, and no other cause is affected. */
  method RegisterThenTrap(vectors: Vectors, hart: Hart, frame: int, cause: u64, interrupt: bool, handler: Handler,
                          body: HandlerBody)
    returns (ran: Handler, halted: bool)
    requires vectors.Valid() && cause < 16
    modifies vectors.exceptions, vectors.interrupts, vectors`trapCount, hart`mem
    ensures var taken, top := Load(old(hart.mem), frame + 8 * 65), 0x8000_0000_0000_0000;
      && (taken == (if interrupt then top + cause else cause) ==> ran == handler)
      && (taken < 16 && (interrupt || taken != cause) ==> ran == old(vectors.exceptions[taken]))
      && (16 <= taken < top ==> ran == DefaultException)
      && (top <= taken < top + 16 && (!interrupt || taken != top + cause) ==>
            ran == old(vectors.interrupts[taken - top]))
      && (taken >= top + 16 ==> ran == DefaultInterrupt)
  {
    if interrupt {
      vectors.RegisterInterrupt(cause, handler);
    } else {
      vectors.RegisterException(cause, handler);
    }
    ran, halted := vectors.HandleException(hart, frame, body);
  }

  /** Under the tables `exception_init` sets up, dispatch has exactly the effect the cause determines, for causes
      of all 64 bits. */
  lemma BootEffect(t: Tables, cause: u64)
    requires t.AtBoot()
    ensures t.Dispatch(cause) == EffectOf(cause)
  {
  }
}

# testos-riscv: verified models of its hardware-independent code

Dafny 4.11 models of the formatter, the number printers and parsers, the string and memory loops, the line editors,
the heap, the trap path and the tick clock of testos-riscv, with proofs. `dafny verify dfyconfig.toml` checks all of it.

| file | what it holds |
|---|---|
| `CTypes.dfy` | C integer types, C strings, byte-sequence vocabulary |
| `Numerals.dfy`, `Reversal.dfy` | positional numerals and their uniqueness; the digit loops, which write a number backwards, and the loops that reverse it in place |
| `Bits.dfy` | bitwise `and` and shifts on binary digits, the alignment macros |
| `Format.dfy`, `Logger.dfy`, `Meaning.dfy` | what a format means; the stream, the printers and the `morefmt` state machine; the formatter against the syntax its users write |
| `Printed.dfy` | what every conversion of both formatters prints, said of the characters of the format and of the text |
| `Sprintf.dfy`, `Parse.dfy`, `Agreement.dfy` | the second formatter; `atol`; agreement and print/parse round trips |
| `Uart.dfy`, `Printers.dfy` | the console's number printers; all printers side by side; scratch-array bounds |
| `Strings.dfy`, `MemOps.dfy` | comparison and search; overlapping copies |
| `LineEditor.dfy` | the two `gets` loops and the terminal |
| `Heap.dfy` | the bump allocator and runs of requests |
| `Trap.dfy`, `Kernel.dfy`, `Nesting.dfy` | save and restore of the trap frame; C dispatch; runs of nested traps |
| `Timer.dfy` | the tick clock and its drift |

How the C code is represented:

- A `char` is an unsigned byte. A C string is the bytes up to and including its only NUL, so the index checks of
  every loop are also proofs that no terminator is passed. `int`, `long` and `uint64_t` values that the proofs must
  keep in range are range types; where the source wraps around, the wrap is written out.
- An object whose fields the source updates is a class, a buffer it edits is an array, a `goto` loop is a `while`
  loop. Straight-line runs of stores or loads of numbered registers in the assembly are written as counted loops, and
  the hart's register files and memory are fields that are reassigned.
- A loop with a long body has the body as a method of its own.
- `a & b` and `a >> k` are defined by recursion on binary digits, and related to division by proof.
- The console sends CR before every LF, as `dw_uart_putchar` does; the generic printers run on top of it.

Preconditions that the source leaves to its callers: output buffers of size at least 1; arguments of the types the
directives need; no most negative 64-bit number among signed arguments; widths and the total length within `int`;
`count > 0` for `calloc`; enough stack below the interrupted code for a frame; enough keys for `gets` to return; no
counter wrap in the clock.

Results that qualify what one might expect of the code:

- A zero-padded, prefixed, left-justified hexadecimal field (`%#0-9x`) that is wider than the digits comes out too wide:
  by one character when it is one wider than the digits, else by two (`Format.UnsignedFieldWidth`, at concrete numbers
  `Meaning.TooWide`; the comment at logger.c:85 suggests that `-` simply overrides `0`).
- `%0<width>ld` puts zeros in front of a minus sign, and then `atol` reads 0 (`Agreement.PrintParse`; `%03ld` of -5 in
  `Agreement.MinusAfterZero`).
- The 26-byte scratch array of `print_int` is large enough exactly for bases from 7 on, the 27 bytes of
  `print_unsigned` for bases from 6 on; the callers use 10 and 16.
- `malloc` is sound exactly when the rounded request does not wrap past 2^64 (`Heap.MallocSoundExactly`); a request of
  2^64 - 1 bytes gets a pointer and no bytes (`Heap.MallocWraps`). For `aligned_alloc` the padding must not wrap either,
  unless what is left of the request is refused (`Heap.AlignedAllocSoundExactly`, `Heap.AlignedAllocWraps`).
- `memcpy` is `memmove` exactly when the destination does not start strictly inside the source; otherwise it repeats
  the bytes between the two starts (`MemOps.MemcpyIsMemmove`).
- The two line editors echo the same bytes exactly when no LF is typed (`LineEditor.GetsAgree`).
- The trap frame declared in `include/exception.h` names its last words after the M-mode registers; the code in
  `src/exception/exception.c` and `exception.S` uses the S-mode ones, and the model follows the code.
- The comment in `mem_init` speaks of 128 MB of memory and a 64 MB heap; the code and `include/cfg/cfg.h` have 256 MB
  less 32 MB at the end, and the model follows the code.

## Model

| member | source | states |
|---|---|---|
| Numerals.NumeralMeans | src/lib/logger.c:104-113 | the printed digits are a well-formed numeral without leading zeros whose value is the number |
| Numerals.NumeralUnique | src/lib/logger.c:104-113 | that numeral is the only one: a text is a numeral exactly when it is the one printed for its value |
| Numerals.DigitCount | src/lib/logger.c:96-107 | a number has at most k digits exactly when it is below the k-th power of the base |
| Numerals.DigitTables | src/lib/logger.c:57 | the digit characters of both cases are those of the two tables and read back as their values |
| Numerals.NumeralSplits | src/lib/logger.c:104-107 | a numeral of several digits is that of the quotient and the table's character for the remainder |
| Reversal.PutDigits | src/lib/logger.c:104-107 | the digit loop leaves the digits of the number backwards |
| Reversal.DoDigits | src/lib/string.c:207-212 | the do-while loop leaves the numeral backwards, zero included, and the bytes around it as they were |
| Reversal.SwapHalves | src/lib/logger.c:115-120 | the counting swap loop reverses the first n bytes and nothing else |
| Reversal.SwapInward | src/lib/string.c:217-225 | the pointer swap loop reverses the bytes between two positions and nothing else |
| Bits.Nibble | src/lib/string.c:244-247 | masking with 0xF and shifting by 4 are remainder and quotient by 16 |
| Bits.PowerOfTwoTest | src/mem/mem.c:131-134 | x & (x-1) is zero exactly for the powers of two, for x above 0 |
| Bits.AlignUpIsLeast | include/types.h:36 | ALIGN_UP by masks is the least multiple not below the address, when the sum does not wrap |
| Bits.AlignDownIsGreatest | include/types.h:37 | ALIGN_DOWN by masks is the greatest multiple not above the address |
| Format.FieldWidth | src/lib/logger.c:68-92 | a field has exactly max(abs(npad), length) bytes, with the text on the right under a positive and on the left under a negative width |
| Format.UnsignedFieldWidth | src/lib/logger.c:126-159 | an unsigned field has max(abs(npad), natural length) bytes except exactly under zero padding with a prefix in a left-justified field wider than the digits, which is 2 - npad long: one byte too many when the field is one wider than the digits, two when it is wider; for npad at least 0 always |
| Format.Written | src/lib/logger.c:59-66 | the buffer image of a truncated text: what fits before the terminator, the terminator, the rest as it was |
| Format.WrittenBytes | src/lib/logger.c:59-66 | the same byte by byte: the text, or its first size - 1 bytes, a 0 behind it, and every later byte as it was |
| Logger.PStream.constructor | src/lib/logger.c:185-187 | a fresh stream over a buffer has emitted nothing |
| Logger.PStream.AddChar | src/lib/logger.c:59-66 | the character joins what was emitted; the buffer keeps as much of it as fits and nothing else changes |
| Logger.PStream.PrintStr | src/lib/logger.c:68-92 | emits the string in its field, including when the first use of the counter leaves it negative |
| Logger.PStream.PrintInt | src/lib/logger.c:94-124 | emits the signed numeral in its field, without leaving the scratch array |
| Logger.PStream.PrintUnsigned | src/lib/logger.c:126-159 | emits the unsigned field with its prefix in the right place, without leaving the scratch array |
| Logger.PStream.Terminate | src/lib/logger.c:279-280 | ends with the buffer image of everything emitted and returns the full length |
| Logger.FmtNum | src/lib/logger.c:161-179 | reads the signed width at the cursor, moves exactly past it, and stays within int |
| Logger.Switch | src/lib/logger.c:202-227 | every jump to morefmt consumes format text; the end of the format is stepped back onto |
| Logger.MoreFmt | src/lib/logger.c:201-227 | the morefmt loop ends with the flags, last width and length modifiers of the directive |
| Logger.PrintConversion | src/lib/logger.c:203-277 | each conversion emits its text and takes its argument |
| Logger.VSnprintf | src/lib/logger.c:181-281 | writes the first min(size-1, L) bytes of the expansion and a NUL, touches nothing else, returns L (section 7.21.6.5 of ISO C11) |
| Logger.Snprintf | src/lib/logger.c:283-292 | the same for the variadic entry |
| Logger.IntScratch | src/lib/logger.c:96 | digits, sign and terminator of every 64-bit number fit the scratch array of print_int |
| Logger.UnsignedScratch | src/lib/logger.c:128 | digits, prefix and terminator of every 64-bit number fit the scratch array of print_unsigned |
| Meaning.NumberOf | src/lib/logger.c:161-179 | a width written in decimal, with or without a minus, is read back as itself |
| Meaning.ScanModifiers | src/lib/logger.c:201-227 | flags, widths and length modifiers in any order and number reach the conversion as written, each overriding what it should |
| Meaning.FormatMeaning | src/lib/logger.c:181-281 | for every list of literals and directives with any modifiers, formatting its text is rendering the items one by one, and well-typedness is exactly having the arguments the items need |
| Meaning.PrefixBesideField | src/lib/logger.c:126-159 | `%#0-<width>x` of a non-zero number has two bytes more than the larger of the width and the digit count |
| Meaning.TooWide | src/lib/logger.c:126-159 | `%#0-9x` prints 11 bytes for 1 and for 0x12345678, whose texts have 3 and 10 |
| Printed.SignedDecimal | src/lib/logger.c:228-240 | `%d` with any number of `l` prints a minus for a negative number and its decimal numeral |
| Printed.UnsignedDecimal | src/lib/logger.c:241-253 | `%u`, `%lu`, `%llu` print the decimal numeral |
| Printed.Hex | src/lib/logger.c:254-266 | `%x`, `%lx`, `%llx` print the hexadecimal numeral in lower case |
| Printed.HexPrefixed | src/lib/logger.c:126-159 | `%#x` and its long forms print `0x` and the numeral, and a bare 0 for zero |
| Printed.Pointer | src/lib/logger.c:267-270 | `%p` does the same for a pointer |
| Printed.StringText | src/lib/logger.c:271-273 | `%s` prints the string up to its terminator |
| Printed.CharacterText | src/lib/logger.c:207-209 | `%c` prints the low byte of its argument |
| Printed.Literals | src/lib/logger.c:181-281 | characters other than `%` stand for themselves |
| Printed.Unknown | src/lib/logger.c:274-277 | a character without a meaning behind `%` stands for itself, `%` included, and a `%` that ends the format for nothing |
| Printed.Widths | src/lib/logger.c:68-92 | a width makes the text of `%d`, `%u`, `%x` and `%s` at least that long: spaces or, under the `0` flag, zeros before it, and with `-` spaces behind it |
| Printed.ZerosBehindPrefix | src/lib/logger.c:126-159 | `%#0<width>x` of a non-zero number prints `0x`, zeros and the digits of `%x` to that width |
| Printed.PrintUnsigned | src/lib/logger.c:181-281 | `%llu` run into a buffer of at least 21 bytes leaves the whole decimal numeral and a 0 |
| Printed.SimpleDecimal | src/lib/string.c:285-293 | `%d` of the second formatter |
| Printed.SimpleLowerHex | src/lib/string.c:294-302 | its `%x`: `0x` and the numeral in lower case |
| Printed.SimpleUpperHex | src/lib/string.c:303-311 | its `%X`: `0X` and the numeral in upper case |
| Printed.SimpleTexts | src/lib/string.c:312-322 | its `%s` and `%c` |
| Printed.SimpleUnknown | src/lib/string.c:327-335 | a character without a meaning keeps its `%`, and a `%` that ends the format stands for itself |
| Parse.Atol | src/lib/string.c:158-182 | returns the number the text denotes, and the accumulator does not overflow when the magnitude fits |
| Parse.Atoi | src/lib/string.c:184-187 | the same, converted to int |
| Parse.Reads | src/lib/string.c:158-182 | after spaces, tabs and line feeds and an optional `+` or `-`, the digits up to the first character that is none are read, and no digits as zero |
| CTypes.ToIntWraps | src/lib/string.c:184-187 | conversion to int gives the value in range that differs by a multiple of 2^32 |
| Sprintf.ItoaDecimal | src/lib/string.c:194-228 | the signed decimal numeral and a terminator |
| Sprintf.ItoaHex | src/lib/string.c:231-264 | the prefix, the numeral in the chosen case and a terminator |
| Sprintf.TemporariesSuffice | src/lib/string.c:285-311 | every converted 32-bit number fits the 32-byte temporary |
| Sprintf.CopyAt | src/lib/string.c:20-26 | the bytes up to and including the terminator are copied, and nothing else changes |
| Sprintf.PutConversion | src/lib/string.c:284-332 | one conversion puts its text at the write pointer and at most one byte behind it changes |
| Sprintf.SimpleSprintf | src/lib/string.c:272-342 | writes the whole expansion and a terminator, leaves the rest alone, returns the length |
| Agreement.FormattersAgree | src/lib/string.c:272-342 | on formats of literals, %d, %s, %c and %% with no trailing % the two formatters accept the same arguments and print the same text |
| Agreement.BothFormatters | src/lib/logger.c:181-281 | run into buffers that are large enough, both write the same bytes and return the same count |
| Agreement.AgreeOnlyOnShared | src/lib/string.c:284-331 | of the directives without flags those four are exactly the ones that print the same |
| Agreement.PrintParse | src/lib/string.c:158-182 | atol of what %Wld prints is the number, for every width and either flag, except exactly when zeros precede a minus, and then it is 0 |
| Agreement.MinusAfterZero | src/lib/logger.c:61-124 | `%03ld` of -5 prints `0-5`, which reads as 0 |
| Agreement.PrintThenParse | src/lib/logger.c:283-292 | the same, running my_snprintf and atol |
| Agreement.SimplePrintParse | src/lib/string.c:184-187 | atoi of what simple_sprintf prints for %d is the number, the least 32-bit number included |
| Agreement.SimplePrintThenParse | src/lib/string.c:272-342 | the same, running simple_sprintf and atoi |
| Uart.Console.PutChar | src/dev/dw_uart.c:97-110 | a line feed is sent with a carriage return in front of it |
| Uart.WireText | src/dev/dw_uart.c:97-110 | a text goes out as itself with 13 before every 10, piece by piece |
| Uart.Console.Puts | src/dev/dw_uart.c:112-117 | sends every byte of the string that way |
| Uart.Console.GenericPrintDec | src/dev/uart.c:20-39 | sends the signed decimal numeral, within the 20-byte array |
| Uart.Console.DwPrintDec | src/dev/dw_uart.c:192-226 | sends the signed decimal numeral, within the 32-byte array |
| Uart.Console.GenericPrintHex | src/dev/uart.c:12-18 | sends the sixteen upper-case digits of the number |
| Uart.Console.DwPrintHex | src/dev/dw_uart.c:175-190 | sends 0x and the sixteen upper-case digits of the number |
| Uart.FixedHexIsPadded | src/dev/uart.c:15-17 | the digits got by shifting are the zero-padded numeral got by division, in upper case |
| Uart.FixedHexDigits | src/dev/uart.c:15-17 | digit i from the right is the upper-case character of the number divided by 16^i, modulo 16 |
| Printers.DecimalPrintersAgree | src/lib/logger.c:94-124 | the four decimal printers give the same text for every number above the minimum |
| Printers.PlainHexAgree | src/dev/uart.c:12-18 | %016llx and generic_uart_print_hex differ in letter case only, and both read back as the number |
| Printers.PrefixedHexAgree | src/dev/dw_uart.c:175-190 | %#018llx and dw_uart_print_hex differ in letter case only exactly when the number is not zero; both read back as the number |
| Printers.ItoaHexReadsBack | src/lib/string.c:231-264 | the text of itoa_hex reads back as the number in either case |
| Printers.IntScratchExact | src/lib/logger.c:96 | the scratch array of print_int is large enough for all numbers exactly for bases from 7 |
| Printers.UnsignedScratchExact | src/lib/logger.c:128 | the scratch array of print_unsigned is large enough for all numbers exactly for bases from 6 |
| Strings.Strlen | src/lib/string.c:12-18 | the number of bytes before the terminator |
| Strings.Strcmp | src/lib/string.c:38-45 | the difference of the first bytes that differ, terminators included |
| Strings.Strncmp | src/lib/string.c:47-54 | the same within the first n bytes, else 0 |
| Strings.Memcmp | src/lib/string.c:129-141 | the difference of the first bytes that differ within n, else 0 |
| Strings.FirstDifference | src/lib/string.c:38-54 | at the first bytes that differ, strcmp and strncmp give their difference, strncmp 0 when they lie beyond n |
| Strings.FirstByteDifference | src/lib/string.c:129-141 | the same of memcmp, for any bytes |
| Strings.StrcmpOrders | src/lib/string.c:38-45 | the sign of strcmp is the lexicographic order on unsigned bytes |
| Strings.StrcmpTotalOrder | src/lib/string.c:38-45 | strcmp is antisymmetric, transitive and zero exactly on equal strings |
| Strings.StrncmpAgrees | src/lib/string.c:47-54 | strncmp gives the result of strcmp exactly when the strings are equal or differ within n bytes, so always for n above the shorter length |
| Strings.StrncmpOrders | src/lib/string.c:47-54 | the sign of strncmp is the order of the texts cut to n bytes |
| Strings.OrderMeans | src/lib/string.c:38-45 | the order goes by the first difference, and a beginning comes before what it begins |
| Strings.MemcmpOrders | src/lib/string.c:129-141 | the sign of memcmp is the order of the first n bytes, whatever they are, and zero exactly on equal ones |
| Strings.MemcmpAgrees | src/lib/string.c:129-141 | memcmp over the shorter string and its terminator gives the result of strcmp |
| Strings.Strstr | src/lib/string.c:72-84 | the least index where the needle occurs, none exactly when there is none (section 7.24.5.7 of ISO C11) |
| MemOps.Memmove | src/lib/string.c:110-127 | the destination gets what the source held under any overlap, all else is unchanged (section 7.24.2.2 of ISO C11) |
| MemOps.Memcpy | src/lib/string.c:98-108 | the exact memory a forward copy leaves for every pair of regions |
| MemOps.ForwardBytes | src/lib/string.c:98-108 | byte by byte: the old source up to where the copy runs into its own output, and that output from there on |
| MemOps.MemcpyIsMemmove | src/lib/string.c:98-108 | it is what memmove leaves, for all contents, exactly when the destination does not start strictly inside the source |
| LineEditor.DwKey | src/dev/dw_uart.c:22-45 | one key edits the line, the echo and the buffer as specified |
| LineEditor.DwTurn | src/dev/dw_uart.c:136-149 | one turn of the loop keeps the session on course, and the terminal showing exactly the buffer's text while only printable keys and backspaces were typed |
| LineEditor.DwGets | src/dev/dw_uart.c:136-149 | returns the edited line, terminated and within the size, takes exactly the keys of the session, and sends exactly their echo |
| LineEditor.GenericKey | src/dev/uart.c:44-62 | one key edits the line, the echo and the buffer as specified |
| LineEditor.GenericTurn | src/dev/uart.c:41-65 | the same for the generic loop |
| LineEditor.GenericGets | src/dev/uart.c:41-65 | the same for the generic loop |
| LineEditor.GetsAgree | src/dev/uart.c:41-65 | both loops return the same line and take the same keys; their echoes are equal exactly when no LF was taken |
| LineEditor.EditIsFold | src/dev/dw_uart.c:136-168 | the line is the fold of the keys taken, never longer than the room, and only the last key can be a line end |
| LineEditor.KeysMean | src/dev/dw_uart.c:136-168 | by code: 8 and 127 take the last character away, 10 and 13 end the line, every other key is added |
| LineEditor.EchoMeans | src/dev/dw_uart.c:136-168 | by code: what each key sends with either driver |
| LineEditor.ErasedAtOnce | src/dev/dw_uart.c:145-151 | a printable key followed by backspace or DEL leaves the line as it was |
| LineEditor.DelIsBackspace | src/dev/dw_uart.c:145-151 | backspace in place of DEL, anywhere, gives the same line and the same keys taken |
| LineEditor.DelEchoesAsBackspace | src/dev/dw_uart.c:145-151 | and the same echo |
| LineEditor.ErasesWithDel | src/dev/uart.c:41-65 | both loops, run on `a`, `b`, DEL, CR, return `a` |
| LineEditor.ScreenShowsLine | src/dev/dw_uart.c:25-35 | before the line ends the terminal shows exactly the line typed so far, with either driver |
| Heap.Allocator.constructor | src/mem/mem.c:33-55 | the heap goes from the least page boundary neither below the linker's place nor below 0x80400000, up to 0x8E000000 |
| Heap.Allocator.Malloc | src/mem/mem.c:72-99 | the masked rounding and the bound test do what the arithmetic specification does, wrap-around included |
| Heap.Allocator.Calloc | src/mem/mem.c:105-123 | a block is granted for the whole product and zeroed, and all other bytes are unchanged |
| Heap.ClearedBytes | src/mem/mem.c:113-120 | byte by byte: 0 in the block and unchanged around it |
| Heap.Allocator.AlignedAlloc | src/mem/mem.c:129-148 | the mask tests and masks do what the arithmetic specification does |
| Heap.Allocator.GetFreeSize | src/mem/mem.c:154-167 | the free size, which with the allocated size makes up the total on every valid heap |
| Heap.InitValid | src/mem/mem.c:33-55 | the heap is set up soundly exactly when the linker put it below the end of usable memory |
| Heap.BootHeap | src/mem/mem.c:33-55 | the same of the initial state, with nothing allocated |
| Heap.MallocGrants | src/mem/mem.c:72-99 | without wrap, a request fails and changes nothing exactly when it is empty or does not fit, and else gets the next bytes |
| Heap.MallocGives | src/mem/mem.c:72-99 | in numbers: the request rounded up to a multiple of 8 is granted at the end of what is used exactly when it is positive and fits, and the counters move by it |
| Heap.MallocSoundExactly | src/mem/mem.c:72-99 | a request is sound exactly when it does not wrap |
| Heap.MallocWraps | src/mem/mem.c:72-100 | the largest request is granted a pointer and no bytes |
| Heap.OverflowTest | src/mem/mem.c:107-111 | the division test holds exactly when the product is below 2^64 |
| Heap.CallocSound | src/mem/mem.c:105-123 | a block covers the whole product, and is granted exactly when that is positive, does not overflow and fits |
| Heap.CallocSoundExactly | src/mem/mem.c:105-123 | for a positive count it is sound exactly when the product overflows or does not wrap on rounding |
| Heap.AlignedAllocSound | src/mem/mem.c:129-148 | refuses exactly what is no power of two, empty or too large; otherwise the address is aligned and its bytes lie inside the reserved block |
| Heap.AlignedAllocSoundExactly | src/mem/mem.c:129-148 | sound exactly when the alignment is no power of two, or the inner request does not wrap on rounding and, if the padding made it wrap, is refused |
| Heap.AlignedAllocWraps | src/mem/mem.c:129-148 | alignment 16 and size 2^64 - 8 get a pointer and eight bytes |
| Heap.RunSafe | src/mem/mem.c:72-217 | over any run of requests that are sound one by one all granted blocks are 8-aligned, inside the used heap and pairwise disjoint, and allocated + free = total |
| Heap.BootRunSafe | src/mem/mem.c:33-228 | the same from boot; every byte of every block is a heap address, at or above 0x80400000 and the linker's place and below 0x8E000000 |
| Trap.Hart.SaveFrame | src/exception/exception.S:64-165 | the frame holds every register and CSR, the corrected stack pointer included, and nothing outside it changes |
| Trap.Hart.TrapHandler | src/exception/exception.S:64-165 | the same from the trap on, with the hardware's part |
| Trap.Hart.RestoreRegisters | src/exception/exception.S:175-257 | the hart is what the frame says, after sret |
| Trap.TrapTaken | src/exception/exception.S:58-66 | the hardware's part of a trap, bit by bit of sstatus |
| Trap.TrapReturned | src/exception/exception.S:257 | the hardware's part of sret, bit by bit |
| Trap.FrameLayout | src/exception/exception.c:15-24 | every word of the saved frame at its address as the C structure has it, a0 pointing to it, and no other memory changed |
| Trap.FrameRead | src/exception/exception.S:175-257 | the return path takes every register, pc, mode and interrupt enable from those addresses |
| Kernel.InterruptBit | src/exception/exception.c:145-147 | the two masks of the dispatcher test and clear the top bit |
| Kernel.Vectors.constructor | src/exception/exception.c:73-95 | the tables at boot |
| Kernel.Vectors.RegisterException | src/exception/exception.c:100-106 | a cause below 16 gets the handler, any other changes nothing |
| Kernel.Vectors.RegisterInterrupt | src/exception/exception.c:111-117 | the same for interrupts |
| Kernel.Vectors.RegisterSyscall | src/exception/exception.c:122-128 | the same for system calls below 256 |
| Kernel.Vectors.HandleException | src/exception/exception.c:136-161 | the handler the cause selects runs; when it returns, exactly the words it stores have changed, in the frame and elsewhere, whatever a handler registered later stores, and when it does not, neither does the dispatcher |
| Kernel.Vectors.HandleSyscall | src/exception/exception.c:166-193 | the selected function gets the six arguments, its result becomes a0, sepc moves past the ecall and nothing else changes |
| Kernel.SyscallFrame | src/exception/exception.c:166-193 | word 10 is the result for words 10 to 15, word 64 has moved on by 4, every other word is as it was |
| Kernel.RegisterThenCall | src/exception/exception.c:122-193 | a registered function runs for its number, gets the six arguments and returns into a0; other numbers run what they ran |
| Kernel.RegisterThenTrap | src/exception/exception.c:100-161 | a registered exception or interrupt handler runs for its cause; other causes run what they ran, and those from 16 on the defaults |
| Kernel.BootEffect | src/exception/exception.c:136-161 | under the boot tables the cause alone determines the effect on the frame |
| Nesting.NextKeeps | src/exception/exception.S:64-257 | every step of kernel code, handler code, registration, trap entry, dispatch, frame update and return keeps all live frames intact and interrupts off in handlers |
| Nesting.StoresRecorded | src/exception/exception.S:64-257 | the record of a trap in progress keeps up, step by step, with what is stored in its frame |
| Nesting.LeaveGivesBack | src/exception/exception.S:175-257 | every sret gives back x1 to x31, f0 to f31, fcsr, pc, the mode and all of sstatus, except for the words the C code wrote to the frame |
| Nesting.HandlersUninterrupted | src/exception/exception.S:64-257 | in every run interrupts are off inside handlers, and frames of nested traps do not meet |
| Nesting.NestedTrapsUnwind | src/exception/exception.S:64-257 | in every run, with handlers registered at any time, a trap and the first return to its depth restore the interrupted code whatever was nested between them, except for the words stored in that trap's frame during the run, each with the value of its last store; the handler is the one the tables gave for its cause, what `ebreak` and system calls store is fixed, and an interrupted handler gets its stack pointer and status back |
| Nesting.BootTrapsUnwind | src/exception/exception.S:64-257 | the same under the boot tables: all registers, a0 apart after a system call, which is the value a step of that trap stored; pc, four bytes further for causes 3 and 9; mode; sstatus with its interrupt enable |
| Nesting.DepthBounded | src/exception/exception.S:64-67 | each nested trap costs at least a frame of the stack below the outermost one |
| Nesting.HandleTrap | src/exception/exception.S:158-173 | the branch on the cause and the C side store what the tables, any tables, call for, and halt when the selected handler does |
| Nesting.TrapPath | src/exception/exception.S:64-257 | the whole path, run once with any tables, halts when the selected handler does and otherwise gives the interrupted code everything back but for what that handler stores in the frame; elsewhere memory has what that handler stores there and is unchanged otherwise |
| Nesting.ServeTrap | src/exception/exception.S:64-257 | the same, and in numbers: cause 9 returns four bytes further with the result of the function a7 selects for a0 to a5; under the boot tables every exception but 3 and 9 halts, and all else gives everything back |
| Nesting.CodeMayStore | src/exception/exception.c:136-193 | what the C side stores in a frame is a store the step model allows, for a handler registered later exactly when it leaves the stack pointer and status of an interrupted handler alone |
| Timer.TickClock.Handler | src/timer.c:112-136 | one tick moves all counters and the deadline |
| Timer.TickClock.ScheduleNextTick | src/timer.c:103-107 | the next deadline is one tick after the time read |
| Timer.TickClock.ResetStats | src/timer.c:211-216 | the statistics are cleared and the clock is not |
| Timer.TickClock.DelayMs | src/timer.c:173-182 | the delay ends at the first reading at least the requested time after the start; the product of frequency and delay stays within 64 bits |
| Timer.TickClock.DelayUs | src/timer.c:187-196 | the same for microseconds |
| Timer.RunInStep | src/timer.c:112-152 | over any run of ticks and resets: ticks = 100 * seconds + counter with counter below 100, uptime / 1000 = seconds, the interrupt count is the ticks since the last reset |
| Timer.BootRun | src/timer.c:112-216 | the same from boot |
| Timer.Drift | src/timer.c:78-136 | k ticks with latency at most L take between k * 100000 and k * (100000 + L) cycles |
| Timer.UptimeNeverAhead | src/timer.c:39-152 | the uptime gained since enabling never runs ahead of the hardware time and lags by at most the summed latencies |

## Left out

- UART register access, polling, baud set-up and `src/dev/pl011.c`: device I/O; output is a byte trace and input a byte sequence.
- Colours, prefixes, banners, `my_vprintf`, `logger*`, `dumpmem_as_u64`, `mem_print_stats`, `mem_test`, `timer_dump_info`, `uart_printf`: text around the modelled core.
- `src/entry.c`, `handle_syscall_direct_c` and the system call gateway: user interface, demonstrations and jumps to code that is not part of this model.
- `strcat`, `strncpy`, `strchr`, `memchr`, `memset`: simple loops that no other result needs.
- Strings passed to the formatters are values, so a `%s` argument that overlaps the output buffer is not represented.
- The count of `l` modifiers is unbounded in the model; the source counts in an `int`.
- Kernel.Vectors.HandleSyscall: what a system call function computes is a parameter, since the functions are console output or code registered elsewhere.
- Kernel.Vectors.HandleException: what a handler registered after boot does is a parameter, since its code is not part of this model: whether it returns, and which words it stores in the frame and elsewhere; console output of handlers is left out.
- Nesting.ServeTrap: the memory of the model holds the frames and what registered handlers store; the stack frames and the global variables of the modelled C functions themselves are not words of it.
- Nesting.LeaveGivesBack: the FS field of sstatus comes back as it was saved; the floating-point loads after `csrw sstatus` would set it to Dirty, which makes no difference in this kernel, since `src/entry.c:417` has set it to Dirty before any trap.
- Nesting.NextKeeps: handler code is any code that keeps the calling convention, writes no live frame but its own and does not write the interrupt enable; a handler registered after boot that was entered from another handler does not change the stack pointer or status saved in its frame. That the compiled C code keeps to this is not proved here.
- Memory in the trap model is addressed in 64-bit words at the frame's own alignment; traps taken by the entry and exit code itself are not represented.
- LineEditor.ScreenShowsLine: control bytes other than backspace, DEL and line ends, and bytes from 128 on, have no terminal meaning in the model.
- LineEditor.DwGets: the keys must suffice for the line to end; waiting for input has no counterpart.
- Timer.TickClock.Handler: the firmware call that arms the timer is the assignment of the deadline; the bits of `sie` are left out.
- Heap.Allocator.Calloc: requests that wrap on rounding, and a zero count, on which the source divides by zero, are outside its precondition; messages on failure are left out.

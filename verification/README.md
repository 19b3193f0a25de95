# Verified models of an emulator, an abstract machine and their runtime

This project models the hardest parts of a teaching system stack in Dafny and proves what they are meant
to do. The stack consists of `nemu`, an instruction-set emulator with a debugger, and `abstract-machine`,
a thin machine layer with several platforms. Ten components are modelled:

| component | modules | main result |
|---|---|---|
| 64-bit division on a 32-bit machine | `Bits`, `Int64` | every path returns the exact quotient and remainder |
| x86 page tables | `PageTable`, `VmeInvariant`, `Vme`, `VmeTeardown`, `VmeKernel`, `VmeMachine`, `VmeHardware` | from power-on, after any run of `protect`, `map`, `unprotect` and page allocation, the two-level and the four-level walk of the processor, written out in numerals, equal an abstract page map per address space at every address; a call fails exactly when it is illegal or needs more pages than are free, and no page is lost |
| debugger expressions | `ExprEval`, `ExprLiteral`, `ExprTree`, `ExprParse`, `ExprTokenizer`, `ExprText`, `ExprGrammar`, `ExprGen` | every text of the expression grammar of C with plain operands evaluates to its C value or stops, with exact conditions; a balanced text gets a value only if it is an expression |
| address spaces of the native platform | `NativeVme` | the host's live mappings are those of the installed list, over every run |
| GDB remote protocol | `GdbProtocol`, `GdbHost`, `GdbText` | for every encoding, the exact condition under which the receiver follows it; it then inverts it |
| x86 `mov` interpreter | `X86Mov`, `X86Meaning`, `X86Exec` | every encoding moves the right value between the places that the manual names, and touches nothing else |
| watchpoint pool | `Watchpoint` | two lists that always partition the pool |
| run loop with watchpoints | `CpuExec` | every session of commands does what a specification on lists of watched texts says; a run stops right after the first instruction that changes a watched value, or takes the program down exactly when one has no value |
| sound ring buffer | `Audio` | the ring refines a FIFO queue; no byte is lost, invented or reordered |
| multiprocessor bring-up | `BringUp` | mutual exclusion on the boot stack, no lost signal, and termination, in every interleaving |

`Common` holds the types they share, and `Words` the little-endian words. `VmeHardware`, `ExprGrammar`, `GdbText` and
`X86Meaning` state in numerals and plain text what the formats, grammars and encodings of the models stand for, and prove
that the models mean the same. Code that changes state step by step
is modelled by classes and methods with loops, proved against specification functions; the properties of these
functions are lemmas. C integers are mathematical integers with explicit wrap-around. A failed assertion or a panic of the source is a result
(`ok == false`, `None`, or a separate outcome), not a precondition.

Assumptions about the world outside the modelled code:

- `pgalloc` returns an aligned page that is not in use, or nothing. On the native platform the page for a
  list head arrives zeroed, because `protect` there never writes the `next` field of the head.
- `rand()`, the bytes arriving on a socket, the schedule of the CPUs and the calls of the sound callback are
  arbitrary parameters.
- A boot request starts the CPU it names, once.
- The CPU loads registers, pages and table entries as described in sections 4.3 and 4.5 of the Intel SDM,
  Volume 3A; the ModR/M and SIB formats are those of section 17.2.1 of the Intel 80386 Programmer's Reference
  Manual; the packet format is that of the appendix "GDB Remote Serial Protocol" of the GDB manual; signed
  division follows section 6.5.5 of ISO C11, and constants are those of section 6.4.4.1, of type `unsigned int` as
  with the suffix U.

Where the code does not do what one would expect, the model follows the code and says exactly when:

- `check_parentheses` joins two tests with `&&` where `||` is meant. It is exact on balanced ranges; on other
  ranges it errs exactly when the inside is balanced and only one end is a parenthesis
  (`ExprEval.CheckExact`, with a concrete range in `ExprEval.CheckAcceptsOneSided`). `eval` then drops both ends and
  returns the value of the inside, if it has one (`ExprParse.OneSidedRange`): "(5 7" is 5
  (`ExprParse.OneSidedWitness`). On balanced sequences it never invents a value (`ExprParse.EvalExact`).
- Numbers are read in decimal, whatever they start with. Below 2^32 this is what C reads if and only if the numeral
  does not start with 0 or is a number below 8 after zeros (`ExprLiteral.NumeralExact`): "010" is 8 in C and 10 here, and
  "08" is no constant of C (`ExprLiteral.LeadingZeroDiffers`). From 2^63 on `strtol` saturates
  (`ExprLiteral.SaturationExact`, `ExprLiteral.SaturationDiffers`). The results on C values are about plain operands: such
  numerals, and hexadecimal numbers below 2^32.
- On the native platform, mapping a page that is already listed relinks its node without unlinking it. From
  then on a walk of that list never ends, and it ends in every other case (`NativeVme.Host.Map`).
- The packet receiver looks at its markers before it looks at a pending escape. An escaped byte is received
  correctly if and only if its transmitted form is none of `$`, `#` and `}`, and is not a `*` that follows a byte
  and precedes a count character (`GdbProtocol.PieceExact`). So an escaped `]` is lost and flips the next byte
  (`}}a` for "]a" arrives as "A": `GdbProtocol.EscapedBracketWitness`), and an escaped line feed may be taken for
  a repetition (`GdbProtocol.EscapedStarIsARun`). Every payload still has an encoding, because these bytes need
  not be escaped (`GdbProtocol.EveryPayload`).
- `eval` evaluates both operands of `&&`. It returns the C value if and only if everything in the expression is
  defined, also what C would skip (`ExprTree.EvalMeansC`); `0 && 1/0` stops it (`ExprTree.ShortCircuitDiffers`).
- A `*` after a register or a dereference is read as a dereference. All other texts of a tree are read as
  written (`ExprText.TextIsRead`). A misread text never gets a value: the program stops
  (`ExprText.MisreadHasNoValue`), for instance on "$eax*2" (`ExprText.StarAfterRegister`).
- A `w` with a text that is no expression, and a `d` without a number, end the whole session, because the loop of
  commands takes their return value -1 for a request to quit (`CpuExec.Spec`, the specification of
  `CpuExec.Monitor.Execute`).
- A watched text that loses its value stops the whole emulator, for instance "1/$eax" when eax becomes zero
  (`ExprText.DivisionByRegister`, `CpuExec.Monitor.CpuExec`).
- `-2^63 / -1` is the only signed division whose result is wrapped (`Int64.Div`).
- A watchpoint hit on the instruction that ends the program overwrites END or ABORT with STOP
  (`CpuExec.EndsIn`, used in the contract of `CpuExec.Monitor.CpuExec`).

## Model

| member | source | states |
|---|---|---|
| Int64.UDivMod | abstract-machine/klib/src/int64.c:414-622 | for all 64-bit a and nonzero b, a = q*b + rem with rem < b: exact quotient and remainder |
| Int64.UDivModWords | abstract-machine/klib/src/int64.c:426-622 | every branch of the case split on the four 32-bit words ends with the exact quotient and remainder |
| Int64.DivideHigh | abstract-machine/klib/src/int64.c:489-592 | divisors with a nonzero high word: exact result, and the answer 0 only when the dividend is smaller |
| Int64.HighShift | abstract-machine/klib/src/int64.c:567-576 | a wrapped shift count above the limit means dividend below divisor; otherwise the shift is legal and aligns the two |
| Int64.DivideLow | abstract-machine/klib/src/int64.c:529-560 | one-word divisor that is no power of two: exact result |
| Int64.DivideLowPowerOfTwo | abstract-machine/klib/src/int64.c:514-528 | one-word power of two: masking and shifting give the exact result |
| Int64.ShiftAndDivide | abstract-machine/klib/src/int64.c:534-559 | for every legal shift count, the 32-bit pieces are those of q = n << (64 - sr) and r = n >> sr, and the loop turns them into the exact result |
| Int64.DivLoop | abstract-machine/klib/src/int64.c:593-622 | from q = n << (64 - sr), r = n >> sr the shift-subtract loop and the last shift produce n / d and n % d |
| Int64.DivRound | abstract-machine/klib/src/int64.c:602-616 | one round keeps the loop invariant: r is the remainder of the bits consumed, q holds the rest and the quotient bits |
| Int64.CompareSubtract | abstract-machine/klib/src/int64.c:614-616 | the sign mask gives carry 1 exactly when r >= d, and subtracts d exactly then |
| Int64.CompareMask | abstract-machine/klib/src/int64.c:614-614 | the wrapped d - r - 1 is negative exactly when r >= d, although the subtraction may overflow |
| Int64.Div | abstract-machine/klib/src/int64.c:368-379 | truncated quotient for all a and nonzero b, except exactly the pair -2^63 and -1, where it is wrapped |
| Int64.Mod | abstract-machine/klib/src/int64.c:392-404 | remainder with the sign of the dividend for all a and nonzero b |
| Int64.DivMod | abstract-machine/klib/src/int64.c:382-388 | agrees with both, and a = q*b + rem unless the quotient overflows |
| Int64.Truncated | abstract-machine/klib/src/int64.c:368-404 | quotient and remainder are the only numbers with a = q*b + r, r smaller than b in magnitude and with the sign of a |
| Int64.QuotientRange | abstract-machine/klib/src/int64.c:368-379 | the truncated quotient fits in 64 bits unless a = -2^63 and b = -1, and only then not |
| Int64.Clz | abstract-machine/klib/src/int64.c:638-667 | equals counting from the top bit by bit; 2^(31-n) <= a < 2^(32-n) |
| Int64.LeadingZerosUnique | abstract-machine/klib/src/int64.c:634-667 | the interval determines the count, so the bounds specify it completely |
| Int64.Ctz | abstract-machine/klib/src/int64.c:673-707 | equals counting from the bottom bit by bit |
| Int64.TrailingZerosMaximal | abstract-machine/klib/src/int64.c:673-707 | 2^k divides x if and only if k is at most the count |
| PageTable.IndexOfValue | abstract-machine/am/src/x86/qemu/vme.c:49-51 | mask and shift extract the bits of the level as a number below the table size |
| PageTable.BaseOfValue | abstract-machine/am/src/x86/qemu/vme.c:53-55 | clears the offset and nothing else |
| PageTable.EntryFields | abstract-machine/am/src/x86/qemu/vme.c:57-75 | base and flags of a combined entry word can be read back independently |
| PageTable.PathInjective | abstract-machine/am/src/x86/qemu/vme.c:57-75 | two pages with the same indices at every level are the same page, for any number of levels |
| VmeInvariant.GrowInv | abstract-machine/am/src/x86/qemu/vme.c:57-75 | adding a zeroed table behind an empty entry keeps the invariant of all tables of all spaces |
| VmeInvariant.GrowLeaf | abstract-machine/am/src/x86/qemu/vme.c:57-75 | that changes the mapping of no page of any space |
| VmeInvariant.WriteLeaf | abstract-machine/am/src/x86/qemu/vme.c:141-156 | writing a leaf changes the mapping of that page of that space and of no other |
| VmeInvariant.WalkFrom | abstract-machine/am/src/x86/qemu/vme.c:57-75 | the hardware, from any table on the path, reaches the leaf word with the rights of all entries combined |
| VmeInvariant.MissingBelow | abstract-machine/am/src/x86/qemu/vme.c:57-75 | below a missing table nothing is mapped |
| Vme.TranslationIsMap | abstract-machine/am/src/x86/qemu/vme.c:57-156 | main theorem: the hardware walk of a space, for every address the tables can translate: kernel addresses as from the kernel's own root, mapped pages to the right frame, user-accessible and writable iff the map says so, a fault everywhere else |
| Vme.KernelVisible | abstract-machine/am/src/x86/qemu/vme.c:117-135 | in every space a kernel address translates as from the kernel's own root |
| Vme.KernelStable | abstract-machine/am/src/x86/qemu/vme.c:117-156 | the kernel translation depends on the kernel's tables only |
| Vme.UserNotShared | abstract-machine/am/src/x86/qemu/vme.c:24-33 | no user address goes through a root entry shared with the kernel |
| Vme.KernelShared | abstract-machine/am/src/x86/qemu/vme.c:117-135 | every kernel address goes through one |
| Vme.SharedIsKernel | abstract-machine/am/src/x86/qemu/vme.c:117-135 | conversely, an address whose root entry is shared lies in a kernel area |
| Vme.WriteState | abstract-machine/am/src/x86/qemu/vme.c:141-156 | the leaf write of `map` turns the state of one page map into that of the updated one and leaves kernel and other spaces alone |
| Vme.ExtendsState | abstract-machine/am/src/x86/qemu/vme.c:57-75 | allocating tables keeps every page map of every space |
| Vme.ProtectState | abstract-machine/am/src/x86/qemu/vme.c:117-135 | a root with copied kernel entries is an empty space; all others are unchanged |
| Vme.AreaStep | abstract-machine/am/src/x86/qemu/vme.c:120-131 | stepping through an area with wrapping addresses reaches its end exactly, also when the end is the top of memory |
| VmeTeardown.OrderSound | abstract-machine/am/src/x86/qemu/vme.c:77-87 | only tables below the given one are freed |
| VmeTeardown.OrderComplete | abstract-machine/am/src/x86/qemu/vme.c:77-87 | every table below it is freed |
| VmeTeardown.OrderNoDup | abstract-machine/am/src/x86/qemu/vme.c:77-87 | none is freed twice |
| VmeTeardown.ChildrenFirst | abstract-machine/am/src/x86/qemu/vme.c:77-87 | no table is freed before one that hangs below it |
| VmeTeardown.LoopTest | abstract-machine/am/src/x86/qemu/vme.c:77-87 | the test on present and user bits recognises exactly the entries of this space's own tables, never a shared kernel entry |
| VmeTeardown.DropState | abstract-machine/am/src/x86/qemu/vme.c:137-139 | without its tables the space is gone, and every other space and the kernel are as before |
| VmeKernel.I386Valid | abstract-machine/am/src/x86/qemu/vme.c:3-33 | the 32-bit configuration (2 levels, areas up to the top of memory) meets all conditions of the generic proof |
| VmeKernel.X64Valid | abstract-machine/am/src/x86/qemu/vme.c:3-33 | so does the 64-bit configuration (4 levels) |
| VmeKernel.I386Masks | abstract-machine/am/src/x86/qemu/vme.c:14-20 | at every level of the 32-bit table the index is computed with the mask and the shift that the source writes |
| VmeKernel.X64Masks | abstract-machine/am/src/x86/qemu/vme.c:5-13 | the same for the 64-bit table |
| PageTable.FullPage | abstract-machine/am/src/x86/qemu/vme.c:40-47 | a table of any level fills exactly the page that `pgallocz` clears |
| VmeHardware.WalkIs32 | abstract-machine/am/src/x86/qemu/vme.c:14-20 | walking by the 32-bit table is the two-level walk of the processor (entry va / 4 MiB of 1024, then va / 4 KiB of 1024), whatever is in memory |
| VmeHardware.WalkIs64 | abstract-machine/am/src/x86/qemu/vme.c:5-13 | walking by the 64-bit table is the four-level walk (entries va / 2^39, 2^30, 2^21 and 2^12 of 512, with 1 GiB and 2 MiB pages), whatever is in memory |
| VmeHardware.TableSizes | abstract-machine/am/src/x86/qemu/vme.c:3-21 | every table of both builds has 4096 bytes |
| VmeHardware.Areas32 | abstract-machine/am/src/x86/qemu/vme.c:28-32 | the user and kernel areas of the 32-bit build as address ranges, the last one up to the top of memory |
| VmeHardware.Areas64 | abstract-machine/am/src/x86/qemu/vme.c:24-27 | those of the 64-bit build |
| VmeHardware.Space32 | abstract-machine/am/src/x86/qemu/vme.c:57-156 | in every valid state the processor translates every 32-bit address of every space as specified: kernel addresses to themselves for the kernel only, mapped pages to their frames for the user, a fault elsewhere |
| VmeHardware.Space64 | abstract-machine/am/src/x86/qemu/vme.c:57-156 | the same for 48-bit addresses, the kernel in pages of 1 GiB |
| VmeHardware.LegalMaps | abstract-machine/am/src/x86/qemu/vme.c:141-148 | the legal calls of `map` in address ranges: a user page, aligned, and unmapped unless it is to be unmapped |
| VmeHardware.MapMeans | abstract-machine/am/src/x86/qemu/vme.c:141-156 | what one `map` means: this page of this space has this frame, writable exactly when bit 1 of the protection is set, and no other page changes |
| VmeHardware.KernelTables32 | abstract-machine/am/src/x86/qemu/vme.c:97-108 | the kernel of the 32-bit build takes exactly 269 pages of tables |
| VmeHardware.System32 | abstract-machine/am/src/x86/qemu/vme.c:89-156 | from power-on: the 32-bit build comes up if and only if there are 269 pages, and after any commands the processor translates every address of every space as the page maps say |
| VmeHardware.System64 | abstract-machine/am/src/x86/qemu/vme.c:89-156 | the same for the 64-bit build on its boot tables |
| VmeKernel.KernelIdentity | abstract-machine/am/src/x86/qemu/vme.c:89-115 | the finished kernel tables map every kernel page to itself, writable and not for the user, and fault elsewhere |
| VmeKernel.BootTables | abstract-machine/am/src/x86/qemu/start64.S:7-29 | the 64-bit boot tables with 1 GiB pages are a valid kernel to build spaces on |
| VmeKernel.BootTranslation | abstract-machine/am/src/x86/qemu/start64.S:7-29 | under the boot tables every kernel address translates into its own 1 GiB page, supervisor-only and writable, and every other address faults |
| VmeKernel.BootEntry | abstract-machine/am/src/x86/qemu/start64.S:17-29 | the two 32-bit halves stored per entry make the 64-bit word of the i-th 1 GiB page |
| VmeMachine.Machine.PgAllocZ | abstract-machine/am/src/x86/qemu/vme.c:40-47 | takes an unused page and leaves it all zero; fails exactly when none is left |
| VmeMachine.Machine.PtWalk | abstract-machine/am/src/x86/qemu/vme.c:57-75 | returns the leaf location of the page, maps no page anew, and changes nothing once the tables exist (so the final repeated walk is a no-op); takes exactly one page for each missing table on the path and fails exactly when there are fewer free pages than missing tables |
| VmeMachine.Machine.NextTable | abstract-machine/am/src/x86/qemu/vme.c:61-72 | one turn of the walk: follows the entry or puts a zeroed table behind it, for one page, and fails exactly when the table is missing and no page is free |
| VmeMachine.Machine.Map | abstract-machine/am/src/x86/qemu/vme.c:141-156 | installs or removes exactly one page of one space; succeeds if and only if the call is legal and the missing tables are at most the free pages before the call, and takes exactly so many; no other page of any area, no other space and no kernel table changes; no page is lost |
| VmeMachine.Machine.UserWalk | abstract-machine/am/src/x86/qemu/vme.c:145-146 | the walk of `map`: fails exactly when there are too few free pages, takes one page per missing table, remaps nothing and loses no page |
| VmeMachine.Machine.SetLeaf | abstract-machine/am/src/x86/qemu/vme.c:147-155 | refuses exactly an unmap of an unmapped and a remap of a mapped page; allocates nothing, so the repeated walk is a no-op |
| VmeMachine.Machine.CopyKernelEntries | abstract-machine/am/src/x86/qemu/vme.c:120-131 | the new root holds exactly the kernel's entries of the kernel areas and zero elsewhere |
| VmeMachine.Machine.Protect | abstract-machine/am/src/x86/qemu/vme.c:117-135 | succeeds exactly when a page is free and takes one; a new space without user pages; all other spaces and the kernel unchanged, no page lost |
| VmeMachine.Machine.Teardown | abstract-machine/am/src/x86/qemu/vme.c:77-87 | frees exactly the tables below its argument, children first, each once, never reading a freed page or a mapped data page |
| VmeMachine.Machine.Unprotect | abstract-machine/am/src/x86/qemu/vme.c:137-139 | the pages that reach `pgfree` are pairwise distinct and are exactly the table pages of the space, and they are free afterwards; none is a kernel table or a page handed to the caller, so no mapped frame of the caller is freed; other spaces keep their maps |
| VmeTeardown.FreedAreOwn | abstract-machine/am/src/x86/qemu/vme.c:77-87 | distinct tables lie on distinct pages, none of them the kernel's or the caller's, and all of them become free |
| VmeTeardown.PagesReturned | abstract-machine/am/src/x86/qemu/vme.c:77-87 | table pages and free pages together are the same set before and after the teardown |
| VmeMachine.Machine.PgAlloc | abstract-machine/am/src/x86/qemu/vme.c:36-38 | a page handed to the caller comes from the free pages and disturbs no space; fails exactly when none is free |
| VmeMachine.Machine.PgRelease | abstract-machine/am/src/x86/qemu/vme.c:36-38 | a page given back by the caller is free again and disturbs no space |
| VmeMachine.Machine.VmeInit | abstract-machine/am/src/x86/qemu/vme.c:97-110 | builds tables under which every kernel page translates to itself, supervisor-only and writable, and every other address faults; succeeds if and only if there are as many pages as tables on the paths to the kernel areas, and takes exactly so many |
| VmeMachine.Machine.BuildKernel | abstract-machine/am/src/x86/qemu/vme.c:97-108 | the loops over areas and pages: the same exact count, and no page is lost when they stop halfway |
| VmeKernel.TooFewPages | abstract-machine/am/src/x86/qemu/vme.c:100-108 | a table that cannot be built means that there were fewer pages than kernel tables |
| VmeKernel.EnoughPages | abstract-machine/am/src/x86/qemu/vme.c:100-108 | when every kernel page is mapped, exactly the tables on the paths to them exist, one page each |
| VmeMachine.Machine.VmeInit64 | abstract-machine/am/src/x86/qemu/vme.c:94-95 | the 64-bit branch: on the tables of start64.S the system is ready for `protect` and `map`, the kernel mapped into 1 GiB pages and nothing else |
| VmeMachine.Machine.Run | abstract-machine/am/src/x86/qemu/vme.c:57-156 | over every sequence of protect, map, unmap, unprotect, page allocation and release over any number of spaces, all spaces translate as the specification's page maps at every address; a run ends early exactly at a command that is illegal or needs more pages than are free; the kernel's tables never change; free pages, table pages and pages of the caller are one constant set; at every step no page that the caller has then is freed, and mapped frames stay the caller's as long as it maps only its own and keeps what it has mapped |
| VmeMachine.Machine.KernelTranslation | abstract-machine/am/src/x86/qemu/vme.c:117-156 | what leaves the kernel's tables alone leaves the translation of every address from the kernel's root alone |
| VmeMachine.Machine.Execute | abstract-machine/am/src/x86/qemu/vme.c:117-156 | one operation succeeds if and only if it is legal and does not need more pages than are free, and then does what the specification says; no page is lost, and none that the caller has is freed |
| VmeKernel.HistoryNext | abstract-machine/am/src/x86/qemu/vme.c:57-156 | a run extended by one command that did what it specifies is again a run, and keeps the ownership of mapped frames |
| ExprEval.CheckOnBalanced | nemu/src/monitor/debug/expr.c:209-234 | on every balanced range, true exactly when the first token is '(' and its match is the last token |
| ExprEval.CheckExact | nemu/src/monitor/debug/expr.c:209-234 | on every range, the answer is right if and only if it is not a balanced inside with a parenthesis on one end only |
| ExprEval.CheckAcceptsOneSided | nemu/src/monitor/debug/expr.c:209-234 | a range that does not start with '(' and is accepted |
| ExprEval.CheckParentheses | nemu/src/monitor/debug/expr.c:209-234 | the counting loop decides this condition on every range of at least three tokens |
| ExprEval.FindMainOp | nemu/src/monitor/debug/expr.c:303-330 | the right-to-left loop returns the position that the specification's scan selects, inside the range |
| ExprEval.Eval | nemu/src/monitor/debug/expr.c:262-355 | terminates on every range and returns the specified value or stops |
| ExprLiteral.NumeralExact | nemu/src/monitor/debug/expr.c:274-279 | below 2^32 a numeral is read as the C constant of the same text if and only if it has no leading zero or is a digit below 8 after zeros |
| ExprLiteral.SaturationExact | nemu/src/monitor/debug/expr.c:274-279 | a numeral is read modulo 2^32 if and only if it is below 2^63 or the saturated value happens to agree |
| ExprLiteral.PlainAgrees | nemu/src/monitor/debug/expr.c:273-294 | a plain operand, also a hexadecimal number, register or dereference, has its C value |
| ExprLiteral.LeadingZeroDiffers | nemu/src/monitor/debug/expr.c:274-279 | "010" is 8 in C and 10 to `eval`; "08" is no constant of C and 8 to `eval` |
| ExprLiteral.SaturationDiffers | nemu/src/monitor/debug/expr.c:274-279 | 2^63 is 0 modulo 2^32 and 0xffffffff to `eval` |
| ExprTree.ScanTree | nemu/src/monitor/debug/expr.c:236-330 | scanning a printed tree selects its root: the rightmost operator of lowest precedence outside parentheses |
| ExprTree.CheckOnTree | nemu/src/monitor/debug/expr.c:209-234 | a printed tree passes the test exactly when it is a parenthesised tree |
| ExprTree.EvalTree | nemu/src/monitor/debug/expr.c:236-355 | `eval` on the tokens of every grammatical tree returns the value of the tree when all operands are evaluated, and stops exactly when that is undefined |
| ExprTree.EvalMeansC | nemu/src/monitor/debug/expr.c:332-351 | against an independent C semantics with C constants and short-circuit `&&`: on every tree with plain operands `eval` returns the C value if and only if every divisor is nonzero and every register exists, also in operands C would skip |
| ExprTree.EvalAnyTree | nemu/src/monitor/debug/expr.c:236-355 | every tree with plain operands, printed with the parentheses it needs, evaluates to its C value if and only if everything in it is defined |
| ExprTree.ShortCircuitDiffers | nemu/src/monitor/debug/expr.c:332-347 | `0 && 1/0` is 0 in C and stops `eval` |
| ExprText.LexToken | nemu/src/monitor/debug/expr.c:93-203 | every token that can be written is read back from its text, after any tokens that leave a star its meaning |
| ExprText.LexStar | nemu/src/monitor/debug/expr.c:128-139 | '*' is a multiplication exactly after a number or a closing parenthesis |
| ExprText.StarsExactly | nemu/src/monitor/debug/expr.c:128-139 | the condition on the stars of a text: each stands after a decimal or hexadecimal number or a closing parenthesis |
| ExprText.LexAsRead | nemu/src/monitor/debug/expr.c:93-203 | every text of writable tokens is accepted, and read as these tokens with each '*' after a register or a dereference taken for a dereference |
| ExprText.LexWritten | nemu/src/monitor/debug/expr.c:93-203 | a token sequence is read back from its text, with any blanks, if and only if each of its multiplications follows a number or a closing parenthesis |
| ExprText.TextIsRead | nemu/src/monitor/debug/expr.c:93-203 | the same for the text of every tree with registers, hexadecimal numbers, dereferences and all operators |
| ExprText.MisreadHasNoValue | nemu/src/monitor/debug/expr.c:128-355 | a tree whose text is misread gets no value: `eval` stops |
| ExprText.StarAfterRegister | nemu/src/monitor/debug/expr.c:128-139 | "$eax*2" stops the program, whatever eax holds |
| ExprText.TextMeansC | nemu/src/monitor/debug/expr.c:357-373 | `expr` on the text of every grammatical tree with plain operands returns v if and only if no '*' is misread, everything in the tree is defined and v is the C value; otherwise it stops |
| ExprText.TextExact | nemu/src/monitor/debug/expr.c:357-373 | for every text with balanced parentheses that is tokenized: `expr` returns v if and only if its tokens are the printing of a tree with value v |
| ExprText.DivisionByRegister | nemu/src/monitor/debug/expr.c:280-341 | "1/$eax" stops the program exactly when eax is zero or unknown |
| ExprGrammar.GrammarOfC | nemu/src/monitor/debug/expr.c:41-50 | the precedences of the rule table admit exactly the trees of the C grammar, which is stated level by level without numbers |
| ExprGrammar.Associates | nemu/src/monitor/debug/expr.c:236-330 | for all operands and all pairs of operators, "a op1 b op2 c" is a op1 (b op2 c) exactly when op2 binds tighter in C and (a op1 b) op2 c otherwise; no other tree prints like this, and `eval` returns its value |
| ExprGrammar.ParenthesizedIsC | nemu/src/monitor/debug/expr.c:41-50 | the parentheses put into an arbitrary tree are those that the C grammar asks for, and none where it asks for none |
| ExprGrammar.ExpressionOfC | nemu/src/monitor/debug/expr.c:357-373 | `expr` on every text of an expression of the C grammar with plain operands returns its C value if everything in it is defined and no '*' is misread, and stops otherwise |
| ExprGrammar.ThreeNumbers | nemu/src/monitor/debug/expr.c:357-373 | `expr` on the text of any three numerals with any two operators |
| ExprGrammar.ProductFirst | nemu/src/monitor/debug/expr.c:41-45 | "x+y*z" is x + y * z modulo 2^32 |
| ExprGrammar.ProductThenLess | nemu/src/monitor/debug/expr.c:41-45 | "x*y-z" is x * y - z modulo 2^32 |
| ExprGrammar.MinusFromLeft | nemu/src/monitor/debug/expr.c:303-330 | "x-y-z" is (x - y) - z modulo 2^32 |
| ExprGrammar.DivideFromLeft | nemu/src/monitor/debug/expr.c:303-341 | "x/y/z" is (x / y) / z and stops exactly when a divisor is zero |
| ExprGrammar.SumBeforeEqual | nemu/src/monitor/debug/expr.c:41-49 | "x==y+z" compares x with the sum |
| ExprGrammar.EqualBeforeAnd | nemu/src/monitor/debug/expr.c:41-50 | "x&&y==z" is true when x is not zero and y equals z |
| ExprGrammar.UnequalBeforeAnd | nemu/src/monitor/debug/expr.c:41-50 | "x!=y&&z" is true when x differs from y and z is not zero |
| ExprGrammar.GroupFirst | nemu/src/monitor/debug/expr.c:209-302 | "(x+y)*z" is (x + y) * z modulo 2^32 |
| ExprGrammar.SevenNotNine | nemu/src/monitor/debug/expr.c:41-45 | "1+2*3" is 7 |
| ExprTree.PrintInjective | nemu/src/monitor/debug/expr.c:236-355 | a token sequence is the printing of at most one grammatical tree, so the value is determined by the tokens |
| ExprParse.EvalExact | nemu/src/monitor/debug/expr.c:262-355 | for every balanced token sequence: `eval` returns v if and only if the sequence is the printing of a grammatical tree with value v |
| ExprParse.ScanDepth | nemu/src/monitor/debug/expr.c:303-330 | in a balanced sequence the operator that the scan selects stands outside all parentheses |
| ExprParse.JoinedByScan | nemu/src/monitor/debug/expr.c:303-330 | the operator that the scan selects joins the trees on its sides to a grammatical tree |
| ExprParse.OneSidedRange | nemu/src/monitor/debug/expr.c:209-302 | where the parenthesis test errs, the sequence is no expression and `eval` returns v if and only if the inside means v |
| ExprParse.OneSidedWitness | nemu/src/monitor/debug/expr.c:209-302 | "(5 7" is no expression and evaluates to 5 |
| ExprTokenizer.TokenArray.MakeToken | nemu/src/monitor/debug/expr.c:93-203 | the token array holds exactly the specified tokens; rejection, a failed assertion and a register name that overruns its slot occur exactly when the specification says so |
| ExprTokenizer.TokenArray.RecordToken | nemu/src/monitor/debug/expr.c:118-192 | one match that fits its slot is recorded in the array as specified, including the choice between multiplication and dereference; over-long numbers fail |
| ExprTokenizer.TokenArray.Expr | nemu/src/monitor/debug/expr.c:357-373 | value, rejection, stop or overrun of the whole call |
| ExprTokenizer.MatchRule | nemu/src/monitor/debug/expr.c:29-56 | the first matching rule consumes at least one and at most all characters, so tokenizing terminates |
| ExprGen.Generator.GenNum | nemu/tools/gen-expr/gen-expr.c:48-60 | appends the text of the selected number if it fits, and fails exactly otherwise, with the buffer unchanged |
| ExprGen.Generator.GenRandOp | nemu/tools/gen-expr/gen-expr.c:62-74 | appends the selected operator, and fails exactly when the buffer is full |
| ExprGen.Generator.GenRandExpr | nemu/tools/gen-expr/gen-expr.c:76-99 | succeeds exactly when the random numbers select a derivation whose text fits, and then has appended exactly this text; the buffer never overflows |
| ExprGen.FitsExactly | nemu/tools/gen-expr/gen-expr.c:40-99 | a text fits if and only if it leaves no more than 65535 characters in the buffer, and 65534 when it ends with a number |
| ExprGen.EverySelected | nemu/tools/gen-expr/gen-expr.c:76-99 | every derivation is selected by some random numbers |
| ExprGen.Generator.GenChosen | nemu/tools/gen-expr/gen-expr.c:76-99 | so every text of the grammar that fits can be generated |
| ExprGen.LexText | nemu/tools/gen-expr/gen-expr.c:40-99 | every generated text is accepted in any context and every '*' in it becomes a multiplication |
| ExprGen.JoinPrint | nemu/tools/gen-expr/gen-expr.c:76-99 | joining two grammatical trees by an operator gives the C tree of the unparenthesised text |
| ExprGen.NumberValue | nemu/src/monitor/debug/expr.c:271-276 | a generated number is read back as the number that was printed |
| ExprGen.GeneratedTextEvaluates | nemu/src/monitor/debug/expr.c:357-373 | `expr` on every generated text returns the value of the one C tree it prints, and stops exactly on division by zero |
| ExprGen.GeneratedTextMeansC | nemu/src/monitor/debug/expr.c:357-373 | `expr` on a generated text returns v if and only if v is its C value and no divisor in it is zero; otherwise it stops |
| NativeVme.Host.Protect | abstract-machine/am/src/native/vme.c:28-33 | a new empty space; lists, marks and live mappings of all others unchanged |
| NativeVme.Host.UnmapList | abstract-machine/am/src/native/vme.c:45-53 | afterwards nothing is live, no node is marked, and every list is as it was |
| NativeVme.Host.MapList | abstract-machine/am/src/native/vme.c:55-62 | afterwards exactly the pages of this list are live and exactly its nodes are marked; its assertion cannot fail |
| NativeVme.Host.Switch | abstract-machine/am/src/native/vme.c:38-65 | the live mappings become those of the next space, none for NULL; no space changes |
| NativeVme.Host.Find | abstract-machine/am/src/native/vme.c:75-77 | finds the node of the page exactly when the page is listed |
| NativeVme.Host.Map | abstract-machine/am/src/native/vme.c:67-96 | fails exactly on the source's assertions; a page not listed is added to this space only and is live at once if the space is installed; afterwards the walk of the list ends if and only if the page was not listed before |
| NativeVme.Relinked | abstract-machine/am/src/native/vme.c:75-89 | a listed node linked in front of its own list leaves a list whose walk never ends |
| NativeVme.NewNode | abstract-machine/am/src/native/vme.c:79-89 | a new node behind the head adds one page to this list; every other list stays acyclic, disjoint and the same |
| NativeVme.StepMeans | abstract-machine/am/src/native/vme.c:28-96 | what the specified steps mean, entry by entry: which page of which space has which frame and protection afterwards |
| NativeVme.SpaceHistory | abstract-machine/am/src/native/vme.c:67-96 | over a whole run a space holds exactly what was mapped into it, whatever happened to other spaces |
| NativeVme.Host.Run | abstract-machine/am/src/native/vme.c:28-96 | over every legal run all lists stay acyclic and disjoint, marks are set on exactly the installed list, and the live mappings are exactly its entries |
| GdbProtocol.HexEncode | nemu/tools/qemu-diff/src/protocol.c:40-47 | a digit that decodes to the same value |
| GdbProtocol.DecodeHex | nemu/tools/qemu-diff/src/protocol.c:49-53 | yields a byte if and only if both characters are hexadecimal digits |
| GdbProtocol.ReceivePacket | nemu/tools/qemu-diff/src/protocol.c:174-275 | every write stays inside the growing buffer; payload, terminator, checksum verdict and rest of the input are as specified |
| GdbProtocol.Reserve | nemu/tools/qemu-diff/src/protocol.c:234-263 | doubling once always makes room for the next bytes and keeps those already stored |
| GdbProtocol.RecvPieces | nemu/tools/qemu-diff/src/protocol.c:188-267 | in the middle of a packet, any sequence of plain, escaped and repeated bytes whose pieces fit is decoded to what it encodes, and adds its bytes to the checksum |
| GdbProtocol.PieceExact | nemu/tools/qemu-diff/src/protocol.c:188-267 | for any byte plain or escaped, any output so far and any input to follow: the state of the loop after the piece is the one the protocol asks for if and only if the transmitted character is no marker and no '*' that starts a repetition |
| GdbProtocol.FollowsExact | nemu/tools/qemu-diff/src/protocol.c:188-267 | the loop is in the right state after every piece of an encoding if and only if all pieces fit |
| GdbProtocol.ReadsThenRecv | nemu/tools/qemu-diff/src/protocol.c:188-267 | what is received depends on the characters read so far only through the state of the loop |
| GdbProtocol.Decodes | nemu/tools/qemu-diff/src/protocol.c:174-275 | the receiver inverts every encoding whose pieces fit, after any leading bytes in which no '#' follows a '$', and accepts if and only if the two digits equal the byte sum modulo 256 |
| GdbProtocol.Restart | nemu/tools/qemu-diff/src/protocol.c:188-195 | a '$' starts a new packet in every state, whatever was received before |
| GdbProtocol.EscapedStarIsARun | nemu/tools/qemu-diff/src/protocol.c:216-255 | after any output and before any count character, an escaped '*' is taken for a repetition and the escape stays pending |
| GdbProtocol.EscapedBracketIsLost | nemu/tools/qemu-diff/src/protocol.c:216-218 | an escaped ']' stores nothing, in any state, and the escape stays pending |
| GdbProtocol.EscapedBracketWitness | nemu/tools/qemu-diff/src/protocol.c:216-255 | "}}a", which encodes "]a", is received as "A" with its checksum accepted |
| GdbProtocol.MisreadByLuck | nemu/tools/qemu-diff/src/protocol.c:216-255 | a packet with a piece that does not fit can still come out right, so the exact condition speaks of pieces |
| GdbProtocol.EveryPayload | nemu/tools/qemu-diff/src/protocol.c:174-275 | every payload whatsoever has an encoding that is received as that payload |
| GdbProtocol.SendPacket | nemu/tools/qemu-diff/src/protocol.c:139-159 | frames the command with the two digits of its byte sum |
| GdbProtocol.SendReceive | nemu/tools/qemu-diff/src/protocol.c:139-275 | the receiver inverts the sender on commands without special characters |
| GdbText.DigitFor | nemu/tools/qemu-diff/src/protocol.c:45-47 | the digit of every value below 16 is the character at its position in 0123456789abcdef, in upper case for the checksum |
| GdbText.DigitValue | nemu/tools/qemu-diff/src/protocol.c:40-43 | exactly these characters, in either case, are digits, and the value of each is its position |
| GdbText.PairValue | nemu/tools/qemu-diff/src/protocol.c:49-53 | two digits in any cases decode to 16 times the first plus the second |
| GdbText.RegisterText | nemu/tools/qemu-diff/src/gdb-host.c:68-90 | byte j of word i, from the low end, stands at position 8i + 2j of the register text, high digit first |
| GdbText.ReplyOk | nemu/tools/qemu-diff/src/protocol.c:174-215 | "$OK#9a" is received as "OK" with its checksum accepted |
| GdbText.RunOfZeros | nemu/tools/qemu-diff/src/protocol.c:220-255 | "$0* #7a" is received as "0000" |
| GdbText.StarThen | nemu/tools/qemu-diff/src/protocol.c:220-255 | in any state, exactly which characters after a star make it a repetition, of how many bytes, and what it is otherwise |
| GdbText.NoPair | nemu/tools/qemu-diff/src/protocol.c:49-53 | without two digits the result is 65535 and the checksum is refused |
| GdbText.EscapedHash | nemu/tools/qemu-diff/src/protocol.c:216-247 | '}' and the byte 3 are received as '#' |
| GdbText.SentText | nemu/tools/qemu-diff/src/protocol.c:139-152 | the command "OK" is sent as "$OK#9A" |
| GdbHost.SetRegs | nemu/tools/qemu-diff/src/gdb-host.c:68-90 | 'G' followed by the little-endian hex text of every word |
| GdbHost.DecodeHexStr | nemu/tools/qemu-diff/src/protocol.c:55-65 | value of a string of hex pairs, first pair least significant, in 64-bit arithmetic |
| GdbHost.GetRegs | nemu/tools/qemu-diff/src/gdb-host.c:47-66 | every register is the value of its eight characters, and the reply bytes are restored |
| GdbHost.SetThenGet | nemu/tools/qemu-diff/src/gdb-host.c:47-90 | reading the text written for any register file gives back every word |
| GdbHost.MemcpyToQemu | nemu/tools/qemu-diff/src/gdb-host.c:34-45 | for every length the chunks concatenate to the source and land at consecutive addresses, all but the last full |
| X86Mov.WriteRegBytes | nemu/src/isa/x86/local-include/reg.h:15-17 | writing an 8-, 16- or 32-bit view changes exactly the bytes of that view |
| X86Mov.ReadRegBytes | nemu/src/isa/x86/local-include/reg.h:15-17 | reading a view gives the value of exactly its bytes |
| X86Mov.ReadWrittenMem | nemu/src/memory/paddr.c:30-66 | a little-endian store reads back |
| X86Mov.MoveDelivers | nemu/src/isa/x86/exec/data-mov.h:1-4 | the target holds what the source held before, and the move fails exactly when source or target is outside memory |
| X86Mov.MoveFrame | nemu/src/isa/x86/local-include/decode.h:294-298 | no other register byte and no other memory byte changes |
| X86Mov.ParseRMEncoded | nemu/src/isa/x86/decode.c:28-111 | every ModR/M, SIB and displacement choice is decoded from its encoding |
| X86Mov.DecodeEncoded | nemu/src/isa/x86/exec/exec.c:71-121 | every form with any number of prefixes is decoded from its encoding, with the right width and length |
| X86Mov.ParsedValid | nemu/src/isa/x86/exec/exec.c:71-121 | whatever is decoded is a valid form of a valid width inside memory |
| X86Meaning.AddressIsEffective | nemu/src/isa/x86/decode.c:28-71 | the address of every memory operand is the effective address of the manual: no base for mod 0 with number 5, no index for number 4, the index shifted by the scale, and a one-byte displacement d of 128 or more reaching 256 - d bytes down |
| X86Meaning.OperandPlaces | nemu/src/isa/x86/local-include/decode.h:106-172 | form by form, source and target of the move are the register, the effective address, the absolute address or the immediate that the operand fields name |
| X86Meaning.Views | nemu/src/isa/x86/local-include/reg.h:15-17 | the 16-bit view is the low half of the 32-bit one, and made of the high and the low byte view |
| X86Meaning.WrittenViews | nemu/src/isa/x86/local-include/reg.h:15-17 | writing a view changes the value of its 32-bit register by exactly this part and no other register |
| X86Meaning.LowFirst | nemu/src/memory/paddr.c:30-41 | the low byte and the low half of a word come first in memory |
| X86Meaning.OpcodeBits | nemu/src/isa/x86/exec/exec.c:76-108 | the width, direction and register bits of the opcodes; no other opcode is decoded as a move |
| X86Meaning.LoadBelowFrame | nemu/src/isa/x86/decode.c:51-58 | 8B 45 FC with ebp = 0x1000 loads eax from 0x0ffc |
| X86Meaning.StoreIndexed | nemu/src/isa/x86/decode.c:35-67 | 66 89 84 8B 78 56 34 12 stores ax at ebx + 4 * ecx + 0x12345678 |
| X86Exec.Interpreter.LoadAddr | nemu/src/isa/x86/decode.c:28-98 | base, index and displacement registers stand for the effective address modulo 2^32 of the decoded operand |
| X86Exec.Interpreter.ReadModRM | nemu/src/isa/x86/decode.c:100-111 | both operands denote and hold what the decoded ModR/M byte says |
| X86Exec.Interpreter.OperandReg | nemu/src/isa/x86/local-include/decode.h:6-19 | a register operand holds the value of its view |
| X86Exec.Interpreter.OperandWrite | nemu/src/isa/x86/local-include/decode.h:294-298 | writes the register view or the memory bytes and nothing else |
| X86Exec.Interpreter.DecodeAndMove | nemu/src/isa/x86/local-include/decode.h:106-172 | each row of the table performs the move of its form |
| X86Exec.Interpreter.IsaExecOnce | nemu/src/isa/x86/exec/exec.c:71-133 | one step does what the decoder and the move prescribe, and sets pc to the end of the instruction; what is not decoded is another instruction exactly when the opcode after the prefixes is inside memory and not in the table, and otherwise an access outside memory |
| X86Exec.ExecuteEncoded | nemu/src/isa/x86/exec/exec.c:71-133 | for every form, width, prefix count and operand choice, executing the encoding performs exactly its move, so that the target then holds what the source held, and advances pc by its length |
| X86Exec.Interpreter.WriteMemory | nemu/src/memory/paddr.c:43-66 | stores little-endian bytes in place, exactly when all of them are inside |
| Watchpoint.WatchPool.constructor | nemu/src/monitor/debug/watchpoint.c:10-22 | all 32 nodes are free, numbered, in one list that ends |
| Watchpoint.WatchPool.NewWp | nemu/src/monitor/debug/watchpoint.c:26-36 | moves the first free node to the front of the active list; fails exactly when none is free |
| Watchpoint.WatchPool.FreeWp | nemu/src/monitor/debug/watchpoint.c:38-58 | removes exactly this node from the active list and frees it; fails exactly when it is not active |
| Watchpoint.WatchPool.NoToWp | nemu/src/monitor/debug/watchpoint.c:60-66 | finds the node with this number if and only if it is active |
| Watchpoint.WatchPool.CheckWpChanged | nemu/src/monitor/debug/watchpoint.c:80-99 | stops the program exactly when some active text has no value; otherwise stores the current value in every active node, and answers whether any differed |
| Watchpoint.Taken | nemu/src/monitor/debug/watchpoint.c:26-36 | the relinking keeps both lists ending, free of repetition, disjoint and together complete |
| Watchpoint.ReleasedLater | nemu/src/monitor/debug/watchpoint.c:45-57 | so does unlinking a node from the middle or the end of the active list |
| Watchpoint.PoolSize | nemu/src/monitor/debug/watchpoint.c:5-22 | the lengths of the lists always add up to 32 |
| CpuExec.Monitor.CpuExec | nemu/src/monitor/cpu-exec.c:68-123 | runs nothing after END or ABORT; otherwise stops right after the first instruction that exits or changes a watched value, or after n; takes the program down exactly when a watched text then has no value; otherwise never returns in RUNNING (STOP when n is 0) and every watchpoint is in sync |
| CpuExec.Monitor.ExecOnce | nemu/src/monitor/cpu-exec.c:78-105 | the program goes down exactly when a watched text has no value in the new machine; otherwise the loop goes on exactly when the instruction was quiet, and every watchpoint stores its new value |
| CpuExec.EndsInOne | nemu/src/monitor/cpu-exec.c:29-36 | the state after the last instruction is the one that the rules for exits, watched changes and neither prescribe: END or ABORT as requested, or STOP |
| CpuExec.ContinuedMeans | nemu/src/monitor/cpu-exec.c:68-123 | the specification of `si` and `c` in terms of single instructions: nothing after END or ABORT, otherwise up to the first instruction that is not quiet, whose outcome decides the end state |
| CpuExec.GoodTrap | nemu/src/isa/x86/exec/special.c:31-31 | a `nemu_trap` that changes nothing watched ends the run in END with its program counter and code |
| CpuExec.StopsOnce | nemu/src/monitor/cpu-exec.c:78-105 | the number of instructions is determined by machine, watched texts and n |
| CpuExec.RanStops | nemu/src/monitor/cpu-exec.c:78-105 | a recursive count meets the description of where a run stops |
| CpuExec.RunsCompose | nemu/src/monitor/cpu-exec.c:68-123 | stepping n1 and then n2 instructions is stepping n1 + n2, as long as the first steps are quiet |
| CpuExec.CheckFinds | nemu/src/monitor/debug/watchpoint.c:80-99 | a check of watchpoints that store the values of one machine reports exactly the changes to another |
| CpuExec.CheckStops | nemu/src/monitor/debug/watchpoint.c:84-90 | the check stops the program exactly when some watched text has no value in this machine |
| CpuExec.ExprMonitor | nemu/src/monitor/debug/watchpoint.c:88-88 | all of this holds with the debugger's own expressions as evaluator |
| CpuExec.Monitor.CmdW | nemu/src/monitor/debug/ui.c:96-114 | as specified: watches the text from now on; a text that is no expression leaves both lists as they were and ends the session; the program goes down exactly when there is no text, 32 are active or the evaluation stops |
| CpuExec.Monitor.CmdD | nemu/src/monitor/debug/ui.c:115-133 | the named watchpoints move to the free list one by one, as specified; exactly the active watchpoints that are not named remain, in their order, with their texts and values; without a number the session ends |
| CpuExec.Monitor.CmdC | nemu/src/monitor/debug/ui.c:30-52 | `si` and `c`: machine, state and instruction count afterwards are the specified ones |
| CpuExec.WatchThenDelete | nemu/src/monitor/debug/ui.c:96-133 | deleting the watchpoint that `w` has just set restores watched texts, free numbers, machine and state |
| CpuExec.Monitor.Execute | nemu/src/monitor/debug/ui.c:30-133 | each command changes watched texts, free numbers, machine, state and instruction count as specified, or ends the session, or takes the program down, exactly when the specification says so |
| CpuExec.SessionEnds | nemu/src/monitor/debug/ui.c:216-244 | no command follows the end of a session |
| CpuExec.Monitor.Run | nemu/src/monitor/debug/ui.c:216-244 | every session, command by command, is the specified one, up to the first command that ends it or takes the program down; before that every active watchpoint stores its value in the current machine and the lists are whole; the machine is the one after the counted instructions |
| Audio.AudioBuffer.AudioPlay | abstract-machine/am/src/native/native-audio.c:9-24 | delivers the front of the queue in order, then silence, and writes no further; the queue loses exactly these bytes |
| Audio.AudioBuffer.AudioWrite | abstract-machine/am/src/native/native-audio.c:26-42 | appends as many bytes as fit, in order, across the wrap-around |
| Audio.AudioBuffer.AmAudioPlay | abstract-machine/am/src/native/native-audio.c:66-71 | waits until there is room and then queues every byte; it stops waiting as soon as the callbacks have asked for enough |
| Audio.AudioBuffer.Reset | abstract-machine/am/src/native/native-audio.c:53-54 | empties the queue |
| Audio.Amounts | abstract-machine/am/src/native/native-audio.c:9-42 | how much a write adds and a callback takes, in bytes of the 65536, which bytes, and what is silence |
| Audio.RingDrop | abstract-machine/am/src/native/native-audio.c:13-22 | moving the tail modulo the size drops exactly the front of the queue |
| Audio.RingAppend | abstract-machine/am/src/native/native-audio.c:31-40 | storing at head = tail + count modulo the size, wrapped or not, appends to the queue |
| Audio.Conservation | abstract-machine/am/src/native/native-audio.c:9-42 | over every run, what was queued and accepted is what was played followed by what is still queued |
| Audio.PlayedIsPrefix | abstract-machine/am/src/native/native-audio.c:9-42 | real bytes played are a prefix of bytes accepted |
| Audio.Drained | abstract-machine/am/src/native/native-audio.c:66-71 | callbacks reduce the queue by what they ask for until it is empty |
| Audio.AudioBuffer.Run | abstract-machine/am/src/native/native-audio.c:9-42 | over every run of writes and callbacks the ring buffer has the contents and outputs of the queue |
| BringUp.StepKeepsInv | abstract-machine/am/src/x86/qemu/mpe.c:12-34 | every step of every CPU keeps the protocol invariant |
| BringUp.BringUpSafe | abstract-machine/am/src/x86/qemu/mpe.c:12-34 | in every interleaving at most one CPU is on the boot stack, none takes a wrong turn, no signal is overwritten; when the boot CPU calls the entry all others are up and no signal is pending |
| BringUp.InvIsSafe | abstract-machine/am/src/x86/qemu/boot/start.S:48-49 | the invariant implies exclusive use of the shared boot stack |
| BringUp.StepWorks | abstract-machine/am/src/x86/qemu/mpe.c:15-21 | a step changes nothing (a turn of the spin loop) or brings the end nearer by exactly one |
| BringUp.SomeoneMoves | abstract-machine/am/src/x86/qemu/trm.c:14-34 | no deadlock: short of the end some CPU can take a step that changes something |
| BringUp.BringUpBounded | abstract-machine/am/src/x86/qemu/mpe.c:12-34 | every interleaving makes at most 11 * others + 6 effective steps, and exactly as many when all CPUs are up |
| BringUp.BringUpCanFinish | abstract-machine/am/src/x86/qemu/mpe.c:12-34 | whatever has happened so far, all CPUs can still come up |

## Left out

- Int64.UDivMod: the remainder is always computed; the calls that pass a null pointer for it only skip the store. A zero divisor is undefined in C and excluded.
- VmeMachine.Machine.PgAllocZ: the allocator behind `pgalloc` is a set of unused aligned pages, not an algorithm.
- GdbProtocol.Decodes: one direction only for a whole packet, because a misread packet can come out right (`GdbProtocol.MisreadByLuck`); the exact condition is proved for every piece and every piece boundary (`GdbProtocol.PieceExact`, `GdbProtocol.FollowsExact`).
- VmeMachine.Machine.VmeInit: the test for the boot CPU and setting CR3 and CR0 are not modelled.
- VmeMachine.Machine.VmeInit64: the page of the PML4 is zero before start64.S writes its first entry.
- Vme.TranslationIsMap: addresses are those the tables can translate (32 or 48 bits); canonical form on 64-bit machines, the width of physical addresses and reserved bits are not checked. The walk ends at the page frame; the offset inside a page and inside a 1 GiB boot page is not part of a translation.
- ExprTokenizer.TokenArray.MakeToken: regular expressions are longest-match functions in table order; strings have fewer than 63,000 characters; clearing a slot clears that slot only. A register name of 32 or more characters is an outcome of its own (the source writes past the slot), about whose consequences nothing is said.
- ExprText.TextMeansC: numbers are written without the suffix U, which the tokenizer also admits (texts with it are covered by `ExprText.TextExact` and, for generated ones, by `ExprGen.GeneratedTextMeansC`). It is about plain operands; exactly which numerals are not, and what becomes of them, is stated by `ExprLiteral.NumeralExact` and `ExprLiteral.SaturationExact`.
- ExprParse.EvalExact: is about balanced sequences; among the others, the ranges on which the parenthesis test errs are covered by `ExprParse.OneSidedRange`, and no value is stated for the rest.
- ExprTree.EvalTree: is about tokens; which texts produce them is stated by `ExprText.TextIsRead`.
- ExprGen.Generator.GenRandExpr: the random numbers are a finite sequence of choices; which of the two failures is reported when both the choices and the buffer run out is not stated. The outer `main`, which compiles and runs a C program, is not modelled.
- NativeVme.Host.Run: one CPU; pages mapped at most once per space (what happens otherwise is in the contract of `NativeVme.Host.Map`). `unprotect` is empty in the source.
- GdbHost.MemcpyToQemu: each chunk is an address with its bytes; the text of the "M" command around them is not modelled.
- GdbHost.GetRegs: replies are long enough for all registers, as the stub's replies are; the socket and acknowledgements are not modelled.
- X86Exec.Interpreter.IsaExecOnce: accesses outside physical memory (memory-mapped devices) are one outcome, `Outside`; opcodes other than `mov` and the operand-size prefix are not decoded.
- Watchpoint.WatchPool.FreeWp: `malloc` and `free` of the watched text are not modelled, the text is a value.
- CpuExec.Monitor.CpuExec: evaluating a text does not change the machine (no device reads); device updates (HAS_IOE is not defined) and differential testing are not part of a step; the instruction counter does not wrap.
- CpuExec.Monitor.Run: the commands arrive parsed; `p`, `x`, `info` and `help` only print and are not commands of the model.
- Audio.AudioBuffer.AudioPlay: callbacks and writes are atomic; the data race on `count` is not modelled.
- BringUp.BringUpSafe: memory is sequentially consistent, and panics after `user_entry` returns are not modelled.
- Differential testing (`nemu/src/monitor/difftest`, `nemu/tools/kvm-diff`): its comparison is a stub and the reference machine is foreign.
- x86 arithmetic, logic, control, stack and flag helpers: they panic as unimplemented.
- The mips32, riscv32 and riscv64 executors, the string and stdio stubs of klib: little or no behaviour.
- Keyboard queues and the device address allocator: simpler variants of the ring buffer and of page allocation.
- Sockets, SDL, signals, timers, port I/O, interrupt controllers, disks, trap assembly, logging and the reading of command lines: input and output only.

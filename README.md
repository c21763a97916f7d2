# LC-3 interpreter, modelled in Dafny

This project models the interpreter core of a small LC-3 virtual machine
written in Go (`lc3.go`). The core has four parts:

- the global memory (`mem`, 65535 sixteen-bit cells);
- the register file (`reg`: R0-R7, R_PC, R_COND);
- the key buffer;
- the pass of `main`'s loop that fetches, decodes and executes one
  instruction, and the helpers `memRead`, `memWrite`, `updateFlags` and
  `signExtend`.

The project proves what one step does to each part of the machine.

Files and modules:

- `bits.dfy` (`Bits`): sixteen-bit words and Go's `uint16` operators.
  - `&`, `|`, `^` (complement), `>>` and `<<` are defined on integer words
    by recursion over the bits.
  - `+` is addition with wrap-around at 2^16.
  - It also holds `signExtend` and the instruction fields (opcode, DR, SR1,
    SR2, mode bits, trap vector, sign-extended immediates and offsets).
- `isa.dfy` (`Isa`): the constants of the source:
  - register numbers, opcodes, flags and trap vectors;
  - `MR_KBSR`, `PC_START` and the memory size;
  - Go's `rune`;
  - the outcomes of a step.
- `semantics.dfy` (`Semantics`): one step as a function on a machine-state
  value: `Load` (`memRead`), `Store` (`memWrite`), `FlagOf` (`updateFlags`),
  the opcode groups, `Trap`, `Execute`, `Step` and `Run`.
- `machine.dfy` (`Lc3`): the interpreter as it is written, imperatively.
  - The class `Machine` holds the globals as fields: `mem` and `reg` as
    arrays, the key buffer as a sequence, and the characters printed so far
    as a sequence.
  - Its methods are proved to compute exactly the `Semantics` functions.
- `properties.dfy` (`Properties`): opcode-by-opcode statements, and the
  facts no step can violate:
  - the PC moves only by BR, JMP and JSR;
  - memory changes only by a store, in one cell;
  - keys are consumed only by GETC;
  - R_COND holds a flag once it is set;
  - output only grows;
  - a fault commits nothing but the PUTS output already written.

## Outcomes

A step ends in one of four reported outcomes:

- `Continue`: the pass completed normally.
- `TrapNotImplemented(instr)`: an unimplemented trap vector. The source
  prints a diagnostic and carries on.
- `AwaitingKey`: GETC found the key buffer empty. The source spins there
  for ever.
- `Fault(reason)`: the process ends, for one of these reasons:
  - RES or RTI (`os.Exit(2)`);
  - an index out of range on the 65535-cell memory (a Go panic);
  - the unbounded recursion of `memRead(MR_KBSR)`, modelled as a stack
    overflow.

## Where the code and the design of the system disagree

The model follows the code in each of these cases:

- **Fetch.** The instruction is fetched from `PC + 1`, and the PC is never
  advanced.
- **Loop.** `main`'s loop clears `running` at the end of its first pass, so
  exactly one instruction executes after the PC is set to 0x3000. `Run` and
  `Machine.Run` model that single pass.
- **Memory size.** Memory has 65535 cells, not 65536, so reading, writing or
  fetching at 0xFFFF panics.
- **Keyboard status.** A read of MR_KBSR (0xFE00) calls `memRead(MR_KBSR)`
  again before anything else, so it never returns. No keyboard mailbox
  exists: the key buffer is a queue consumed by GETC.
- **LDR.** The offset is added to the base register's number (0-7), not to
  its contents. STR does use the contents.
- **LEA.** It reads memory at the effective address, like LD, instead of
  loading the address.
- **Traps.** Only GETC, OUT and PUTS are implemented. IN, PUTSP and HALT
  fall into the default case, so HALT does not stop anything.
- **GETC** does not update R_COND.
- **PUTS** is a do-while loop, so the terminating zero word is also
  written out.
- **Flags.** R_COND starts at 0, which is no flag at all, and stays there
  until the first flag-setting instruction. While it is 0, BR is never
  taken.

## Model

| member | source | states |
|---|---|---|
| Bits.And | lc3.go:129 | `&` on uint16: the result is no larger than either operand |
| Bits.AndBitsBit | lc3.go:129 | bit i of `x & y` is set exactly when bit i is set in both |
| Bits.OrBitsBit | lc3.go:340 | bit i of the bitwise OR of x and y is set exactly when it is set in either |
| Bits.Or | lc3.go:340 | the `|=` of `signExtend` on uint16: the result is at least each operand, no bit being lost; its bit-by-bit meaning is Bits.OrBitsBit |
| Bits.Not | lc3.go:146 | `^x` on uint16 is 0xFFFF - x |
| Bits.NotBitsBit | lc3.go:146 | `^x` flips every one of the 16 bits |
| Bits.Add | lc3.go:103 | uint16 `+` is the sum when it is below 2^16, and the sum minus 2^16 otherwise |
| Bits.AddSigned | lc3.go:103 | when the two's-complement sum fits in 16 bits, the uint16 sum read as signed is that sum |
| Bits.AddSignedOffset | lc3.go:160 | adding a sign-extended offset to a word moves it by the offset's signed value, modulo 2^16 |
| Bits.ToSigned | lc3.go:331 | a word read as two's complement lies in [-2^15, 2^15) and is congruent to the word modulo 2^16 |
| Bits.Shr | lc3.go:81 | `>>` on an unsigned word never increases it; its value is Bits.ShrValue |
| Bits.ShrValue | lc3.go:81 | `x >> k` is x divided by 2^k, rounded down |
| Bits.ShrBound | lc3.go:81 | a word below 2^(k+m) shifted right by k is below 2^m, so `instr >> 12` is below 16 |
| Bits.ShrPositive | lc3.go:331 | `x >> k` is nonzero exactly when x is at least 2^k |
| Bits.Shl | lc3.go:340 | `<<` on uint16, the bits shifted past bit 15 dropped; its value is Bits.ShlValue |
| Bits.ShlValue | lc3.go:340 | `x << k` on uint16 is x times 2^k modulo 2^16 |
| Bits.ShlOnes | lc3.go:340 | `0xFFFF << n`, truncated to uint16, is 2^16 - 2^n, the ones above the low n bits |
| Bits.SignExtend | lc3.go:338-343 | `signExtend` only ever adds bits, so the result is at least x, and returns x unchanged when bit `bitCount - 1` is clear; its value is Bits.SignExtendValue |
| Bits.SignExtendValue | lc3.go:338-343 | `signExtend(x, n)` for an n-bit field leaves x unchanged when bit n-1 is clear, and otherwise sets every bit above n; read as signed, the result is x or x - 2^n |
| Bits.Opcode | lc3.go:81 | the opcode `instr >> 12` is below 16 |
| Bits.Dr | lc3.go:97 | `(instr >> 9) & 7` names a register 0-7 |
| Bits.Sr1 | lc3.go:98 | `(instr >> 6) & 7` names a register 0-7 |
| Bits.Sr2 | lc3.go:105 | `instr & 7` names a register 0-7 |
| Bits.TrapVector | lc3.go:273 | `instr & 0xFF` is at most 0xFF |
| Bits.SignExtendLowBits | lc3.go:338-343 | for an n-bit field x, the low n bits of `signExtend(x, n)` are x again: sign extension only adds bits above the field |
| Bits.ModeBits | lc3.go:99 | the immediate-mode test is bit 5 of the instruction, and JSR's offset test (line 186) is bit 11 |
| Bits.ImmMode | lc3.go:99-101 | the immediate-mode test `(instr >> 5) & 0x1 == 1`; Bits.ModeBits shows it is bit 5 |
| Bits.JsrOffsetMode | lc3.go:186-187 | the JSR offset test `(instr >> 11) & 1`; Bits.ModeBits shows it is bit 11 |
| Bits.DrBits | lc3.go:158 | bits 0-2 of the n/z/p field are instruction bits 9-11 |
| Bits.Imm5 | lc3.go:102 | `signExtend(instr & 0x1F, 5)` is the 5-bit field read as a signed number, in [-16, 16) |
| Bits.Offset6 | lc3.go:224 | `signExtend(instr & 0x3F, 6)` is the 6-bit field read as a signed number, in [-32, 32) |
| Bits.PcOffset9 | lc3.go:157 | `signExtend(instr & 0x1FF, 9)` is the 9-bit field read as a signed number, in [-256, 256) |
| Bits.PcOffset11 | lc3.go:191 | `signExtend(instr & 0x7FF, 11)` is the 11-bit field read as a signed number, in [-1024, 1024) |
| Isa.RuneToWord | lc3.go:280 | `uint16(rune)` keeps a rune in [0, 2^16) unchanged and is congruent to the rune modulo 2^16 in all cases |
| Semantics.Blank | lc3.go:8-10 | the globals start with every cell and register 0, the given keys waiting and nothing printed |
| Semantics.Load | lc3.go:314-323 | `memRead` returns a word exactly at a readable address (neither MR_KBSR nor 0xFFFF), and that word is the cell at the address |
| Semantics.Store | lc3.go:325-327 | `memWrite` succeeds exactly below 0xFFFF, and then the cell holds the value and every other cell is unchanged |
| Semantics.FlagOf | lc3.go:328-336 | exactly one flag: ZRO exactly when the value is 0, NEG exactly when it is negative as two's complement, which is exactly when bit 15 is set, POS exactly when it is positive |
| Semantics.SetRegister | lc3.go:203-204 | `reg[r0] = v` followed by `updateFlags(r0)` keeps the register file whole; its exact frame is Properties.SetRegisterWrites |
| Semantics.LoadInto | lc3.go:203-204 | the common tail of the loads, a faulting read or a register write with its flags; its meaning per opcode is in Properties.LdSemantics and the lemmas after it |
| Semantics.StoreFrom | lc3.go:245 | the common tail of the stores; its meaning per opcode is in Properties.StSemantics and the lemmas after it |
| Semantics.Puts | lc3.go:284-291 | the words PUTS prints from address a are never more than the cells from a to the end of memory; which words they are is Properties.PutsText |
| Semantics.Operand | lc3.go:101-107 | the second operand of ADD and AND, the immediate or SR2; Properties.AddSemantics and Properties.AndSemantics give its range and use |
| Semantics.Operate | lc3.go:83-147 | ADD, AND and NOT always continue; they change no memory, keys, output or PC, and leave a valid flag in R_COND |
| Semantics.Control | lc3.go:148-193 | BR, JMP and JSR always continue and change no memory, keys, output or R_COND |
| Semantics.LoadOp | lc3.go:195-236 | the loads change no memory, keys, output or PC; on success R_COND holds a valid flag; a failure is a memory fault that changes nothing |
| Semantics.StoreOp | lc3.go:237-265 | the stores change no register, keys or output, and change at most one memory cell; a failure is a memory fault that changes nothing |
| Semantics.Trap | lc3.go:273-294 | a trap never changes memory, the PC or R_COND; output only grows; keys change only by GETC dropping the first; a trap that does not continue changes no register or key; the only fault is PUTS reaching 0xFFFF; a wait or an unimplemented vector changes nothing |
| Semantics.Execute | lc3.go:82-304 | every one of the 16 opcodes has a case, so "Bad OPCODE" is never reached |
| Semantics.FetchAddress | lc3.go:80 | the fetch address `reg[R_PC] + 1` on uint16; Properties.StepFetches shows it is PC + 1 wrapping to 0 |
| Semantics.Step | lc3.go:79-304 | one pass of the loop body keeps the state well formed; what it does is Properties.StepFetches and the opcode lemmas, and Lc3.Machine.Step is proved to compute it |
| Semantics.Run | lc3.go:75-306 | `main` after the argument check: a single step from PC 0x3000; Properties.RunFromBlank runs it from the blank state and Lc3.Machine.Run is proved to compute it |
| Lc3.Machine.constructor | lc3.go:8-10 | the machine's state is the blank state with the given keys |
| Lc3.Machine.MemRead | lc3.go:314-323 | `memRead` returns `Load`: the cell, except a stack overflow at MR_KBSR and an out-of-range fault at 0xFFFF |
| Lc3.Machine.MemWrite | lc3.go:325-327 | `memWrite` succeeds exactly below 0xFFFF, and then changes exactly that cell |
| Lc3.Machine.UpdateFlags | lc3.go:328-336 | only R_COND changes, and it becomes the flag of the register's value |
| Lc3.Machine.Puts | lc3.go:284-291 | the loop appends exactly the words of `Semantics.Puts` from R0, and reports whether it stopped at a zero word |
| Lc3.Machine.Trap | lc3.go:273-294 | the trap switch computes the `Semantics.Trap` transition |
| Lc3.Machine.Operate | lc3.go:83-147 | the ADD, AND and NOT cases compute the `Semantics.Operate` transition |
| Lc3.Machine.Control | lc3.go:148-193 | the BR, JMP and JSR cases compute the `Semantics.Control` transition |
| Lc3.Machine.LoadOp | lc3.go:195-236 | the LD, LDI, LDR and LEA cases compute the `Semantics.LoadOp` transition |
| Lc3.Machine.StoreOp | lc3.go:237-265 | the ST, STI and STR cases compute the `Semantics.StoreOp` transition |
| Lc3.Machine.Step | lc3.go:79-304 | one pass of the loop body computes the `Semantics.Step` transition |
| Lc3.Machine.Run | lc3.go:75-306 | setting the PC to 0x3000 and running the loop computes `Semantics.Run`: one pass |
| Properties.LoadFaults | lc3.go:314-323 | a read succeeds exactly away from MR_KBSR and 0xFFFF and returns the cell; the two failures are a stack overflow and an out-of-range index |
| Properties.LoadAfterStore | lc3.go:325-327 | a store succeeds exactly away from 0xFFFF; a later read gets the stored word at that address (except MR_KBSR) and the old contents elsewhere |
| Properties.StepFetches | lc3.go:80-81 | the fetch address is PC + 1, wrapping to 0; a readable fetch executes the fetched word; KBSR and 0xFFFF fault with nothing changed |
| Properties.SetRegisterWrites | lc3.go:328-336 | a register write with its flag update changes exactly that register and R_COND |
| Properties.AddSemantics | lc3.go:83-108 | ADD writes SR1 + operand (mod 2^16) to DR with its flag, and nothing else; it is the signed sum when that fits; the immediate is in [-16, 16) |
| Properties.AndSemantics | lc3.go:110-134 | AND writes the bitwise AND of SR1 and the operand to DR with its flag, and nothing else |
| Properties.NotSemantics | lc3.go:135-147 | NOT writes 0xFFFF - SR1, every bit flipped, to DR with its flag, and nothing else |
| Properties.BranchCondition | lc3.go:158-159 | the test `condFlag & R_COND != 0` is exactly "n and NEG, or z and ZRO, or p and POS"; with R_COND still 0 it is false |
| Properties.BranchSemantics | lc3.go:148-161 | BR moves the PC by the signed 9-bit offset exactly when taken, and otherwise changes nothing |
| Properties.JmpSemantics | lc3.go:163-172 | JMP sets the PC to the base register and changes nothing else |
| Properties.JsrSemantics | lc3.go:173-193 | JSR sets R7 to the PC, then the PC to PC + offset11 (bit 11 set) or to the base register as it is after the link; nothing else changes |
| Properties.ReadFault | lc3.go:314-323 | an unreadable address faults with a stack overflow exactly at MR_KBSR, and otherwise with an out-of-range index at 0xFFFF |
| Properties.LdSemantics | lc3.go:195-204 | LD writes the word at PC + offset9 to DR with its flag, or faults with nothing changed |
| Properties.LeaSemantics | lc3.go:227-236 | LEA writes the word stored at PC + offset9, not the address, to DR with its flag, or faults with nothing changed |
| Properties.LdiSemantics | lc3.go:205-214 | LDI reads a pointer at PC + offset9 and writes the word it points to; either read can fault with nothing changed |
| Properties.LdrSemantics | lc3.go:215-226 | LDR reads at the base register's number plus offset6, so the address is below 39 or at least 0xFFE0 whatever the registers hold |
| Properties.StSemantics | lc3.go:237-245 | ST stores SR at PC + offset9, changing that cell only; at 0xFFFF it faults with nothing changed |
| Properties.StiSemantics | lc3.go:246-254 | STI stores SR where the word at PC + offset9 points; the pointer read or the store can fault with nothing changed |
| Properties.StrSemantics | lc3.go:255-265 | STR stores SR at the base register's contents plus offset6 |
| Properties.PutsText | lc3.go:284-291 | the PUTS words are memory from R0 up to and including the first zero word, or to the end of memory when there is none |
| Properties.GetcSemantics | lc3.go:274-280 | GETC with no key waits and changes nothing; otherwise R0 gets the first key as a word, that key is consumed, and no other register changes |
| Properties.OutSemantics | lc3.go:281-283 | OUT appends R0 to the output and changes nothing else |
| Properties.PutsSemantics | lc3.go:284-291 | PUTS appends memory from R0 through the first zero word; running off the end of memory appends the rest and faults; nothing but the output changes |
| Properties.OtherTrapsNotImplemented | lc3.go:292-293 | every other trap vector, IN, PUTSP and HALT included, is reported and changes nothing |
| Properties.ReservedSemantics | lc3.go:295-300 | RES and RTI fault as not implemented and change nothing |
| Properties.StepFaultCommitsNothing | lc3.go:79-304 | a faulting step changes no memory, register or key, and only a TRAP can have produced output; a wait or an unimplemented trap changes nothing |
| Properties.StepOutputGrows | lc3.go:79-304 | a step only appends to the output, and only a TRAP appends |
| Properties.StepPcChangesOnlyByControl | lc3.go:79-304 | the PC changes only when the fetched instruction is BR, JMP or JSR |
| Properties.StepMemoryChangesOnlyByStores | lc3.go:79-304 | memory changes only under ST, STI or STR, and in at most one cell |
| Properties.StepKeysChangeOnlyByGetc | lc3.go:79-304 | keys are consumed only by TRAP GETC, one at a time and in order |
| Properties.StepFlags | lc3.go:79-304 | R_COND changes only under ADD, AND, NOT, LD, LDI, LDR or LEA, always to a valid flag; once valid it stays valid, and 0 becomes only a valid flag |
| Properties.RunFromBlank | lc3.go:72-161 | with nothing loaded, the single pass fetches a zero word, an untaken BR, and only the PC changes |

## Left out

- Command-line handling: the argument check, its usage message and
  `os.Exit(2)`. `Run` starts after the check.
- Loading a program image. That code is commented out in the source, so
  memory starts as zeros and any other contents are a parameter of the
  state.
- Text printed by `fmt`.
  - The output models the words passed to `%c`, not their UTF-8 encoding.
  - The diagnostics "Trap code not implemented", "NOT IMPLEMENTED YET!" and
    "Bad OPCODE!" are the outcomes `TrapNotImplemented`,
    `Fault(NotImplemented)` and `Fault(BadOpcode)`, not text.
- Process exit and Go panics: both are the outcome `Fault`.
- The never-ending recursion of `memRead(MR_KBSR)`: it is
  `Fault(StackOverflow)`. Its `memWrite` is never reached, so nothing is
  modelled for it.
- The GETC busy-wait: the key buffer is filled only by whoever calls the
  model, so an empty buffer is the outcome `AwaitingKey`, with the state
  unchanged, instead of a spin that never returns. Filling the buffer
  concurrently is out of scope.
- The `address <= 65535` test in `memRead`: it always holds for a `uint16`,
  so its `else` branch is unreachable.
- MR_KBDR: it is declared but never used by the source.
- `Lc3.Machine.Puts`: the loop counter `i` is a `uint16` in the source. The
  model uses an unbounded counter, because `r0 + i` reaches the panicking
  index 0xFFFF before `i` could wrap.
- `Lc3.Machine.Step`: the single Go `switch` is split into the methods
  `Operate`, `Control`, `LoadOp`, `StoreOp` and `Trap`, one per group of
  cases. The order of reads and writes inside each case is kept.

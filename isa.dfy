/** The constant tables of the interpreter (register indices, opcodes,
    condition flags, trap vectors, memory-mapped device registers) and the
    values the machine exchanges with its host: keyboard runes, outcomes of
    one step, and the reasons a step stops the process. */
module Isa {
  import opened Bits

  /* Register indices into the register file; R_COUNT is its size. */
  const R_R0: nat := 0
  const R_R1: nat := 1
  const R_R2: nat := 2
  const R_R3: nat := 3
  const R_R4: nat := 4
  const R_R5: nat := 5
  const R_R6: nat := 6
  const R_R7: nat := 7
  const R_PC: nat := 8
  const R_COND: nat := 9
  const R_COUNT: nat := 10

  /* Opcodes, the top four bits of an instruction. */
  const OP_BR: Word := 0
  const OP_ADD: Word := 1
  const OP_LD: Word := 2
  const OP_ST: Word := 3
  const OP_JSR: Word := 4
  const OP_AND: Word := 5
  const OP_LDR: Word := 6
  const OP_STR: Word := 7
  const OP_RTI: Word := 8
  const OP_NOT: Word := 9
  const OP_LDI: Word := 10
  const OP_STI: Word := 11
  const OP_JMP: Word := 12
  const OP_RES: Word := 13
  const OP_LEA: Word := 14
  const OP_TRAP: Word := 15

  /* Condition flags kept in the R_COND register. */
  const FL_POS: Word := 1
  const FL_ZRO: Word := 2
  const FL_NEG: Word := 4

  /* Trap vectors.  Only GETC, OUT and PUTS have an implementation. */
  const TRAP_GETC: Word := 0x20
  const TRAP_OUT: Word := 0x21
  const TRAP_PUTS: Word := 0x22
  const TRAP_IN: Word := 0x23
  const TRAP_PUTSP: Word := 0x24
  const TRAP_HALT: Word := 0x25

  /* Memory-mapped keyboard status and data registers.  MR_KBDR is declared
     but never used by the interpreter. */
  const MR_KBSR: Word := 0xFE00
  const MR_KBDR: Word := 0xFE02

  /** The memory array has 65535 cells, so the highest 16-bit address,
      0xFFFF, lies outside it. */
  const MEM_SIZE: nat := 0xFFFF

  /** The address the program counter is set to before the loop starts. */
  const PC_START: Word := 0x3000

  /** A keyboard rune, a 32-bit signed code point. */
  newtype Rune = x: int | -0x8000_0000 <= x < 0x8000_0000

  /** `uint16(r)`: the low 16 bits of the rune's two's-complement form, the
      one word congruent to the rune modulo 2^16. */
  function RuneToWord(r: Rune): (w: Word)
    ensures 0 <= r as int < 0x1_0000 ==> w == r as int
    ensures (w - r as int) % 0x1_0000 == 0
  {
    r as int % 0x1_0000
  }

  /** Why a step ends the process. */
  datatype FaultReason =
    | NotImplemented(opcode: Word)   // RES or RTI: "NOT IMPLEMENTED YET!", exit status 2
    | BadOpcode(opcode: Word)        // the switch's default: "Bad OPCODE!", exit status 2
    | IndexOutOfRange(address: Word) // runtime panic: the address lies outside the memory array
    | StackOverflow                  // memRead of MR_KBSR calls itself without end

  /** What one step reports to its host. */
  datatype Outcome =
    | Continue                         // the instruction completed
    | TrapNotImplemented(instr: Word)  // "Trap code not implemented: 0x....", then execution goes on
    | AwaitingKey                      // GETC spins until a key arrives; nothing has changed
    | Fault(reason: FaultReason)       // the process ends

  /** A memory access either yields its value or ends the process. */
  datatype Access<T> = Ok(value: T) | Crash(reason: FaultReason)
}

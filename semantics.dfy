/** The instruction step of the interpreter as a function on machine states.
    `Step` is the specification that the imperative `Machine.Step` in
    machine.dfy is proved to implement; the Properties module states, opcode
    by opcode, what one step does to the registers, the memory, the key queue
    and the output, and what it leaves alone. */
module Semantics {
  import opened Bits
  import opened Isa

  /** The machine as values: memory cells, the register file (R0-R7, R_PC,
      R_COND), the keys not yet consumed, and every word written out so far. */
  datatype State = State(mem: seq<Word>, reg: seq<Word>, keys: seq<Rune>, out: seq<Word>)

  predicate WellFormed(s: State)
  {
    |s.mem| == MEM_SIZE && |s.reg| == R_COUNT
  }

  /** The state after one step and what the step reports. */
  datatype Transition = Transition(next: State, outcome: Outcome)

  /** The state the interpreter's globals start in: Go's zero values
      everywhere (so R_COND holds no flag yet), with the given keys waiting in
      the key buffer and nothing written out. */
  function Blank(keys: seq<Rune>): (s: State)
    ensures WellFormed(s)
    ensures forall r :: 0 <= r < R_COUNT ==> s.reg[r] == 0
    ensures forall a :: 0 <= a < MEM_SIZE ==> s.mem[a] == 0
    ensures s.keys == keys && s.out == []
  {
    State(seq(MEM_SIZE, _ => 0), seq(R_COUNT, _ => 0), keys, [])
  }

  /** An address `memRead` returns a cell for: MR_KBSR makes it call itself
      without end, and an address not below MEM_SIZE (only 0xFFFF) is past
      the end of the memory array. */
  predicate Readable(address: Word)
  {
    address != MR_KBSR && address < MEM_SIZE
  }

  /** `memRead`. */
  function Load(mem: seq<Word>, address: Word): (r: Access<Word>)
    requires |mem| == MEM_SIZE
    ensures r.Ok? <==> Readable(address)
    ensures r.Ok? ==> r.value == mem[address]
  {
    if address == MR_KBSR then Crash(StackOverflow)
    else if address >= |mem| then Crash(IndexOutOfRange(address))
    else Ok(mem[address])
  }

  /** `memWrite`: a plain store, which panics past the end of the array. */
  function Store(mem: seq<Word>, address: Word, val: Word): (r: Access<seq<Word>>)
    requires |mem| == MEM_SIZE
    ensures r.Ok? <==> address < MEM_SIZE
    ensures r.Ok? ==> |r.value| == MEM_SIZE && r.value[address] == val
    ensures r.Ok? ==> forall a :: 0 <= a < MEM_SIZE && a != address ==> r.value[a] == mem[a]
  {
    if address >= |mem| then Crash(IndexOutOfRange(address)) else Ok(mem[address := val])
  }

  /** The flag `updateFlags` derives from a register's value: exactly one of
      the three, ZRO for zero, NEG when the word is negative read as two's
      complement (bit 15 set), POS otherwise. */
  function FlagOf(v: Word): (f: Word)
    ensures f == FL_POS || f == FL_ZRO || f == FL_NEG
    ensures f == FL_ZRO <==> v == 0
    ensures f == FL_NEG <==> ToSigned(v) < 0
    ensures f == FL_POS <==> ToSigned(v) > 0
    ensures f == FL_NEG <==> Bit(v, 15)
  {
    Pow2Values();
    ShrBound(v, 15, 1);
    ShrPositive(v, 15);
    if v == 0 then FL_ZRO else if Shr(v, 15) == 1 then FL_NEG else FL_POS
  }

  /** The condition register holds exactly one flag. */
  predicate FlagsValid(cond: Word)
  {
    cond == FL_POS || cond == FL_ZRO || cond == FL_NEG
  }

  /** `reg[r] = v` followed by `updateFlags(r)`. */
  function SetRegister(s: State, r: Word, v: Word): (t: State)
    requires WellFormed(s) && r < 8
    ensures WellFormed(t)
  {
    s.(reg := s.reg[r := v][R_COND := FlagOf(v)])
  }

  /** The faults a memory access can raise. */
  predicate MemoryFault(o: Outcome)
  {
    o.Fault? && (o.reason == StackOverflow || o.reason.IndexOutOfRange?)
  }

  /** The common tail of LD, LDI, LDR and LEA: the loaded word goes to `dr`. */
  function LoadInto(s: State, dr: Word, word: Access<Word>): (t: Transition)
    requires WellFormed(s) && dr < 8
  {
    match word
    case Crash(why) => Transition(s, Fault(why))
    case Ok(v) => Transition(SetRegister(s, dr, v), Continue)
  }

  /** The common tail of ST, STI and STR. */
  function StoreFrom(s: State, address: Word, v: Word): (t: Transition)
    requires WellFormed(s)
  {
    match Store(s.mem, address, v)
    case Crash(why) => Transition(s, Fault(why))
    case Ok(m) => Transition(s.(mem := m), Continue)
  }

  /** The words PUTS writes when its string starts at `a`, and whether it
      stopped at a zero word (true) or ran into the end of memory (false). */
  datatype Text = Text(words: seq<Word>, terminated: bool)

  /** The PUTS do-while loop: each word (masked with 0xFFFF) is written before
      it is tested, so the terminating zero is written too. */
  function Puts(mem: seq<Word>, a: nat): (text: Text)
    requires a <= |mem|
    ensures |text.words| <= |mem| - a
    decreases |mem| - a
  {
    if a == |mem| then Text([], false)
    else
      var chr := And(mem[a], 0xFFFF);
      if chr == 0 then Text([0], true)
      else
        var rest := Puts(mem, a + 1);
        Text([chr] + rest.words, rest.terminated)
  }

  /** TRAP: only GETC, OUT and PUTS are implemented; any other vector,
      including IN, PUTSP and HALT, is reported and execution goes on. */
  function Trap(s: State, instr: Word): (t: Transition)
    requires WellFormed(s)
    ensures WellFormed(t.next)
    ensures t.next.mem == s.mem && t.next.reg[R_PC] == s.reg[R_PC] && t.next.reg[R_COND] == s.reg[R_COND]
    ensures s.out <= t.next.out
    ensures t.next.keys == s.keys || (TrapVector(instr) == TRAP_GETC && |s.keys| > 0 && t.next.keys == s.keys[1..])
    ensures t.outcome != Continue ==> t.next.reg == s.reg && t.next.keys == s.keys
    ensures t.outcome.Fault? ==> t.outcome == Fault(IndexOutOfRange(0xFFFF))
    ensures t.outcome == AwaitingKey || t.outcome.TrapNotImplemented? ==> t.next == s
  {
    var vector := TrapVector(instr);
    if vector == TRAP_GETC then
      if |s.keys| == 0 then Transition(s, AwaitingKey)
      else Transition(s.(reg := s.reg[R_R0 := RuneToWord(s.keys[0])], keys := s.keys[1..]), Continue)
    else if vector == TRAP_OUT then
      Transition(s.(out := s.out + [s.reg[R_R0]]), Continue)
    else if vector == TRAP_PUTS then
      var text := Puts(s.mem, s.reg[R_R0]);
      Transition(s.(out := s.out + text.words),
                 if text.terminated then Continue else Fault(IndexOutOfRange(0xFFFF)))
    else
      Transition(s, TrapNotImplemented(instr))
  }

  /** The second operand of ADD and AND: the sign-extended immediate in
      immediate mode, register SR2 otherwise. */
  function Operand(s: State, instr: Word): (v: Word)
    requires WellFormed(s)
  {
    if ImmMode(instr) then Imm5(instr) else s.reg[Sr2(instr)]
  }

  /** ADD, AND and NOT: the result goes to DR and sets the flags. */
  function Operate(s: State, instr: Word): (t: Transition)
    requires WellFormed(s)
    ensures WellFormed(t.next)
    ensures t.outcome == Continue
    ensures t.next.mem == s.mem && t.next.keys == s.keys && t.next.out == s.out
    ensures t.next.reg[R_PC] == s.reg[R_PC] && FlagsValid(t.next.reg[R_COND])
  {
    var op := Opcode(instr);
    var v :=
      if op == OP_ADD then Add(s.reg[Sr1(instr)], Operand(s, instr))
      else if op == OP_AND then And(s.reg[Sr1(instr)], Operand(s, instr))
      else Not(s.reg[Sr1(instr)]);
    Transition(SetRegister(s, Dr(instr), v), Continue)
  }

  /** BR, JMP and JSR: only R_PC, and for JSR R7, change. */
  function Control(s: State, instr: Word): (t: Transition)
    requires WellFormed(s)
    ensures WellFormed(t.next)
    ensures t.outcome == Continue
    ensures t.next.mem == s.mem && t.next.keys == s.keys && t.next.out == s.out
    ensures t.next.reg[R_COND] == s.reg[R_COND]
  {
    var op := Opcode(instr);
    var pc := s.reg[R_PC];
    if op == OP_BR then
      // bits 11-9 are the n/z/p mask
      if And(Dr(instr), s.reg[R_COND]) != 0 then
        Transition(s.(reg := s.reg[R_PC := Add(pc, PcOffset9(instr))]), Continue)
      else
        Transition(s, Continue)
    else if op == OP_JMP then
      Transition(s.(reg := s.reg[R_PC := s.reg[Sr1(instr)]]), Continue)
    else
      // JSR: R7 is written first, so the base register is read after that write
      var linked := s.reg[R_R7 := pc];
      if !JsrOffsetMode(instr) then
        Transition(s.(reg := linked[R_PC := linked[Sr1(instr)]]), Continue)
      else
        Transition(s.(reg := linked[R_PC := Add(pc, PcOffset11(instr))]), Continue)
  }

  /** LD, LDI, LDR and LEA. */
  function LoadOp(s: State, instr: Word): (t: Transition)
    requires WellFormed(s)
    ensures WellFormed(t.next)
    ensures t.next.mem == s.mem && t.next.keys == s.keys && t.next.out == s.out
    ensures t.next.reg[R_PC] == s.reg[R_PC]
    ensures t.outcome == Continue ==> FlagsValid(t.next.reg[R_COND])
    ensures t.outcome != Continue ==> t.next == s && MemoryFault(t.outcome)
  {
    var op := Opcode(instr);
    var pc := s.reg[R_PC];
    if op == OP_LD then
      LoadInto(s, Dr(instr), Load(s.mem, Add(pc, PcOffset9(instr))))
    else if op == OP_LDI then
      match Load(s.mem, Add(pc, PcOffset9(instr)))
      case Crash(why) => Transition(s, Fault(why))
      case Ok(a) => LoadInto(s, Dr(instr), Load(s.mem, a))
    else if op == OP_LDR then
      // the base register's index, not its contents, is added to the offset
      LoadInto(s, Dr(instr), Load(s.mem, Add(Sr1(instr), Offset6(instr))))
    else
      // LEA reads memory at the effective address rather than loading the address
      LoadInto(s, Dr(instr), Load(s.mem, Add(pc, PcOffset9(instr))))
  }

  /** ST, STI and STR: the word in the register named by bits 11-9 is stored. */
  function StoreOp(s: State, instr: Word): (t: Transition)
    requires WellFormed(s)
    ensures WellFormed(t.next)
    ensures t.next.reg == s.reg && t.next.keys == s.keys && t.next.out == s.out
    ensures t.outcome != Continue ==> t.next == s && MemoryFault(t.outcome)
    ensures t.next.mem == s.mem || exists a :: 0 <= a < MEM_SIZE && t.next.mem == s.mem[a := t.next.mem[a]]
  {
    var op := Opcode(instr);
    var pc := s.reg[R_PC];
    var v := s.reg[Dr(instr)];
    if op == OP_ST then
      StoreFrom(s, Add(pc, PcOffset9(instr)), v)
    else if op == OP_STI then
      match Load(s.mem, Add(pc, PcOffset9(instr)))
      case Crash(why) => Transition(s, Fault(why))
      case Ok(a) => StoreFrom(s, a, v)
    else
      StoreFrom(s, Add(s.reg[Sr1(instr)], Offset6(instr)), v)
  }

  /** The switch over opcodes for an instruction word already fetched.  All
      sixteen opcodes have a case, so its default is never reached. */
  function Execute(s: State, instr: Word): (t: Transition)
    requires WellFormed(s)
    ensures WellFormed(t.next)
    ensures t.outcome.Fault? ==> !t.outcome.reason.BadOpcode?
  {
    var op := Opcode(instr);
    if op == OP_ADD || op == OP_AND || op == OP_NOT then Operate(s, instr)
    else if op == OP_BR || op == OP_JMP || op == OP_JSR then Control(s, instr)
    else if op == OP_LD || op == OP_LDI || op == OP_LDR || op == OP_LEA then LoadOp(s, instr)
    else if op == OP_ST || op == OP_STI || op == OP_STR then StoreOp(s, instr)
    else if op == OP_TRAP then Trap(s, instr)
    else if op == OP_RES || op == OP_RTI then Transition(s, Fault(NotImplemented(op)))
    else Transition(s, Fault(BadOpcode(op)))
  }

  /** The address an instruction is fetched from: PC + 1, wrapping at 16 bits. */
  function FetchAddress(s: State): (a: Word)
    requires WellFormed(s)
  {
    Add(s.reg[R_PC], 1)
  }

  /** One pass of the loop body in `main`: the instruction is fetched from
      PC + 1 and the PC is not advanced. */
  function Step(s: State): (t: Transition)
    requires WellFormed(s)
    ensures WellFormed(t.next)
  {
    match Load(s.mem, FetchAddress(s))
    case Crash(why) => Transition(s, Fault(why))
    case Ok(instr) => Execute(s, instr)
  }

  /** `main` after its argument check: the PC is set to PC_START and the loop
      body runs once, since `running` is cleared at the end of the first pass. */
  function Run(s: State): (t: Transition)
    requires WellFormed(s)
    ensures WellFormed(t.next)
  {
    Step(s.(reg := s.reg[R_PC := PC_START]))
  }
}

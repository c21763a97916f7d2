/** The interpreter itself: the global memory, register file and key buffer
    as the fields of one machine object, the helpers `memRead`, `memWrite`
    and `updateFlags` as its methods, and the loop body of `main` as `Step`.
    Each method is proved against the functions of the Semantics module. */
module Lc3 {
  import opened Bits
  import opened Isa
  import opened Semantics

  lemma AppendAssociates<T>(a: seq<T>, b: seq<T>, c: seq<T>)
    ensures a + (b + c) == (a + b) + c
  {
  }

  class Machine {
    var mem: array<Word>
    var reg: array<Word>
    var keyBuffer: seq<Rune>
    /** Every word passed to `fmt.Printf("%c", ...)` so far. */
    var output: seq<Word>

    ghost predicate Valid()
      reads this
    {
      mem.Length == MEM_SIZE && reg.Length == R_COUNT && mem != reg
    }

    /** The machine's state as a value. */
    ghost function Abstract(): (s: State)
      reads this, mem, reg
      requires Valid()
      ensures WellFormed(s)
    {
      State(mem[..], reg[..], keyBuffer, output)
    }

    /** The globals before `main` runs; `keys` stands in for whatever fills
        the key buffer. */
    constructor (keys: seq<Rune>)
      ensures Valid() && fresh(mem) && fresh(reg)
      ensures Abstract() == Blank(keys)
    {
      mem := new Word[MEM_SIZE](_ => 0);
      reg := new Word[R_COUNT](_ => 0);
      keyBuffer := keys;
      output := [];
    }

    /** `memRead`. */
    method MemRead(address: Word) returns (r: Access<Word>)
      requires Valid()
      ensures r == Load(mem[..], address)
    {
      if address == MR_KBSR {
        // memWrite(MR_KBSR, memRead(MR_KBSR) & 0x7FFF) re-enters memRead with
        // the same address before anything is written
        return Crash(StackOverflow);
      }
      if address >= mem.Length {
        return Crash(IndexOutOfRange(address));
      }
      return Ok(mem[address]);
    }

    /** `memWrite`; false when the address is past the end of the array. */
    method MemWrite(address: Word, val: Word) returns (ok: bool)
      requires Valid()
      modifies mem
      ensures ok <==> address < MEM_SIZE
      ensures ok ==> mem[..] == old(mem[..])[address := val]
      ensures !ok ==> mem[..] == old(mem[..])
      ensures Valid()
    {
      if address >= mem.Length {
        return false;
      }
      mem[address] := val;
      return true;
    }

    /** `updateFlags`. */
    method UpdateFlags(rIndex: Word)
      requires Valid() && rIndex < R_COUNT
      modifies reg
      ensures reg[..] == old(reg[..])[R_COND := FlagOf(old(reg[rIndex]))]
      ensures Valid()
    {
      Pow2Values();
      ShrBound(reg[rIndex], 15, 1);
      ShrPositive(reg[rIndex], 15);
      if reg[rIndex] == 0 {
        reg[R_COND] := FL_ZRO;
      } else if Shr(reg[rIndex], 15) == 1 {
        reg[R_COND] := FL_NEG;
      } else {
        reg[R_COND] := FL_POS;
      }
    }

    /** The PUTS loop.  The source's counter `i` is a `uint16`, but the
        address `r0 + i` reaches 0xFFFF, where indexing panics, before the sum
        could wrap, so an unbounded counter computes the same addresses. */
    method Puts() returns (terminated: bool)
      requires Valid()
      modifies this`output
      ensures var text := Semantics.Puts(mem[..], reg[R_R0]);
              output == old(output) + text.words && terminated == text.terminated
      ensures Valid()
    {
      var r0 := reg[R_R0];
      ghost var m := mem[..];
      ghost var text := Semantics.Puts(m, r0);
      // what is still to be written once the words so far are out
      ghost var rest := text;
      var chr: Word;
      var i: nat := 0;
      var ok := true;
      while ok
        invariant r0 + i <= MEM_SIZE
        invariant ok ==> rest == Semantics.Puts(m, r0 + i)
        invariant ok ==> old(output) + text.words == output + rest.words
        invariant ok ==> text.terminated == rest.terminated
        invariant !ok ==> output == old(output) + text.words && text.terminated
        decreases MEM_SIZE - (r0 + i)
      {
        var a := r0 + i;
        if a == MEM_SIZE {
          return false;
        }
        chr := And(mem[a], 0xFFFF);
        ghost var next := Semantics.Puts(m, a + 1);
        assert rest == if chr == 0 then Text([0], true) else Text([chr] + next.words, next.terminated);
        AppendAssociates(output, [chr], next.words);
        output := output + [chr];
        i := i + 1;
        ok := chr != 0;
        rest := next;
      }
      return true;
    }

    /** The nested switch over trap vectors. */
    method Trap(instr: Word) returns (outcome: Outcome)
      requires Valid()
      modifies this`keyBuffer, this`output, reg
      ensures Transition(Abstract(), outcome) == Semantics.Trap(old(Abstract()), instr)
      ensures Valid()
    {
      var vector := TrapVector(instr);
      if vector == TRAP_GETC {
        if |keyBuffer| == 0 {
          // the source spins here until another thread fills the buffer
          return AwaitingKey;
        }
        reg[R_R0], keyBuffer := RuneToWord(keyBuffer[0]), keyBuffer[1..];
      } else if vector == TRAP_OUT {
        output := output + [reg[R_R0]];
      } else if vector == TRAP_PUTS {
        var terminated := Puts();
        if !terminated {
          return Fault(IndexOutOfRange(0xFFFF));
        }
      } else {
        return TrapNotImplemented(instr);
      }
      return Continue;
    }

    /** ADD, AND and NOT. */
    method Operate(instr: Word) returns (outcome: Outcome)
      requires Valid()
      modifies reg
      ensures Transition(Abstract(), outcome) == Semantics.Operate(old(Abstract()), instr)
      ensures Valid()
    {
      var op := Opcode(instr);
      var r0 := Dr(instr);
      var r1 := Sr1(instr);
      if op == OP_ADD {
        if ImmMode(instr) {
          reg[r0] := Add(reg[r1], Imm5(instr));
        } else {
          reg[r0] := Add(reg[r1], reg[Sr2(instr)]);
        }
      } else if op == OP_AND {
        if ImmMode(instr) {
          reg[r0] := And(reg[r1], Imm5(instr));
        } else {
          reg[r0] := And(reg[r1], reg[Sr2(instr)]);
        }
      } else {
        reg[r0] := Not(reg[r1]);
      }
      UpdateFlags(r0);
      return Continue;
    }

    /** BR, JMP and JSR. */
    method Control(instr: Word) returns (outcome: Outcome)
      requires Valid()
      modifies reg
      ensures Transition(Abstract(), outcome) == Semantics.Control(old(Abstract()), instr)
      ensures Valid()
    {
      var op := Opcode(instr);
      if op == OP_BR {
        var offset := PcOffset9(instr);
        var condFlag := Dr(instr);
        if And(condFlag, reg[R_COND]) != 0 {
          reg[R_PC] := Add(reg[R_PC], offset);
        }
      } else if op == OP_JMP {
        reg[R_PC] := reg[Sr1(instr)];
      } else {
        reg[R_R7] := reg[R_PC];
        if !JsrOffsetMode(instr) {
          reg[R_PC] := reg[Sr1(instr)];
        } else {
          reg[R_PC] := Add(reg[R_PC], PcOffset11(instr));
        }
      }
      return Continue;
    }

    /** LD, LDI, LDR and LEA. */
    method LoadOp(instr: Word) returns (outcome: Outcome)
      requires Valid()
      modifies reg
      ensures Transition(Abstract(), outcome) == Semantics.LoadOp(old(Abstract()), instr)
      ensures Valid()
    {
      var op := Opcode(instr);
      var r0 := Dr(instr);
      var v: Access<Word>;
      if op == OP_LD {
        v := MemRead(Add(reg[R_PC], PcOffset9(instr)));
      } else if op == OP_LDI {
        var a := MemRead(Add(reg[R_PC], PcOffset9(instr)));
        if a.Crash? {
          return Fault(a.reason);
        }
        v := MemRead(a.value);
      } else if op == OP_LDR {
        v := MemRead(Add(Sr1(instr), Offset6(instr)));
      } else {
        v := MemRead(Add(reg[R_PC], PcOffset9(instr)));
      }
      if v.Crash? {
        return Fault(v.reason);
      }
      reg[r0] := v.value;
      UpdateFlags(r0);
      return Continue;
    }

    /** ST, STI and STR. */
    method StoreOp(instr: Word) returns (outcome: Outcome)
      requires Valid()
      modifies mem
      ensures Transition(Abstract(), outcome) == Semantics.StoreOp(old(Abstract()), instr)
      ensures Valid()
    {
      var op := Opcode(instr);
      var v := reg[Dr(instr)];
      var address: Word;
      if op == OP_ST {
        address := Add(reg[R_PC], PcOffset9(instr));
      } else if op == OP_STI {
        var a := MemRead(Add(reg[R_PC], PcOffset9(instr)));
        if a.Crash? {
          return Fault(a.reason);
        }
        address := a.value;
      } else {
        address := Add(reg[Sr1(instr)], Offset6(instr));
      }
      var ok := MemWrite(address, v);
      if !ok {
        return Fault(IndexOutOfRange(address));
      }
      return Continue;
    }

    /** One pass of the loop body of `main`: fetch from PC + 1 (the PC is not
        advanced), decode, execute. */
    method Step() returns (outcome: Outcome)
      requires Valid()
      modifies this`keyBuffer, this`output, mem, reg
      ensures Transition(Abstract(), outcome) == Semantics.Step(old(Abstract()))
      ensures Valid()
    {
      var fetched := MemRead(Add(reg[R_PC], 1));
      if fetched.Crash? {
        return Fault(fetched.reason);
      }
      var instr := fetched.value;
      var op := Opcode(instr);
      if op == OP_ADD || op == OP_AND || op == OP_NOT {
        outcome := Operate(instr);
      } else if op == OP_BR || op == OP_JMP || op == OP_JSR {
        outcome := Control(instr);
      } else if op == OP_LD || op == OP_LDI || op == OP_LDR || op == OP_LEA {
        outcome := LoadOp(instr);
      } else if op == OP_ST || op == OP_STI || op == OP_STR {
        outcome := StoreOp(instr);
      } else if op == OP_TRAP {
        outcome := Trap(instr);
      } else if op == OP_RES || op == OP_RTI {
        outcome := Fault(NotImplemented(op));
      } else {
        outcome := Fault(BadOpcode(op));
      }
    }

    /** `main` after its argument check: set the PC to PC_START, then run the
        loop, whose body clears `running` at the end of its first pass. */
    method Run() returns (outcome: Outcome)
      requires Valid()
      modifies this`keyBuffer, this`output, mem, reg
      ensures Transition(Abstract(), outcome) == Semantics.Run(old(Abstract()))
      ensures Valid()
    {
      reg[R_PC] := PC_START;
      ghost var started := Abstract();
      var running := 1;
      outcome := Continue;
      while running != 0
        invariant running == 0 || running == 1
        invariant running == 1 ==> Abstract() == started
        invariant running == 0 ==> Transition(Abstract(), outcome) == Semantics.Step(started)
        decreases running
      {
        outcome := Step();
        if outcome.Fault? || outcome == AwaitingKey {
          // a fault ends the process (os.Exit or a panic); GETC's wait never
          // returns, so the pass does not complete
          return;
        }
        running := 0;
      }
    }
  }
}

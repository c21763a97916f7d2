/** What one step of the interpreter does, opcode by opcode, and what no step
    does: the facts below are stated about the Semantics functions, which the
    Machine methods are proved to implement. */
module Properties {
  import opened Bits
  import opened Isa
  import opened Semantics

  /* ---------------------------------------------------------------- memory */

  /** `memRead` fails at exactly two addresses: MR_KBSR, where it recurses
      without end, and 0xFFFF, the one address past the array. */
  lemma LoadFaults(mem: seq<Word>, address: Word)
    requires |mem| == MEM_SIZE
    ensures Load(mem, address).Ok? <==> address != MR_KBSR && address != 0xFFFF
    ensures Load(mem, address).Ok? ==> Load(mem, address).value == mem[address]
    ensures address == MR_KBSR ==> Load(mem, address) == Crash(StackOverflow)
    ensures address == 0xFFFF ==> Load(mem, address) == Crash(IndexOutOfRange(0xFFFF))
  {
  }

  /** A `memWrite` succeeds everywhere but 0xFFFF (MR_KBSR included), and a
      later `memRead` sees the stored word at its address and the old
      contents everywhere else. */
  lemma LoadAfterStore(mem: seq<Word>, a: Word, v: Word, b: Word)
    requires |mem| == MEM_SIZE
    ensures Store(mem, a, v).Ok? <==> a != 0xFFFF
    ensures Store(mem, a, v).Ok? ==>
              Load(Store(mem, a, v).value, b) == if b == a && b != MR_KBSR then Ok(v) else Load(mem, b)
  {
  }

  /* ------------------------------------------------------------ the fetch */

  /** The instruction is fetched from PC + 1, wrapping to 0 after 0xFFFF; a
      fetch from MR_KBSR or 0xFFFF faults with nothing changed, and otherwise
      the step executes the fetched word. */
  lemma StepFetches(s: State)
    requires WellFormed(s)
    ensures FetchAddress(s) == if s.reg[R_PC] == 0xFFFF then 0 else s.reg[R_PC] + 1
    ensures Readable(FetchAddress(s)) ==> Step(s) == Execute(s, s.mem[FetchAddress(s)])
    ensures FetchAddress(s) == MR_KBSR ==> Step(s) == Transition(s, Fault(StackOverflow))
    ensures FetchAddress(s) == 0xFFFF ==> Step(s) == Transition(s, Fault(IndexOutOfRange(0xFFFF)))
  {
  }

  /* --------------------------------------------------------- ADD, AND, NOT */

  /** `next` is `s` with register `dr` set to `v`, R_COND set to the flag of
      `v`, and nothing else changed. */
  predicate WritesRegister(s: State, next: State, dr: Word, v: Word)
    requires WellFormed(s) && WellFormed(next) && dr < 8
  {
    && next.mem == s.mem && next.keys == s.keys && next.out == s.out
    && next.reg[dr] == v
    && next.reg[R_COND] == FlagOf(v)
    && forall r :: 0 <= r < R_COUNT && r != dr && r != R_COND ==> next.reg[r] == s.reg[r]
  }

  lemma SetRegisterWrites(s: State, dr: Word, v: Word)
    requires WellFormed(s) && dr < 8
    ensures WellFormed(SetRegister(s, dr, v))
    ensures WritesRegister(s, SetRegister(s, dr, v), dr, v)
  {
  }

  /** ADD: DR receives SR1 plus the operand, modulo 2^16, which is their
      two's-complement sum whenever that sum fits in 16 bits; the immediate
      operand is the 5-bit field read as a signed number. */
  lemma AddSemantics(s: State, instr: Word)
    requires WellFormed(s) && Opcode(instr) == OP_ADD
    ensures var t := Execute(s, instr);
            var a, b := s.reg[Sr1(instr)], Operand(s, instr);
            && t.outcome == Continue
            && WritesRegister(s, t.next, Dr(instr), Add(a, b))
            && (-0x8000 <= ToSigned(a) + ToSigned(b) < 0x8000 ==>
                  ToSigned(t.next.reg[Dr(instr)]) == ToSigned(a) + ToSigned(b))
    ensures ImmMode(instr) ==> -16 <= ToSigned(Operand(s, instr)) < 16
  {
    var a, b := s.reg[Sr1(instr)], Operand(s, instr);
    SetRegisterWrites(s, Dr(instr), Add(a, b));
    if -0x8000 <= ToSigned(a) + ToSigned(b) < 0x8000 {
      AddSigned(a, b);
    }
  }

  /** AND: DR receives the bitwise AND of SR1 and the operand. */
  lemma AndSemantics(s: State, instr: Word)
    requires WellFormed(s) && Opcode(instr) == OP_AND
    ensures var t := Execute(s, instr);
            var a, b := s.reg[Sr1(instr)], Operand(s, instr);
            && t.outcome == Continue
            && WritesRegister(s, t.next, Dr(instr), And(a, b))
            && forall i :: 0 <= i < 16 ==> (Bit(t.next.reg[Dr(instr)], i) <==> Bit(a, i) && Bit(b, i))
  {
    var a, b := s.reg[Sr1(instr)], Operand(s, instr);
    SetRegisterWrites(s, Dr(instr), And(a, b));
    forall i | 0 <= i < 16
      ensures Bit(And(a, b), i) <==> Bit(a, i) && Bit(b, i)
    {
      AndBitsBit(a, b, 16, i);
    }
  }

  /** NOT: DR receives the complement of SR1, every bit flipped. */
  lemma NotSemantics(s: State, instr: Word)
    requires WellFormed(s) && Opcode(instr) == OP_NOT
    ensures var t := Execute(s, instr);
            var a := s.reg[Sr1(instr)];
            && t.outcome == Continue
            && WritesRegister(s, t.next, Dr(instr), 0xFFFF - a)
            && forall i :: 0 <= i < 16 ==> (Bit(t.next.reg[Dr(instr)], i) <==> !Bit(a, i))
  {
    var a := s.reg[Sr1(instr)];
    SetRegisterWrites(s, Dr(instr), Not(a));
    forall i | 0 <= i < 16
      ensures Bit(Not(a), i) <==> !Bit(a, i)
    {
      NotBitsBit(a, 16, i);
    }
  }

  /* ---------------------------------------------------------- BR, JMP, JSR */

  /** The BR condition as the LC-3 defines it: bit 11 (n) tests NEG, bit 10
      (z) ZRO and bit 9 (p) POS. */
  predicate Taken(instr: Word, cond: Word)
  {
    || (cond == FL_NEG && Bit(instr, 11))
    || (cond == FL_ZRO && Bit(instr, 10))
    || (cond == FL_POS && Bit(instr, 9))
  }

  /** The source's test, the n/z/p field ANDed with R_COND, is that
      condition whenever R_COND holds a flag, and is false while R_COND still
      holds its initial 0. */
  lemma BranchCondition(instr: Word, cond: Word)
    requires cond == 0 || FlagsValid(cond)
    ensures And(Dr(instr), cond) != 0 <==> Taken(instr, cond)
    ensures cond == 0 ==> And(Dr(instr), cond) == 0
  {
    Pow2Values();
    var d := Dr(instr);
    if cond == 0 {
      AndBitsZero(d, 16);
    } else {
      var k: nat := if cond == FL_POS then 0 else if cond == FL_ZRO then 1 else 2;
      assert cond == Pow2(k);
      AndBitsSingle(d, k, 16);
      DrBits(instr, k);
    }
  }

  /** BR: when the branch is taken the PC moves by the signed 9-bit offset
      (see AddSignedOffset); otherwise nothing changes. */
  lemma BranchSemantics(s: State, instr: Word)
    requires WellFormed(s) && Opcode(instr) == OP_BR
    requires s.reg[R_COND] == 0 || FlagsValid(s.reg[R_COND])
    ensures var t := Execute(s, instr);
            && t.outcome == Continue
            && t.next == if Taken(instr, s.reg[R_COND])
                         then s.(reg := s.reg[R_PC := Add(s.reg[R_PC], PcOffset9(instr))])
                         else s
    ensures -256 <= ToSigned(PcOffset9(instr)) < 256
  {
    BranchCondition(instr, s.reg[R_COND]);
    assert Execute(s, instr) == Control(s, instr);
  }

  /** JMP (RET when the base is R7): the PC becomes the base register. */
  lemma JmpSemantics(s: State, instr: Word)
    requires WellFormed(s) && Opcode(instr) == OP_JMP
    ensures Execute(s, instr) == Transition(s.(reg := s.reg[R_PC := s.reg[Sr1(instr)]]), Continue)
  {
    assert Execute(s, instr) == Control(s, instr);
  }

  /** JSR and JSRR: R7 receives the PC, then the PC becomes the PC plus the
      signed 11-bit offset when bit 11 is set or the base register as it is after
      the link, so JSRR R7 leaves the PC where it was. */
  lemma JsrSemantics(s: State, instr: Word)
    requires WellFormed(s) && Opcode(instr) == OP_JSR
    ensures var t := Execute(s, instr);
            var pc := s.reg[R_PC];
            && t.outcome == Continue
            && t.next.mem == s.mem && t.next.keys == s.keys && t.next.out == s.out
            && t.next.reg[R_R7] == pc
            && t.next.reg[R_PC] == (if Bit(instr, 11) then Add(pc, PcOffset11(instr))
                                    else if Sr1(instr) == R_R7 then pc
                                    else s.reg[Sr1(instr)])
            && forall r :: 0 <= r < R_COUNT && r != R_R7 && r != R_PC ==> t.next.reg[r] == s.reg[r]
    ensures -1024 <= ToSigned(PcOffset11(instr)) < 1024
  {
    ModeBits(instr);
    assert Execute(s, instr) == Control(s, instr);
  }

  /* ------------------------------------------------------------- the loads */

  /** Why `memRead` fails at an address it cannot read. */
  function ReadFault(address: Word): (why: FaultReason)
    requires !Readable(address)
    ensures why == StackOverflow <==> address == MR_KBSR
    ensures why != StackOverflow ==> why == IndexOutOfRange(0xFFFF)
  {
    if address == MR_KBSR then StackOverflow else IndexOutOfRange(address)
  }

  /** What a load does with the word read from `address`: on success it is
      written to `dr` with the flags; on failure nothing changes. */
  predicate LoadsFrom(s: State, t: Transition, dr: Word, address: Word)
    requires WellFormed(s) && WellFormed(t.next) && dr < 8
  {
    if Readable(address) then t.outcome == Continue && WritesRegister(s, t.next, dr, s.mem[address])
    else t == Transition(s, Fault(ReadFault(address)))
  }

  lemma LoadIntoLoads(s: State, dr: Word, address: Word)
    requires WellFormed(s) && dr < 8
    ensures LoadsFrom(s, LoadInto(s, dr, Load(s.mem, address)), dr, address)
  {
    if Readable(address) {
      SetRegisterWrites(s, dr, s.mem[address]);
    }
  }

  /** LD: DR receives the word at PC plus the signed 9-bit offset. */
  lemma LdSemantics(s: State, instr: Word)
    requires WellFormed(s) && Opcode(instr) == OP_LD
    ensures LoadsFrom(s, Execute(s, instr), Dr(instr), (s.reg[R_PC] + ToSigned(PcOffset9(instr))) % 0x1_0000)
  {
    var a := Add(s.reg[R_PC], PcOffset9(instr));
    assert Execute(s, instr) == LoadOp(s, instr);
    assert LoadOp(s, instr) == LoadInto(s, Dr(instr), Load(s.mem, a));
    AddSignedOffset(s.reg[R_PC], PcOffset9(instr));
    LoadIntoLoads(s, Dr(instr), a);
  }

  /** LEA: DR receives the word stored at the effective address, not the
      address itself, and sets the flags from that word, exactly as LD. */
  lemma LeaSemantics(s: State, instr: Word)
    requires WellFormed(s) && Opcode(instr) == OP_LEA
    ensures LoadsFrom(s, Execute(s, instr), Dr(instr), (s.reg[R_PC] + ToSigned(PcOffset9(instr))) % 0x1_0000)
  {
    var a := Add(s.reg[R_PC], PcOffset9(instr));
    assert Execute(s, instr) == LoadOp(s, instr);
    assert LoadOp(s, instr) == LoadInto(s, Dr(instr), Load(s.mem, a));
    AddSignedOffset(s.reg[R_PC], PcOffset9(instr));
    LoadIntoLoads(s, Dr(instr), a);
  }

  /** LDI: the word at PC plus the offset is a pointer, and DR receives the
      word it points to; either read can fault, leaving the state as it was. */
  lemma LdiSemantics(s: State, instr: Word)
    requires WellFormed(s) && Opcode(instr) == OP_LDI
    ensures var t := Execute(s, instr);
            var p := (s.reg[R_PC] + ToSigned(PcOffset9(instr))) % 0x1_0000;
            && (!Readable(p) ==> t == Transition(s, Fault(ReadFault(p))))
            && (Readable(p) ==> LoadsFrom(s, t, Dr(instr), s.mem[p]))
  {
    var p := Add(s.reg[R_PC], PcOffset9(instr));
    assert Execute(s, instr) == LoadOp(s, instr);
    assert LoadOp(s, instr) == match Load(s.mem, p)
                               case Crash(why) => Transition(s, Fault(why))
                               case Ok(a) => LoadInto(s, Dr(instr), Load(s.mem, a));
    AddSignedOffset(s.reg[R_PC], PcOffset9(instr));
    if Readable(p) {
      LoadIntoLoads(s, Dr(instr), s.mem[p]);
    }
  }

  /** LDR: the offset is added to the base register's number, not to its
      contents, so the effective address lies within 38 cells after 0 or 32
      before the end of the address space, whatever the registers hold. */
  lemma LdrSemantics(s: State, instr: Word)
    requires WellFormed(s) && Opcode(instr) == OP_LDR
    ensures var a := (Sr1(instr) + ToSigned(Offset6(instr))) % 0x1_0000;
            && LoadsFrom(s, Execute(s, instr), Dr(instr), a)
            && (a < 39 || a >= 0x1_0000 - 32)
  {
    assert Execute(s, instr) == LoadOp(s, instr);
    AddSignedOffset(Sr1(instr), Offset6(instr));
    LoadIntoLoads(s, Dr(instr), Add(Sr1(instr), Offset6(instr)));
  }

  /* ------------------------------------------------------------ the stores */

  /** What a store of `v` at `address` does: every address but 0xFFFF gets
      the word and nothing else changes (MR_KBSR included); 0xFFFF faults with
      nothing changed. */
  predicate StoresTo(s: State, t: Transition, address: Word, v: Word)
    requires WellFormed(s)
  {
    if address < MEM_SIZE then t == Transition(s.(mem := s.mem[address := v]), Continue)
    else t == Transition(s, Fault(IndexOutOfRange(0xFFFF)))
  }

  /** The common tail of ST, STI and STR stores as StoresTo says. */
  lemma StoreFromStores(s: State, address: Word, v: Word)
    requires WellFormed(s)
    ensures StoresTo(s, StoreFrom(s, address, v), address, v)
  {
  }

  /** ST: SR (bits 11-9) is stored at PC plus the signed 9-bit offset. */
  lemma StSemantics(s: State, instr: Word)
    requires WellFormed(s) && Opcode(instr) == OP_ST
    ensures StoresTo(s, Execute(s, instr), Add(s.reg[R_PC], PcOffset9(instr)), s.reg[Dr(instr)])
  {
    var a := Add(s.reg[R_PC], PcOffset9(instr));
    assert Execute(s, instr) == StoreOp(s, instr);
    assert StoreOp(s, instr) == StoreFrom(s, a, s.reg[Dr(instr)]);
    StoreFromStores(s, a, s.reg[Dr(instr)]);
  }

  /** STI: SR is stored where the word at PC plus the offset points; reading
      the pointer can fault, leaving the state as it was. */
  lemma StiSemantics(s: State, instr: Word)
    requires WellFormed(s) && Opcode(instr) == OP_STI
    ensures var t := Execute(s, instr);
            var p := (s.reg[R_PC] + ToSigned(PcOffset9(instr))) % 0x1_0000;
            && (!Readable(p) ==> t == Transition(s, Fault(ReadFault(p))))
            && (Readable(p) ==> StoresTo(s, t, s.mem[p], s.reg[Dr(instr)]))
  {
    var p := Add(s.reg[R_PC], PcOffset9(instr));
    assert Execute(s, instr) == StoreOp(s, instr);
    assert StoreOp(s, instr) == match Load(s.mem, p)
                                case Crash(why) => Transition(s, Fault(why))
                                case Ok(a) => StoreFrom(s, a, s.reg[Dr(instr)]);
    AddSignedOffset(s.reg[R_PC], PcOffset9(instr));
    if Readable(p) {
      StoreFromStores(s, s.mem[p], s.reg[Dr(instr)]);
    }
  }

  /** STR: unlike LDR, the offset is added to the contents of the base
      register. */
  lemma StrSemantics(s: State, instr: Word)
    requires WellFormed(s) && Opcode(instr) == OP_STR
    ensures StoresTo(s, Execute(s, instr), (s.reg[Sr1(instr)] + ToSigned(Offset6(instr))) % 0x1_0000, s.reg[Dr(instr)])
    ensures -32 <= ToSigned(Offset6(instr)) < 32
  {
    var a := Add(s.reg[Sr1(instr)], Offset6(instr));
    AddSignedOffset(s.reg[Sr1(instr)], Offset6(instr));
    assert Execute(s, instr) == StoreOp(s, instr);
    assert StoreOp(s, instr) == StoreFrom(s, a, s.reg[Dr(instr)]);
    StoreFromStores(s, a, s.reg[Dr(instr)]);
  }

  /* ------------------------------------------------------------- the traps */

  /** The words PUTS writes from `a` are the memory from `a` up to and
      including the first zero word; with no zero word before the end of the
      array they are the rest of memory and the string is not terminated. */
  lemma {:induction false} PutsText(mem: seq<Word>, a: nat)
    requires a <= |mem|
    ensures var t := Puts(mem, a);
            var n := |t.words|;
            && a + n <= |mem|
            && (forall k :: 0 <= k < n ==> t.words[k] == mem[a + k])
            && (forall k :: a <= k < a + n - 1 ==> mem[k] != 0)
            && (t.terminated <==> n > 0 && mem[a + n - 1] == 0)
            && (!t.terminated ==> a + n == |mem|)
    decreases |mem| - a
  {
    if a < |mem| {
      if mem[a] != 0 {
        PutsText(mem, a + 1);
        var rest := Puts(mem, a + 1);
        assert Puts(mem, a).words == [mem[a]] + rest.words;
      }
    }
  }

  /** TRAP GETC: with a key waiting, R0 receives it (as a 16-bit word) and the
      key is consumed; R_COND is not updated.  With none, the interpreter
      waits and nothing changes. */
  lemma GetcSemantics(s: State, instr: Word)
    requires WellFormed(s) && Opcode(instr) == OP_TRAP && TrapVector(instr) == TRAP_GETC
    ensures var t := Execute(s, instr);
            if |s.keys| == 0 then t == Transition(s, AwaitingKey)
            else
              && t.outcome == Continue
              && t.next.mem == s.mem && t.next.out == s.out
              && t.next.keys == s.keys[1..]
              && t.next.reg[R_R0] == RuneToWord(s.keys[0])
              && forall r :: 1 <= r < R_COUNT ==> t.next.reg[r] == s.reg[r]
  {
    assert Execute(s, instr) == Trap(s, instr);
  }

  /** TRAP OUT: R0 is appended to the output; nothing else changes. */
  lemma OutSemantics(s: State, instr: Word)
    requires WellFormed(s) && Opcode(instr) == OP_TRAP && TrapVector(instr) == TRAP_OUT
    ensures Execute(s, instr) == Transition(s.(out := s.out + [s.reg[R_R0]]), Continue)
  {
    assert Execute(s, instr) == Trap(s, instr);
  }

  /** TRAP PUTS: the string at R0 is appended to the output, terminating zero
      included; a string running into 0xFFFF faults after its words are
      written.  Nothing but the output changes. */
  lemma PutsSemantics(s: State, instr: Word)
    requires WellFormed(s) && Opcode(instr) == OP_TRAP && TrapVector(instr) == TRAP_PUTS
    ensures var t := Execute(s, instr);
            var r0 := s.reg[R_R0];
            var n := |t.next.out| - |s.out|;
            && t.next.mem == s.mem && t.next.reg == s.reg && t.next.keys == s.keys
            && n >= 0 && r0 + n <= MEM_SIZE
            && t.next.out == s.out + s.mem[r0 .. r0 + n]
            && (forall k :: r0 <= k < r0 + n - 1 ==> s.mem[k] != 0)
            && (t.outcome == Continue <==> n > 0 && s.mem[r0 + n - 1] == 0)
            && (t.outcome != Continue ==> t.outcome == Fault(IndexOutOfRange(0xFFFF)) && r0 + n == MEM_SIZE)
  {
    var r0 := s.reg[R_R0];
    var text := Puts(s.mem, r0);
    assert Execute(s, instr) == Trap(s, instr);
    PutsText(s.mem, r0);
    assert text.words == s.mem[r0 .. r0 + |text.words|];
  }

  /** Every other trap vector, IN (0x23), PUTSP (0x24) and HALT (0x25)
      among them, is reported and changes nothing: HALT does not stop the
      machine. */
  lemma OtherTrapsNotImplemented(s: State, instr: Word)
    requires WellFormed(s) && Opcode(instr) == OP_TRAP
    requires TrapVector(instr) != TRAP_GETC && TrapVector(instr) != TRAP_OUT && TrapVector(instr) != TRAP_PUTS
    ensures Execute(s, instr) == Transition(s, TrapNotImplemented(instr))
  {
    assert Execute(s, instr) == Trap(s, instr);
  }

  /* ------------------------------------------------------ RES, RTI, decode */

  /** RES and RTI fault as unimplemented, changing nothing. */
  lemma ReservedSemantics(s: State, instr: Word)
    requires WellFormed(s) && (Opcode(instr) == OP_RES || Opcode(instr) == OP_RTI)
    ensures Execute(s, instr) == Transition(s, Fault(NotImplemented(Opcode(instr))))
  {
  }

  /* ------------------------------------------------ what no step can do */

  /** The step fetches a readable word whose opcode is `op`. */
  predicate Executes(s: State, op: Word)
    requires WellFormed(s)
  {
    Readable(FetchAddress(s)) && Opcode(s.mem[FetchAddress(s)]) == op
  }

  /** A fault leaves memory, registers and keys as they were; only the words
      PUTS wrote before running off the end of memory are kept.  A step that
      waits for a key or meets an unimplemented trap changes nothing. */
  lemma StepFaultCommitsNothing(s: State)
    requires WellFormed(s)
    ensures var t := Step(s);
            && (t.outcome.Fault? ==> t.next.mem == s.mem && t.next.reg == s.reg && t.next.keys == s.keys)
            && (t.outcome.Fault? && t.next.out != s.out ==> Executes(s, OP_TRAP))
            && (t.outcome == AwaitingKey || t.outcome.TrapNotImplemented? ==> t.next == s)
  {
  }

  /** Output is only ever appended to. */
  lemma StepOutputGrows(s: State)
    requires WellFormed(s)
    ensures s.out <= Step(s).next.out
    ensures Step(s).next.out != s.out ==> Executes(s, OP_TRAP)
  {
  }

  /** The PC is never advanced: only BR, JMP and JSR change it. */
  lemma StepPcChangesOnlyByControl(s: State)
    requires WellFormed(s)
    ensures Step(s).next.reg[R_PC] != s.reg[R_PC] ==>
              Executes(s, OP_BR) || Executes(s, OP_JMP) || Executes(s, OP_JSR)
  {
  }

  /** Only ST, STI and STR change memory, and at most one cell. */
  lemma StepMemoryChangesOnlyByStores(s: State)
    requires WellFormed(s)
    ensures var t := Step(s);
            && (t.next.mem != s.mem ==> Executes(s, OP_ST) || Executes(s, OP_STI) || Executes(s, OP_STR))
            && (t.next.mem == s.mem || exists a :: 0 <= a < MEM_SIZE && t.next.mem == s.mem[a := t.next.mem[a]])
  {
  }

  /** Only GETC consumes keys, one at a time and in order. */
  lemma StepKeysChangeOnlyByGetc(s: State)
    requires WellFormed(s)
    ensures var t := Step(s);
            t.next.keys == s.keys ||
            (Executes(s, OP_TRAP) && TrapVector(s.mem[FetchAddress(s)]) == TRAP_GETC &&
             |s.keys| > 0 && t.next.keys == s.keys[1..])
  {
  }

  /** R_COND changes only through a register write with its flag update (ADD,
      AND, NOT and the loads), and holds exactly one flag from the first such
      write on: 0 before it, never any other value. */
  lemma StepFlags(s: State)
    requires WellFormed(s)
    ensures var t := Step(s);
            var c, c' := s.reg[R_COND], t.next.reg[R_COND];
            && (c' != c ==> || Executes(s, OP_ADD) || Executes(s, OP_AND) || Executes(s, OP_NOT)
                            || Executes(s, OP_LD) || Executes(s, OP_LDI) || Executes(s, OP_LDR)
                            || Executes(s, OP_LEA))
            && (c' != c ==> FlagsValid(c'))
            && (FlagsValid(c) ==> FlagsValid(c'))
            && (c == 0 ==> c' == 0 || FlagsValid(c'))
  {
  }

  /* -------------------------------------------------------------- examples */

  /** With nothing loaded, `main` fetches the zero word from PC_START + 1; it
      is a BR with no n/z/p bit, so the single pass only sets the PC. */
  lemma RunFromBlank(keys: seq<Rune>)
    ensures var s := Blank(keys);
            Run(s) == Transition(s.(reg := s.reg[R_PC := PC_START]), Continue)
  {
    var s := Blank(keys);
    var s0 := s.(reg := s.reg[R_PC := PC_START]);
    assert FetchAddress(s0) == 0x3001;
    assert s0.mem[0x3001] == 0;
    assert Opcode(0) == OP_BR;
    BranchSemantics(s0, 0);
    assert !Taken(0, 0);
  }
}

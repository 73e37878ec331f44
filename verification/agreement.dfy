/**
  Where the Python and C simulators agree and where they part ways.

  They compute the same next state for every instruction that does not
  read R15 as an operand, does not MOV an immediate of 0x80 or more, and
  stays inside memory (no console ports, no stack past either end). They
  differ in what a handler sees in R15 (pc in Python, pc + 1 in C), in the
  MOV immediate (zero- versus sign-extended), and in the R15 a dump shows.
 */
module Agreement {
  import opened Words
  import opened Results
  import Isa
  import opened Machine
  import PySim
  import CSim

  /** The instruction reads R15 as a data operand. */
  predicate ReadsPc(op: Isa.Opcode, ibr: Word)
  {
    match op
    case OpLdr => Isa.RmField(ibr) == PC
    case OpStr => Isa.RmField(ibr) == PC || Isa.RnField(ibr) == PC
    case OpAdd | OpSub | OpAnd | OpOr | OpCmp => Isa.RmField(ibr) == PC || Isa.RnField(ibr) == PC
    case OpAddi | OpSubi | OpShr | OpShl => Isa.RmField(ibr) == PC
    case OpPush => Isa.RnField(ibr) == PC
    case _ => false
  }

  /** The instruction `ir` behaves the same in both simulators from state s:
      it does not read R15, a MOV immediate is below 0x80, and every
      memory access stays inside the 0x2000 backed words. */
  predicate PortableInstr(s: Cpu, ir: Word)
    requires s.Valid()
  {
    var ibr, op := Isa.Body(ir), Isa.OpcodeFor(Isa.OpField(ir));
    && !ReadsPc(op, ibr)
    && (op == Isa.OpMov ==> Isa.Imm8Field(ibr) < 0x80)
    && (op == Isa.OpLdr ==> PySim.LdrAddr(s, ibr) < MemSize)
    && (op == Isa.OpStr ==> PySim.StrAddr(s, ibr) < MemSize)
    && (op == Isa.OpPush ==> 1 <= s.regs[SP] <= MemSize)
    && (op == Isa.OpPop ==> s.regs[SP] < MemSize)
  }

  /** The instruction at the program counter, if any, is portable. */
  predicate Portable(s: Cpu)
    requires s.Valid()
  {
    s.regs[PC] < MemSize && s.mem[s.regs[PC]] != Isa.HaltWord ==> PortableInstr(s, s.mem[s.regs[PC]])
  }

  /** Two states equal in everything except R15. */
  predicate SameButR15(a: Cpu, b: Cpu)
  {
    |a.regs| == 16 && |b.regs| == 16 && a.(regs := a.regs[PC := 0]) == b.(regs := b.regs[PC := 0])
  }

  /** Two dumps equal in everything except the R15 they show. */
  predicate DumpSameButR15(a: Snapshot, b: Snapshot)
  {
    |a.regs| == 16 && |b.regs| == 16 && a.(regs := a.regs[PC := 0]) == b.(regs := b.regs[PC := 0])
  }

  /** Executing a portable instruction with R15 = pc (Python) and with
      R15 = pc + 1 (C) gives states that differ at most in R15; in
      particular both stage the same branch target and the same POP R15. */
  lemma ExecuteAgrees(s: Cpu, op: Isa.Opcode, ibr: Word)
    requires s.Valid() && s.regs[PC] < MemSize
    requires var p := PySim.SetNextPc(s, s.regs[PC] + 1);
      && PySim.CanExecute(p, op, ibr) && !ReadsPc(op, ibr)
      && (op == Isa.OpMov ==> Isa.Imm8Field(ibr) < 0x80)
      && (op == Isa.OpLdr ==> PySim.LdrAddr(p, ibr) < MemSize)
      && (op == Isa.OpStr ==> PySim.StrAddr(p, ibr) < MemSize)
    ensures SameButR15(PySim.Execute(PySim.SetNextPc(s, s.regs[PC] + 1), op, ibr),
                       CSim.Execute(CSim.Fetch(s), op, ibr))
  {
    var p := PySim.SetNextPc(s, s.regs[PC] + 1);
    var x := s.regs[PC] + 1;
    var c := CSim.Fetch(s);
    assert c == p.WithReg(PC, x);
    HandlersAgree(p, c, x, op, ibr);
  }

  /** The handlers of the two simulators, run from states that differ
      only in R15, agree on a portable instruction. */
  lemma HandlersAgree(p: Cpu, c: Cpu, x: Word, op: Isa.Opcode, ibr: Word)
    requires p.Valid() && p.regs[PC] < MemSize && x == p.regs[PC] + 1 && c == p.WithReg(PC, x)
    requires PySim.CanExecute(p, op, ibr) && !ReadsPc(op, ibr)
    requires op == Isa.OpMov ==> Isa.Imm8Field(ibr) < 0x80
    requires op == Isa.OpLdr ==> PySim.LdrAddr(p, ibr) < MemSize
    requires op == Isa.OpStr ==> PySim.StrAddr(p, ibr) < MemSize
    ensures SameButR15(PySim.Execute(p, op, ibr), CSim.Execute(c, op, ibr))
  {
    match op {
      case OpJmp =>
        JumpsAgree(p, c, x, ibr);
      case OpJcc =>
        JumpsAgree(p, c, x, ibr);
      case OpLdr =>
        LdrAgrees(p, c, x, ibr);
      case OpStr =>
        StrAgrees(p, c, x, ibr);
      case OpMov =>
        MovAgrees(p, c, x, ibr);
      case OpPush =>
        PushAgrees(p, c, x, ibr);
      case OpPop =>
        PopAgrees(p, c, x, ibr);
      case _ =>
        AluAgrees(p, c, x, op, ibr);
    }
  }

  /** What a C handler sees differently is R15, and only R15. C's fetch
      is Python's staging of pc + 1 with R15 also set to pc + 1; from that
      state the C handler computes exactly what the Python handler does.
      So an operand R15, which ExecuteAgrees rules out, reads one more in
      C, whatever the instruction. Branches are the exception that cancels
      out (Python adds the 1 itself, see JumpsAgree); a MOV immediate of
      0x80 or more and accesses outside memory differ on their own. */
  lemma SeesNextPc(s: Cpu, op: Isa.Opcode, ibr: Word)
    requires s.Valid() && s.regs[PC] < MemSize
    requires op != Isa.OpJmp && op != Isa.OpJcc
    requires var c := CSim.Fetch(s);
      && PySim.CanExecute(c, op, ibr)
      && (op == Isa.OpMov ==> Isa.Imm8Field(ibr) < 0x80)
      && (op == Isa.OpLdr ==> PySim.LdrAddr(c, ibr) < MemSize)
      && (op == Isa.OpStr ==> PySim.StrAddr(c, ibr) < MemSize)
    ensures CSim.Fetch(s) == PySim.SetNextPc(s, s.regs[PC] + 1).(regs := s.regs[PC := s.regs[PC] + 1])
    ensures CSim.Execute(CSim.Fetch(s), op, ibr) == PySim.Execute(CSim.Fetch(s), op, ibr)
  {
    var c := CSim.Fetch(s);
    HandlersMatch(c, op, ibr);
  }

  /** The two simulators' handlers on one and the same state. */
  lemma HandlersMatch(c: Cpu, op: Isa.Opcode, ibr: Word)
    requires c.Valid() && op != Isa.OpJmp && op != Isa.OpJcc && PySim.CanExecute(c, op, ibr)
    requires op == Isa.OpMov ==> Isa.Imm8Field(ibr) < 0x80
    requires op == Isa.OpLdr ==> PySim.LdrAddr(c, ibr) < MemSize
    requires op == Isa.OpStr ==> PySim.StrAddr(c, ibr) < MemSize
    ensures CSim.Execute(c, op, ibr) == PySim.Execute(c, op, ibr)
  {
    match op {
      case OpMov =>
        Pow2Table();
      case OpPush =>
        var tp, tc := PySim.Push(c, ibr), CSim.Push(c, ibr);
        assert tc.regs == tp.regs;
      case _ =>
    }
  }

  /** Both jumps aim at the same target: Python adds 1 to the R15 it
      sees, C adds nothing to its R15 that is one further on. */
  lemma JumpsAgree(p: Cpu, c: Cpu, x: Word, ibr: Word)
    requires p.Valid() && p.regs[PC] < MemSize && x == p.regs[PC] + 1 && c == p.WithReg(PC, x)
    ensures SameButR15(PySim.Jmp(p, ibr), CSim.Jmp(c, ibr))
    ensures SameButR15(PySim.Jcc(p, ibr), CSim.Jcc(c, ibr))
  {
    assert p.regs[PC := 0] == c.regs[PC := 0];
  }

  /** Overwriting R15 and then register d leaves the other registers as
      writing d alone would. */
  lemma WriteBesideR15(a: seq<Word>, x: Word, d: nat, v: Word)
    requires |a| == 16 && d < 16
    ensures a[d := v][PC := 0] == a[PC := x][d := v][PC := 0]
  {
  }

  lemma LdrAgrees(p: Cpu, c: Cpu, x: Word, ibr: Word)
    requires p.Valid() && c == p.WithReg(PC, x)
    requires Isa.RmField(ibr) != PC && PySim.LdrAddr(p, ibr) < MemSize
    ensures SameButR15(PySim.Ldr(p, ibr), CSim.Ldr(c, ibr))
  {
    var addr := PySim.LdrAddr(p, ibr);
    assert PySim.LdrAddr(c, ibr) == addr;
    WriteBesideR15(p.regs, x, Isa.RdField(ibr), p.mem[addr]);
  }

  lemma StrAgrees(p: Cpu, c: Cpu, x: Word, ibr: Word)
    requires p.Valid() && c == p.WithReg(PC, x)
    requires Isa.RmField(ibr) != PC && Isa.RnField(ibr) != PC && PySim.StrAddr(p, ibr) < MemSize
    ensures SameButR15(PySim.Str(p, ibr), CSim.Str(c, ibr))
  {
    assert PySim.StrAddr(c, ibr) == PySim.StrAddr(p, ibr);
    assert c.regs[Isa.RnField(ibr)] == p.regs[Isa.RnField(ibr)];
  }

  lemma MovAgrees(p: Cpu, c: Cpu, x: Word, ibr: Word)
    requires p.Valid() && c == p.WithReg(PC, x)
    requires Isa.Imm8Field(ibr) < 0x80
    ensures SameButR15(PySim.Mov(p, ibr), CSim.Mov(c, ibr))
  {
    Pow2Table();
    WriteBesideR15(p.regs, x, Isa.RdField(ibr), Isa.Imm8Field(ibr));
  }

  lemma PushAgrees(p: Cpu, c: Cpu, x: Word, ibr: Word)
    requires p.Valid() && c == p.WithReg(PC, x)
    requires Isa.RnField(ibr) != PC && 1 <= p.regs[SP] <= MemSize
    ensures SameButR15(PySim.Push(p, ibr), CSim.Push(c, ibr))
  {
    var tp, tc := PySim.Push(p, ibr), CSim.Push(c, ibr);
    assert tc.regs[SP] == tp.regs[SP];
    assert tc.regs[Isa.RnField(ibr)] == tp.regs[Isa.RnField(ibr)];
    WriteBesideR15(p.regs, x, SP, p.regs[SP] - 1);
  }

  lemma PopAgrees(p: Cpu, c: Cpu, x: Word, ibr: Word)
    requires p.Valid() && c == p.WithReg(PC, x)
    requires p.regs[SP] < MemSize
    ensures SameButR15(PySim.Pop(p, ibr), CSim.Pop(c, ibr))
  {
    var d, v := Isa.RdField(ibr), p.mem[p.regs[SP]];
    var sp := p.regs[SP] + 1;
    WriteBesideR15(p.regs, x, SP, sp);
    if d != PC {
      WriteBesideR15(p.regs[SP := sp], x, d, v);
      assert p.regs[PC := x][SP := sp] == p.regs[SP := sp][PC := x];
    }
  }

  lemma AluAgrees(p: Cpu, c: Cpu, x: Word, op: Isa.Opcode, ibr: Word)
    requires p.Valid() && c == p.WithReg(PC, x)
    requires Isa.SetsFlags(op) && !ReadsPc(op, ibr)
    ensures SameButR15(PySim.Execute(p, op, ibr), CSim.Execute(c, op, ibr))
  {
    if op in {Isa.OpAdd, Isa.OpSub, Isa.OpCmp} {
      ArithAgrees(p, c, x, op, ibr);
    } else if op in {Isa.OpAnd, Isa.OpOr} {
      LogicAgrees(p, c, x, op, ibr);
    } else if op in {Isa.OpAddi, Isa.OpSubi} {
      ImmArithAgrees(p, c, x, op, ibr);
    } else {
      ShiftAgrees(p, c, x, op, ibr);
    }
  }

  /** ADD, SUB and CMP. */
  lemma ArithAgrees(p: Cpu, c: Cpu, x: Word, op: Isa.Opcode, ibr: Word)
    requires p.Valid() && c == p.WithReg(PC, x)
    requires op in {Isa.OpAdd, Isa.OpSub, Isa.OpCmp} && !ReadsPc(op, ibr)
    ensures SameButR15(PySim.Execute(p, op, ibr), CSim.Execute(c, op, ibr))
  {
    var tp, tc := PySim.Execute(p, op, ibr), CSim.Execute(c, op, ibr);
    assert tp.regs[PC := 0] == tc.regs[PC := 0];
  }

  /** AND and OR. */
  lemma LogicAgrees(p: Cpu, c: Cpu, x: Word, op: Isa.Opcode, ibr: Word)
    requires p.Valid() && c == p.WithReg(PC, x)
    requires op in {Isa.OpAnd, Isa.OpOr} && !ReadsPc(op, ibr)
    ensures SameButR15(PySim.Execute(p, op, ibr), CSim.Execute(c, op, ibr))
  {
    var tp, tc := PySim.Execute(p, op, ibr), CSim.Execute(c, op, ibr);
    assert tp.regs[PC := 0] == tc.regs[PC := 0];
  }

  /** ADDI and SUBI. */
  lemma ImmArithAgrees(p: Cpu, c: Cpu, x: Word, op: Isa.Opcode, ibr: Word)
    requires p.Valid() && c == p.WithReg(PC, x)
    requires op in {Isa.OpAddi, Isa.OpSubi} && !ReadsPc(op, ibr)
    ensures SameButR15(PySim.Execute(p, op, ibr), CSim.Execute(c, op, ibr))
  {
    var tp, tc := PySim.Execute(p, op, ibr), CSim.Execute(c, op, ibr);
    assert tp.regs[PC := 0] == tc.regs[PC := 0];
  }

  /** SHR and SHL. */
  lemma ShiftAgrees(p: Cpu, c: Cpu, x: Word, op: Isa.Opcode, ibr: Word)
    requires p.Valid() && c == p.WithReg(PC, x)
    requires op in {Isa.OpShr, Isa.OpShl} && !ReadsPc(op, ibr)
    ensures SameButR15(PySim.Execute(p, op, ibr), CSim.Execute(c, op, ibr))
  {
    var tp, tc := PySim.Execute(p, op, ibr), CSim.Execute(c, op, ibr);
    assert tp.regs[PC := 0] == tc.regs[PC := 0];
  }

  /** Two states equal except for R15 and the staged program counter. */
  predicate SameButPc(a: Cpu, b: Cpu)
  {
    |a.regs| == 16 && |b.regs| == 16
    && a.(regs := a.regs[PC := 0], nextPc := 0) == b.(regs := b.regs[PC := 0], nextPc := 0)
  }

  /** States that differ only in R15 and the staged program counter print
      dumps that differ only in R15. */
  lemma SnapAgrees(a: Cpu, b: Cpu)
    requires a.Valid() && b.Valid() && SameButPc(a, b)
    ensures DumpSameButR15(Snap(a), Snap(b))
  {
    OtherRegsAgree(a.regs, b.regs);
    assert a.regs[SP] == b.regs[SP];
    assert DumpAddrs(a) == DumpAddrs(b);
  }

  /** Register files equal once R15 is blanked out agree on every other
      register, and agree completely once R15 is given one value. */
  lemma OtherRegsAgree(a: seq<Word>, b: seq<Word>)
    requires |a| == 16 && |b| == 16 && a[PC := 0] == b[PC := 0]
    ensures forall r | 0 <= r < 16 && r != PC :: a[r] == b[r]
  {
    forall r | 0 <= r < 16 && r != PC
      ensures a[r] == b[r]
    {
      assert a[r] == a[PC := 0][r];
    }
  }

  /** What the two simulators' versions of one cycle have in common: the
      same status; the same state unless the machine halted, and then the
      same except for R15 and the staged program counter; a dump from both
      or from neither, the same except for the R15 it shows. */
  predicate StepsAgree(p: Step, c: Step)
  {
    && p.status == c.status
    && (p.status != Halted ==> p.state == c.state)
    && (p.status == Halted ==> SameButPc(p.state, c.state))
    && (p.dump.Some? <==> c.dump.Some?)
    && (p.dump.Some? ==> DumpSameButR15(p.dump.value, c.dump.value))
  }

  /** One cycle from a state whose next instruction is portable. */
  lemma CycleAgreement(s: Cpu, bp: set<nat>)
    requires s.Valid() && Portable(s)
    ensures StepsAgree(PySim.Cycle(s, bp), CSim.Cycle(s, bp))
  {
    var pc := s.regs[PC];
    if pc < MemSize && s.mem[pc] != Isa.HaltWord {
      var ir := s.mem[pc];
      var op := Isa.OpcodeFor(Isa.OpField(ir));
      assert PortableInstr(PySim.SetNextPc(s, pc + 1), ir);
      PyCycleExecutes(s, bp, op);
      CCycleExecutes(s, bp, op);
      ExecutedStepsAgree(s, bp, op);
    } else if pc < MemSize {
      HaltAgrees(s, bp);
    }
  }

  /** The executing case of `CycleAgreement`, on the two cycles' results. */
  lemma ExecutedStepsAgree(s: Cpu, bp: set<nat>, op: Isa.Opcode)
    requires s.Valid() && s.regs[PC] < MemSize && s.mem[s.regs[PC]] != Isa.HaltWord
    requires op == Isa.OpcodeFor(Isa.OpField(s.mem[s.regs[PC]]))
    requires PortableInstr(PySim.SetNextPc(s, s.regs[PC] + 1), s.mem[s.regs[PC]])
    ensures var pc, ibr := s.regs[PC], Isa.Body(s.mem[s.regs[PC]]);
      var tp := PySim.Execute(PySim.SetNextPc(s, pc + 1), op, ibr);
      var tc := Commit(CSim.Execute(CSim.Fetch(s), op, ibr));
      StepsAgree(Step(Commit(tp), Running, if pc in bp then Some(Snap(tp)) else None),
                 Step(tc, Running, if pc in bp then Some(Snap(tc)) else None))
  {
    var pc, ibr := s.regs[PC], Isa.Body(s.mem[s.regs[PC]]);
    ExecuteAgrees(s, op, ibr);
    CommittedAgree(PySim.Execute(PySim.SetNextPc(s, pc + 1), op, ibr), CSim.Execute(CSim.Fetch(s), op, ibr), pc in bp);
  }

  /** States that differ only in R15 commit to the same state, and the
      dump of the first differs from the dump of the committed state only
      in R15. */
  lemma CommittedAgree(a: Cpu, b: Cpu, dump: bool)
    requires a.Valid() && b.Valid() && SameButR15(a, b)
    ensures StepsAgree(Step(Commit(a), Running, if dump then Some(Snap(a)) else None),
                       Step(Commit(b), Running, if dump then Some(Snap(Commit(b))) else None))
  {
    OtherRegsAgree(a.regs, b.regs);
    assert a.nextPc == b.nextPc;
    assert a.regs[PC := a.nextPc] == b.regs[PC := b.nextPc] by {
      assert forall r | 0 <= r < 16 :: a.regs[r] == b.regs[r] || r == PC;
    }
    assert Commit(a) == Commit(b);
    if dump {
      SnapAgrees(a, Commit(b));
    }
  }

  /** A Python cycle on a non-HALT word at a backed address runs the
      handler its low four bits name. */
  lemma PyCycleExecutes(s: Cpu, bp: set<nat>, op: Isa.Opcode)
    requires s.Valid() && s.regs[PC] < MemSize && s.mem[s.regs[PC]] != Isa.HaltWord
    requires op == Isa.OpcodeFor(Isa.OpField(s.mem[s.regs[PC]]))
    requires PySim.CanExecute(PySim.SetNextPc(s, s.regs[PC] + 1), op, Isa.Body(s.mem[s.regs[PC]]))
    ensures var t := PySim.Execute(PySim.SetNextPc(s, s.regs[PC] + 1), op, Isa.Body(s.mem[s.regs[PC]]));
      PySim.Cycle(s, bp) == Step(Commit(t), Running, if s.regs[PC] in bp then Some(Snap(t)) else None)
  {
    var pc := s.regs[PC];
    var ir := s.mem[pc];
    Isa.OpcodeNumberInjective(Isa.OpcodeOf(Isa.OpField(ir)).value, op);
    PySim.CycleIssues(s, bp, pc, ir, op);
  }

  /** A C cycle on a non-HALT word at a backed address runs the handler its
      low four bits name, with R15 already advanced. */
  lemma CCycleExecutes(s: Cpu, bp: set<nat>, op: Isa.Opcode)
    requires s.Valid() && s.regs[PC] < MemSize && s.mem[s.regs[PC]] != Isa.HaltWord
    requires op == Isa.OpcodeFor(Isa.OpField(s.mem[s.regs[PC]]))
    ensures var t := Commit(CSim.Execute(CSim.Fetch(s), op, Isa.Body(s.mem[s.regs[PC]])));
      CSim.Cycle(s, bp) == Step(t, Running, if s.regs[PC] in bp then Some(Snap(t)) else None)
  {
    var ir := s.mem[s.regs[PC]];
    Isa.OpcodeNumberInjective(Isa.OpcodeOf(Isa.OpField(ir)).value, op);
  }

  /** Neither simulator can meet an invalid opcode: all sixteen values of
      the low four bits name an instruction. */
  lemma NoInvalidInstruction(s: Cpu, bp: set<nat>)
    requires s.Valid()
    ensures !PySim.Cycle(s, bp).status.InvalidInstruction?
    ensures !CSim.Cycle(s, bp).status.InvalidInstruction?
  {
  }

  /** The HALT case of `CycleAgreement`. */
  lemma HaltAgrees(s: Cpu, bp: set<nat>)
    requires s.Valid() && s.regs[PC] < MemSize && s.mem[s.regs[PC]] == Isa.HaltWord
    ensures StepsAgree(PySim.Cycle(s, bp), CSim.Cycle(s, bp))
  {
    var c := Commit(CSim.Fetch(s));
    assert PySim.Cycle(s, bp) == Step(Commit(s), Halted, Some(Snap(s)));
    assert CSim.Cycle(s, bp) == Step(c, Halted, Some(Snap(c)));
    HaltedStepsAgree(s, c);
  }

  lemma HaltedStepsAgree(s: Cpu, c: Cpu)
    requires s.Valid() && s.regs[PC] < MemSize
    requires c == Commit(CSim.Fetch(s))
    ensures StepsAgree(Step(Commit(s), Halted, Some(Snap(s))), Step(c, Halted, Some(Snap(c))))
  {
    assert c == s.(regs := s.regs[PC := s.regs[PC] + 1], nextPc := s.regs[PC] + 1);
    SnapAgrees(s, c);
  }

  // ----- where the simulators part ways -----

  /** MOV agrees exactly when the immediate is below 0x80: C sign-extends
      it, so 0x80..0xFF become 0xFF80..0xFFFF. */
  lemma MovAgreement(s: Cpu, ibr: Word)
    requires s.Valid()
    ensures CSim.Mov(s, ibr) == PySim.Mov(s, ibr) <==> Isa.Imm8Field(ibr) < 0x80
  {
    var d, imm := Isa.RdField(ibr), Isa.Imm8Field(ibr);
    Pow2Table();
    if imm >= 0x80 {
      assert CSim.Mov(s, ibr).regs[d] == imm + 0xFF00;
      assert PySim.Mov(s, ibr).regs[d] == imm;
    }
  }

  /** An operand read of R15 sees the address of the instruction in Python
      and the address after it in C: ADD Rd, R15, Rn leaves results one
      apart (modulo 2^16). */
  lemma AddOfR15Differs(s: Cpu, ibr: Word)
    requires s.Valid() && s.regs[PC] < MemSize
    requires Isa.RmField(ibr) == PC && Isa.RnField(ibr) != PC
    ensures var d := Isa.RdField(ibr);
      var p := PySim.Add(PySim.SetNextPc(s, s.regs[PC] + 1), ibr);
      var c := CSim.Add(CSim.Fetch(s), ibr);
      c.regs[d] == Trunc16(p.regs[d] as int + 1)
  {
    var d, b := Isa.RdField(ibr), s.regs[Isa.RnField(ibr)];
    var p := PySim.Add(PySim.SetNextPc(s, s.regs[PC] + 1), ibr);
    var c := CSim.Add(CSim.Fetch(s), ibr);
    assert p.regs[d] == (s.regs[PC] + b) % WordMod;
    assert c.regs[d] == (s.regs[PC] + 1 + b) % WordMod;
  }

  /** Writing a port prints the same thing in both simulators exactly when
      the value fits what both print: a character code below 0x100 (C
      keeps the low byte) and an integer below 0x8000 (C prints it as a
      signed int16, Python as unsigned). */
  lemma PortWriteAgreement(s: Cpu, addr: Word, v: Word)
    requires s.Valid() && PySim.IsWritePort(addr)
    ensures PySim.MemWrite(s, addr, v) == CSim.MemWrite(s, addr, v) <==>
      (addr == CharOut ==> v < 0x100) && (addr == IntOut ==> v < 0x8000)
  {
    var p, c := PySim.MemWrite(s, addr, v), CSim.MemWrite(s, addr, v);
    if addr == CharOut && v >= 0x100 {
      assert p.output[|s.output|] == PutChar(v);
      assert c.output[|s.output|] == PutChar(v % 0x100);
    }
    if addr == IntOut && v >= 0x8000 {
      assert p.output[|s.output|] == PutInt(v);
      assert c.output[|s.output|] == PutInt(v - WordMod);
    }
  }

  /** Reading a port: the integer port agrees always (both keep the number
      to 16 bits when storing it); the character port agrees exactly when
      the console value is a byte. Both simulators read the same sequence
      of values here; the same console text gives them that sequence only
      for non-whitespace ASCII characters and single-token integer lines. */
  lemma PortReadAgreement(s: Cpu, addr: Word)
    requires s.Valid() && PySim.IsReadPort(addr) && |s.input| > 0
    ensures var p, c := PySim.MemRead(s, addr), CSim.MemRead(s, addr);
      addr == IntIn ==> Trunc16(p.0) == c.0 && p.1 == c.1
    ensures var p, c := PySim.MemRead(s, addr), CSim.MemRead(s, addr);
      addr == CharIn ==> (Trunc16(p.0) == c.0 && p.1 == c.1 <==> 0 <= s.input[0] < 0x100)
  {
    var p, c := PySim.MemRead(s, addr), CSim.MemRead(s, addr);
    if addr == CharIn && !(0 <= s.input[0] < 0x100) {
      assert p.1.output[|s.output|] == Echo(s.input[0]);
      assert c.1.output[|s.output|] == Echo(s.input[0] % 0x100);
    }
  }

  /** In C, PUSH then POP always restores SP; the pushed value comes back
      only when the push landed in memory (1 <= SP <= 0x2000 before it),
      otherwise the pop reads 0. */
  lemma CPushThenPop(s: Cpu, push: Word, pop: Word)
    requires s.Valid()
    ensures var t := CSim.Pop(CSim.Push(s, push), pop);
      var r, d, sp := Isa.RnField(push), Isa.RdField(pop), s.regs[SP];
      var stored := 1 <= sp <= MemSize;
      var v := if !stored then 0 else if r == SP then sp - 1 else s.regs[r];
      && t.mem == (if stored then s.mem[sp - 1 := v] else s.mem)
      && t.z == s.z && t.c == s.c
      && (d == PC ==> t.regs == s.regs && t.nextPc == v)
      && (d != PC ==> t.regs == s.regs[d := v] && t.nextPc == s.nextPc)
  {
    var s1 := CSim.Push(s, push);
    var sp := s.regs[SP];
    assert s1.regs[SP] == if sp == 0 then 0xFFFF else sp - 1;
    assert Trunc16(s1.regs[SP] as int + 1) == sp;
    assert s1.regs[SP := sp] == s.regs;
  }

  /** Under the Python preconditions (every live pair fits), both
      simulators load the same memory. */
  lemma {:induction false} LoadAgreement(mem: seq<Word>, image: seq<(nat, nat)>)
    requires |mem| == MemSize && PySim.ImageFits(image)
    ensures CSim.Load(mem, image) == PySim.Load(mem, image)
    decreases |image|
  {
    if image != [] && image[0] != (0, 0) {
      var p := image[0];
      assert Live(image) == [p] + Live(image[1..]);
      assert p in Live(image);
      assert PySim.ImageFits(image[1..]) by {
        forall q <- Live(image[1..]) ensures q.0 < MemSize && q.1 < WordMod {
          assert q in Live(image);
        }
      }
      LoadAgreement(mem[p.0 := p.1], image[1..]);
    }
  }

  /** Start-up agrees: the same breakpoints, and the same state apart from
      the staged program counter, which the first cycle overwrites. */
  lemma BootAgreement(bps: seq<nat>, image: seq<(nat, nat)>, input: seq<int>)
    requires PySim.BreakpointsFit(bps) && PySim.ImageFits(image)
    ensures PySim.Boot(bps, image, input).1 == CSim.Boot(bps, image, input).1
    ensures PySim.Boot(bps, image, input).0 == CSim.Boot(bps, image, input).0.(nextPc := 1)
  {
    var s0 := Initial(0, input);
    LoadAgreement(s0.mem, image);
    assert forall b | b in bps :: b < MemSize by {
      forall b | b in bps ensures b < MemSize {
        var i :| 0 <= i < |bps| && bps[i] == b;
      }
    }
  }
}

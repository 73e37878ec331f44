/**
  The Python simulator (`projetoFinal.py`): one handler per opcode, the
  memory-mapped console ports, the fetch/execute/commit cycle with its
  breakpoint and HALT dumps, and start-up (breakpoints and image load).

  Python lists raise on an index past their end and wrap on a negative
  one. Each handler that indexes memory says in its precondition that it
  stays inside the list, and a cycle whose instruction would raise stops
  with status `OutsideModel`. The one negative index a program can reach,
  PUSH at SP 0, is modelled up to the store it makes into the last cell,
  after which the cycle stops with status `StackBelowZero`.
 */
module PySim {
  import opened Words
  import opened Results
  import Isa
  import opened Machine

  // ----- shapes of handler results -----

  /** Only register d and the two flags may differ between s and t. */
  predicate OnlyDestAndFlags(s: Cpu, t: Cpu, d: nat)
    requires s.Valid() && d < 16
  {
    && t == s.(regs := t.regs, z := t.z, c := t.c)
    && |t.regs| == 16
    && forall r | 0 <= r < 16 && r != d :: t.regs[r] == s.regs[r]
  }

  /** Z is set exactly when the destination register ends up zero. */
  predicate ZeroFlag(t: Cpu, d: nat)
    requires |t.regs| == 16 && d < 16
  {
    t.z == 1 <==> t.regs[d] == 0
  }

  // ----- branches -----

  /** `set_nextPc`: the staged program counter is kept to 16 bits. */
  function SetNextPc(s: Cpu, v: int): (t: Cpu)
    ensures t == s.(nextPc := t.nextPc)
    ensures 0 <= t.nextPc < WordMod && (t.nextPc - v) % WordMod == 0
  {
    s.(nextPc := Trunc16(v))
  }

  /** The JMP offset as the Python code extracts it: the word read as an
      int16 and shifted right arithmetically by four. */
  function JmpOffset(ibr: Word): (off: int)
    ensures off == Isa.Offset12(ibr)
  {
    JmpOffsetIsOffset12(ibr);
    Signed16(ibr) / 0x10
  }

  lemma JmpOffsetIsOffset12(ibr: Word)
    ensures Signed16(ibr) / 0x10 == Isa.Offset12(ibr)
  {
    Pow2Table();
    var f := ibr / 0x10;
    DivMod(ibr, 0x10);
    if ibr >= 0x8000 {
      DivUnique(ibr - WordMod, 0x10, f - 0x1000, ibr % 0x10);
    }
  }

  /** The branch offset as the Python code extracts it: shifting left by
      two pushes the condition bits out of the int16 reading, and the
      arithmetic shift right by six leaves bits 13:4, sign-extended. */
  function JccOffset(ibr: Word): (off: int)
    ensures off == Isa.Offset10(ibr)
  {
    JccOffsetIsOffset10(ibr);
    Signed16(Trunc16(ibr * 4)) / 0x40
  }

  lemma JccOffsetIsOffset10(ibr: Word)
    ensures Signed16(Trunc16(ibr * 4)) / 0x40 == Isa.Offset10(ibr)
  {
    Pow2Table();
    var f, lo, q := Isa.Offset10Field(ibr), ibr % 0x10, ibr / 0x4000;
    var hi := ibr / 0x10;
    DivMod(ibr, 0x10);
    DivMod(hi, 0x400);
    DivDiv(ibr, 0x10, 0x400);
    assert ibr == q * 0x4000 + f * 0x10 + lo;
    var low := f * 0x40 + lo * 4;
    DivUnique(ibr * 4, WordMod, q, low);
    if f >= 0x200 {
      DivUnique(low - WordMod, 0x40, f as int - 0x400, lo * 4);
    } else {
      DivUnique(low, 0x40, f, lo * 4);
    }
  }

  /** JMP: stage pc + 1 + offset. */
  function Jmp(s: Cpu, ibr: Word): (t: Cpu)
    requires s.Valid()
    ensures t == s.(nextPc := Trunc16(s.regs[PC] + 1 + Isa.Offset12(ibr)))
  {
    SetNextPc(s, s.regs[PC] + 1 + JmpOffset(ibr))
  }

  function BranchTo(s: Cpu, ibr: Word, taken: bool): Cpu
    requires s.Valid()
  {
    if taken then SetNextPc(s, s.regs[PC] + 1 + JccOffset(ibr)) else s
  }

  /** The target a taken conditional branch stages: pc + 1 + offset. */
  function BranchTarget(s: Cpu, ibr: Word): Cpu
    requires s.Valid()
  {
    s.(nextPc := Trunc16(s.regs[PC] + 1 + Isa.Offset10(ibr)))
  }

  /** JEQ: taken when Z is set. */
  function Jeq(s: Cpu, ibr: Word): (t: Cpu)
    requires s.Valid()
    ensures t == if s.z == 1 then BranchTarget(s, ibr) else s
  {
    BranchTo(s, ibr, s.z == 1)
  }

  /** JNE: taken when Z is clear. */
  function Jne(s: Cpu, ibr: Word): (t: Cpu)
    requires s.Valid()
    ensures t == if s.z == 0 then BranchTarget(s, ibr) else s
  {
    BranchTo(s, ibr, s.z == 0)
  }

  /** JLT: taken when Z is clear and C is set. */
  function Jlt(s: Cpu, ibr: Word): (t: Cpu)
    requires s.Valid()
    ensures t == if s.z == 0 && s.c == 1 then BranchTarget(s, ibr) else s
  {
    BranchTo(s, ibr, s.z == 0 && s.c == 1)
  }

  /** JGE: taken when Z is set or C is clear. */
  function Jge(s: Cpu, ibr: Word): (t: Cpu)
    requires s.Valid()
    ensures t == if s.z == 1 || s.c == 0 then BranchTarget(s, ibr) else s
  {
    BranchTo(s, ibr, s.z == 1 || s.c == 0)
  }

  /** The opcode-1 family: bits 15:14 pick JEQ, JNE, JLT or JGE; a taken
      branch stages pc + 1 + offset, an untaken one changes nothing. */
  function Jcc(s: Cpu, ibr: Word): (t: Cpu)
    requires s.Valid()
    ensures t == if Isa.Taken(Isa.CondFor(Isa.CondField(ibr)), s.z, s.c)
                 then s.(nextPc := Trunc16(s.regs[PC] + 1 + Isa.Offset10(ibr)))
                 else s
  {
    var cond := Isa.CondField(ibr);
    if cond == 0 then Jeq(s, ibr)
    else if cond == 1 then Jne(s, ibr)
    else if cond == 2 then Jlt(s, ibr)
    else Jge(s, ibr)
  }

  // ----- memory and ports -----

  predicate IsReadPort(a: int) { a == CharIn || a == IntIn }
  predicate IsWritePort(a: int) { a == CharOut || a == IntOut }

  /** A read the Python code completes: a read port with a console line
      still to come, or a backed memory cell. */
  predicate ReadOk(s: Cpu, addr: Word)
  {
    if IsReadPort(addr) then |s.input| > 0 else addr < MemSize
  }

  /** A write the Python code completes: a write port or a backed cell. */
  predicate WriteOk(addr: Word)
  {
    IsWritePort(addr) || addr < MemSize
  }

  /** `_mem_read`: a read port consumes one console value and echoes it;
      any other address is recorded as touched and read from memory. */
  function MemRead(s: Cpu, addr: Word): (r: (int, Cpu))
    requires s.Valid() && ReadOk(s, addr)
    ensures r.1.Valid()
    ensures IsReadPort(addr) ==>
      && r.1 == s.(input := r.1.input, output := r.1.output)
      && s.input == [r.0] + r.1.input
      && r.1.output == s.output + [Echo(r.0)]
    ensures !IsReadPort(addr) ==>
      && r.0 == s.mem[addr]
      && r.1 == s.(accessed := r.1.accessed)
      && r.1.accessed == s.accessed + {addr}
  {
    if IsReadPort(addr) then
      (s.input[0], s.(input := s.input[1..], output := s.output + [Echo(s.input[0])]))
    else
      (s.mem[addr], s.(accessed := s.accessed + {addr}))
  }

  /** `_mem_write`: a write port prints the value (as a character on
      0xF001, as an unsigned number on 0xF003) and leaves memory and the
      touched set alone; any other address is recorded and written. */
  function MemWrite(s: Cpu, addr: Word, v: Word): (t: Cpu)
    requires s.Valid() && WriteOk(addr)
    ensures t.Valid()
    ensures IsWritePort(addr) ==> t.mem == s.mem && t.accessed == s.accessed
    ensures !IsWritePort(addr) ==> t.mem == s.mem[addr := v] && t.accessed == s.accessed + {addr}
    ensures t == s.(mem := t.mem, accessed := t.accessed, output := t.output)
  {
    if addr == CharOut then s.(output := s.output + [PutChar(v)])
    else if addr == IntOut then s.(output := s.output + [PutInt(v)])
    else s.(mem := s.mem[addr := v], accessed := s.accessed + {addr})
  }

  /** The address LDR reads: R[rm] + imm4, kept to 16 bits. */
  function LdrAddr(s: Cpu, ibr: Word): Word
    requires s.Valid()
  {
    Trunc16(s.regs[Isa.RmField(ibr)] + Isa.RnField(ibr))
  }

  /** The address STR writes: R[rm] + imm4 (bits 15:12), kept to 16 bits. */
  function StrAddr(s: Cpu, ibr: Word): Word
    requires s.Valid()
  {
    Trunc16(s.regs[Isa.RmField(ibr)] + Isa.RdField(ibr))
  }

  /** LDR: R[rd] receives the word read; a console value is kept to 16 bits. */
  function Ldr(s: Cpu, ibr: Word): (t: Cpu)
    requires s.Valid() && ReadOk(s, LdrAddr(s, ibr))
    ensures t.Valid()
    ensures t.z == s.z && t.c == s.c && t.nextPc == s.nextPc && t.mem == s.mem
    ensures var addr, d := LdrAddr(s, ibr), Isa.RdField(ibr);
      t.regs == s.regs[d := if IsReadPort(addr) then Trunc16(s.input[0]) else s.mem[addr]]
    ensures var addr, d := LdrAddr(s, ibr), Isa.RdField(ibr);
      !IsReadPort(addr) ==> t == s.(regs := s.regs[d := s.mem[addr]], accessed := s.accessed + {addr})
    ensures IsReadPort(LdrAddr(s, ibr)) ==>
      && t == s.(regs := t.regs, input := t.input, output := t.output)
      && s.input == [s.input[0]] + t.input
      && t.output == s.output + [Echo(s.input[0])]
  {
    var r := MemRead(s, LdrAddr(s, ibr));
    r.1.WithReg(Isa.RdField(ibr), Trunc16(r.0))
  }

  /** STR: R[rn] goes to the addressed cell or port. */
  function Str(s: Cpu, ibr: Word): (t: Cpu)
    requires s.Valid() && WriteOk(StrAddr(s, ibr))
    ensures t.Valid()
    ensures t == s.(mem := t.mem, accessed := t.accessed, output := t.output)
    ensures var addr, v := StrAddr(s, ibr), s.regs[Isa.RnField(ibr)];
      addr == CharOut ==> t == s.(output := s.output + [PutChar(v)])
    ensures var addr, v := StrAddr(s, ibr), s.regs[Isa.RnField(ibr)];
      addr == IntOut ==> t == s.(output := s.output + [PutInt(v)])
    ensures var addr := StrAddr(s, ibr);
      !IsWritePort(addr) ==>
        && t.mem == s.mem[addr := s.regs[Isa.RnField(ibr)]]
        && t.accessed == s.accessed + {addr}
        && t.output == s.output
  {
    MemWrite(s, StrAddr(s, ibr), s.regs[Isa.RnField(ibr)])
  }

  // ----- stack -----

  /** PUSH: decrement SP, then store R[rn] at the new SP (so PUSH R14
      stores the decremented value). Python indexes memory with SP - 1
      directly, so it must lie in [0, 0x2000). */
  function Push(s: Cpu, ibr: Word): (t: Cpu)
    requires s.Valid() && 1 <= s.regs[SP] <= MemSize
    ensures t.Valid()
    ensures t.regs == s.regs[SP := s.regs[SP] - 1]
    ensures t.mem == s.mem[s.regs[SP] - 1 := t.regs[Isa.RnField(ibr)]]
    ensures t == s.(regs := t.regs, mem := t.mem)
  {
    var s1 := s.WithReg(SP, s.regs[SP] - 1);
    s1.(mem := s1.mem[s1.regs[SP] := s1.regs[Isa.RnField(ibr)]])
  }

  /** PUSH at SP 0: Python sets SP to -1 and stores R[rn] through index
      -1, which is the last cell, 0x1FFF. Only that cell changes in the
      state a word-sized model can hold; the caller records that SP has
      gone below zero. PUSH R14 is excluded: it would store -1 itself. */
  function PushBelowZero(s: Cpu, ibr: Word): (t: Cpu)
    requires s.Valid() && s.regs[SP] == 0 && Isa.RnField(ibr) != SP
    ensures t.Valid()
    ensures t.mem == s.mem[MemSize - 1 := s.regs[Isa.RnField(ibr)]]
    ensures t == s.(mem := t.mem)
  {
    s.(mem := s.mem[MemSize - 1 := s.regs[Isa.RnField(ibr)]])
  }

  /** POP: read the cell at SP, increment SP, then write R[rd], except
      that POP R15 stages the value as the next program counter. */
  function Pop(s: Cpu, ibr: Word): (t: Cpu)
    requires s.Valid() && s.regs[SP] < MemSize
    ensures t.Valid()
    ensures var d, v := Isa.RdField(ibr), s.mem[s.regs[SP]];
      if d == PC then t == s.(regs := s.regs[SP := s.regs[SP] + 1], nextPc := v)
      else t == s.(regs := s.regs[SP := s.regs[SP] + 1][d := v])
  {
    var v := s.mem[s.regs[SP]];
    var s1 := s.WithReg(SP, s.regs[SP] + 1);
    var d := Isa.RdField(ibr);
    if d == PC then SetNextPc(s1, v) else s1.WithReg(d, v)
  }

  // ----- arithmetic and logic -----

  /** MOV: R[rd] receives the 8-bit immediate, zero-extended. */
  function Mov(s: Cpu, ibr: Word): (t: Cpu)
    requires s.Valid()
    ensures t.Valid()
    ensures t == s.(regs := s.regs[Isa.RdField(ibr) := Isa.Imm8Field(ibr)])
  {
    s.WithReg(Isa.RdField(ibr), Trunc16(Isa.Imm8Field(ibr)))
  }

  /** The flags and result an addition of a and b leaves in register d. */
  function AddInto(s: Cpu, d: nat, a: Word, b: nat): (t: Cpu)
    requires s.Valid() && d < 16 && b <= 0xFFFF
    ensures t.Valid() && OnlyDestAndFlags(s, t, d) && ZeroFlag(t, d)
    ensures t.regs[d] + WordMod * t.c == a as int + b
  {
    var sum := a + b;
    var s1 := s.(c := if sum > 0xFFFF then 1 else 0).WithReg(d, Trunc16(sum));
    s1.(z := if s1.regs[d] == 0 then 1 else 0)
  }

  /** ADD: R[rd] = R[rm] + R[rn]; C is the carry out of bit 15. */
  function Add(s: Cpu, ibr: Word): (t: Cpu)
    requires s.Valid()
    ensures t.Valid() && OnlyDestAndFlags(s, t, Isa.RdField(ibr)) && ZeroFlag(t, Isa.RdField(ibr))
    ensures t.regs[Isa.RdField(ibr)] + WordMod * t.c
         == s.regs[Isa.RmField(ibr)] as int + s.regs[Isa.RnField(ibr)]
  {
    AddInto(s, Isa.RdField(ibr), s.regs[Isa.RmField(ibr)], s.regs[Isa.RnField(ibr)])
  }

  /** ADDI: R[rd] = R[rm] + imm4; C is the carry out of bit 15. */
  function Addi(s: Cpu, ibr: Word): (t: Cpu)
    requires s.Valid()
    ensures t.Valid() && OnlyDestAndFlags(s, t, Isa.RdField(ibr)) && ZeroFlag(t, Isa.RdField(ibr))
    ensures t.regs[Isa.RdField(ibr)] + WordMod * t.c == s.regs[Isa.RmField(ibr)] + Isa.RnField(ibr)
  {
    AddInto(s, Isa.RdField(ibr), s.regs[Isa.RmField(ibr)], Isa.RnField(ibr))
  }

  /** The flags and result a subtraction b from a leaves in register d. */
  function SubInto(s: Cpu, d: nat, a: Word, b: nat): (t: Cpu)
    requires s.Valid() && d < 16 && b <= 0xFFFF
    ensures t.Valid() && OnlyDestAndFlags(s, t, d) && ZeroFlag(t, d)
    ensures t.regs[d] == a as int - b + WordMod * t.c
    ensures t.c == 1 <==> a < b
  {
    var s1 := s.(c := if a < b then 1 else 0);
    var res := Trunc16(a - b);
    s1.WithReg(d, res).(z := if res == 0 then 1 else 0)
  }

  /** SUB: R[rd] = R[rm] - R[rn]; C is the borrow. */
  function Sub(s: Cpu, ibr: Word): (t: Cpu)
    requires s.Valid()
    ensures t.Valid() && OnlyDestAndFlags(s, t, Isa.RdField(ibr)) && ZeroFlag(t, Isa.RdField(ibr))
    ensures t.regs[Isa.RdField(ibr)] == s.regs[Isa.RmField(ibr)] as int - s.regs[Isa.RnField(ibr)] + WordMod * t.c
    ensures t.c == 1 <==> s.regs[Isa.RmField(ibr)] < s.regs[Isa.RnField(ibr)]
  {
    SubInto(s, Isa.RdField(ibr), s.regs[Isa.RmField(ibr)], s.regs[Isa.RnField(ibr)])
  }

  /** SUBI: R[rd] = R[rm] - imm4; C is the borrow. */
  function Subi(s: Cpu, ibr: Word): (t: Cpu)
    requires s.Valid()
    ensures t.Valid() && OnlyDestAndFlags(s, t, Isa.RdField(ibr)) && ZeroFlag(t, Isa.RdField(ibr))
    ensures t.regs[Isa.RdField(ibr)] == s.regs[Isa.RmField(ibr)] as int - Isa.RnField(ibr) + WordMod * t.c
    ensures t.c == 1 <==> s.regs[Isa.RmField(ibr)] < Isa.RnField(ibr)
  {
    SubInto(s, Isa.RdField(ibr), s.regs[Isa.RmField(ibr)], Isa.RnField(ibr))
  }

  /** The result of a logic operation lands in register d; C is cleared. */
  function LogicInto(s: Cpu, d: nat, res: Word): (t: Cpu)
    requires s.Valid() && d < 16
    ensures t.Valid() && OnlyDestAndFlags(s, t, d) && ZeroFlag(t, d)
    ensures t.regs[d] == res && t.c == 0
  {
    s.WithReg(d, res).(z := if res == 0 then 1 else 0, c := 0)
  }

  /** AND: R[rd] = R[rm] & R[rn]; C cleared. */
  function And(s: Cpu, ibr: Word): (t: Cpu)
    requires s.Valid()
    ensures t.Valid() && OnlyDestAndFlags(s, t, Isa.RdField(ibr)) && ZeroFlag(t, Isa.RdField(ibr))
    ensures t.regs[Isa.RdField(ibr)] == And16(s.regs[Isa.RmField(ibr)], s.regs[Isa.RnField(ibr)])
    ensures t.c == 0
  {
    LogicInto(s, Isa.RdField(ibr), And16(s.regs[Isa.RmField(ibr)], s.regs[Isa.RnField(ibr)]))
  }

  /** OR: R[rd] = R[rm] | R[rn]; C cleared. */
  function Or(s: Cpu, ibr: Word): (t: Cpu)
    requires s.Valid()
    ensures t.Valid() && OnlyDestAndFlags(s, t, Isa.RdField(ibr)) && ZeroFlag(t, Isa.RdField(ibr))
    ensures t.regs[Isa.RdField(ibr)] == Or16(s.regs[Isa.RmField(ibr)], s.regs[Isa.RnField(ibr)])
    ensures t.c == 0
  {
    LogicInto(s, Isa.RdField(ibr), Or16(s.regs[Isa.RmField(ibr)], s.regs[Isa.RnField(ibr)]))
  }

  /** SHR: R[rd] = R[rm] >> imm4; C is the last bit shifted out (bit
      imm4 - 1 of R[rm]), or 0 for a shift by zero. Result, carry and the
      bits below the carry put R[rm] back together. */
  function ShrOp(s: Cpu, ibr: Word): (t: Cpu)
    requires s.Valid()
    ensures t.Valid() && OnlyDestAndFlags(s, t, Isa.RdField(ibr)) && ZeroFlag(t, Isa.RdField(ibr))
    ensures var a, k, r := s.regs[Isa.RmField(ibr)], Isa.RnField(ibr), t.regs[Isa.RdField(ibr)];
      && r == Shr(a, k)
      && (k == 0 ==> r == a && t.c == 0)
      && (k > 0 ==> a == (r * 2 + t.c) * Pow2(k - 1) + a % Pow2(k - 1))
  {
    var d, a, k := Isa.RdField(ibr), s.regs[Isa.RmField(ibr)], Isa.RnField(ibr);
    var res := Shr(a, k);
    var carry: Bit := if k > 0 then BitOf(a, k - 1) else 0;
    assert k > 0 ==> a == (res * 2 + carry) * Pow2(k - 1) + a % Pow2(k - 1) by {
      if k > 0 {
        ShrSplit(a, k);
      }
    }
    s.(c := carry, z := if res == 0 then 1 else 0).WithReg(d, Trunc16(res))
  }

  /** SHL: R[rd] = (R[rm] << imm4) kept to 16 bits; C is set exactly when
      bits were lost. */
  function ShlOp(s: Cpu, ibr: Word): (t: Cpu)
    requires s.Valid()
    ensures t.Valid() && OnlyDestAndFlags(s, t, Isa.RdField(ibr)) && ZeroFlag(t, Isa.RdField(ibr))
    ensures var a, k, r := s.regs[Isa.RmField(ibr)], Isa.RnField(ibr), t.regs[Isa.RdField(ibr)];
      && (r - Shl(a, k)) % WordMod == 0
      && (t.c == 1 <==> r != Shl(a, k))
  {
    var d, a, k := Isa.RdField(ibr), s.regs[Isa.RmField(ibr)], Isa.RnField(ibr);
    var res := Shl(a, k);
    TruncKeeps(res);
    var s1 := s.(c := if res > 0xFFFF then 1 else 0, z := if Trunc16(res) == 0 then 1 else 0);
    s1.WithReg(d, Trunc16(res))
  }

  /** CMP: only the flags change; Z says R[rm] == R[rn] and C says
      R[rm] < R[rn], unsigned. */
  function Cmp(s: Cpu, ibr: Word): (t: Cpu)
    requires s.Valid()
    ensures t.Valid() && t == s.(z := t.z, c := t.c)
    ensures var a, b := s.regs[Isa.RmField(ibr)], s.regs[Isa.RnField(ibr)];
      (t.z == 1 <==> a == b) && (t.c == 1 <==> a < b)
  {
    var a, b := s.regs[Isa.RmField(ibr)], s.regs[Isa.RnField(ibr)];
    if a == b then s.(z := 1, c := 0)
    else if a < b then s.(z := 0, c := 1)
    else s.(z := 0, c := 0)
  }

  // ----- dispatch -----

  /** Whether the handler of `op` completes without a Python index error. */
  predicate CanExecute(s: Cpu, op: Isa.Opcode, ibr: Word)
    requires s.Valid()
  {
    match op
    case OpLdr => ReadOk(s, LdrAddr(s, ibr))
    case OpStr => WriteOk(StrAddr(s, ibr))
    case OpPush => 1 <= s.regs[SP] <= MemSize
    case OpPop => s.regs[SP] < MemSize
    case _ => true
  }

  /** A PUSH that Python completes with a negative SP: SP is 0 and the
      register pushed is not SP itself. */
  predicate PushesBelowZero(s: Cpu, op: Isa.Opcode, ibr: Word)
    requires s.Valid()
  {
    op == Isa.OpPush && s.regs[SP] == 0 && Isa.RnField(ibr) != SP
  }

  /** `operations_map[op](processador, ibr)`. Only branches and POP R15
      stage a new program counter, only the ALU group and CMP touch the
      flags, only STR and PUSH write memory, and only LDR and STR touch
      the console or the set of touched addresses. */
  function Execute(s: Cpu, op: Isa.Opcode, ibr: Word): (t: Cpu)
    requires s.Valid() && CanExecute(s, op, ibr)
    ensures t.Valid()
    ensures !Isa.Redirects(op, ibr) ==> t.nextPc == s.nextPc
    ensures !Isa.SetsFlags(op) ==> t.z == s.z && t.c == s.c
    ensures op != Isa.OpStr && op != Isa.OpPush ==> t.mem == s.mem
    ensures op != Isa.OpLdr && op != Isa.OpStr ==>
      t.accessed == s.accessed && t.input == s.input && t.output == s.output
  {
    match op
    case OpJmp => Jmp(s, ibr)
    case OpJcc => Jcc(s, ibr)
    case OpLdr => Ldr(s, ibr)
    case OpStr => Str(s, ibr)
    case OpMov => Mov(s, ibr)
    case OpAdd => Add(s, ibr)
    case OpAddi => Addi(s, ibr)
    case OpSub => Sub(s, ibr)
    case OpSubi => Subi(s, ibr)
    case OpAnd => And(s, ibr)
    case OpOr => Or(s, ibr)
    case OpShr => ShrOp(s, ibr)
    case OpShl => ShlOp(s, ibr)
    case OpCmp => Cmp(s, ibr)
    case OpPush => Push(s, ibr)
    case OpPop => Pop(s, ibr)
  }

  // ----- the cycle -----

  /** One pass of the main loop. The dump of a breakpoint or of HALT is
      taken before the staged program counter is committed, so it shows
      R15 as it stands before the commit: the address of the HALT, or
      for a breakpoint whatever the handler left there. */
  function Cycle(s: Cpu, bp: set<nat>): (st: Step)
    requires s.Valid()
    ensures st.state.Valid()
    ensures st.status == Running ==> st.state.regs[PC] == st.state.nextPc
    ensures s.regs[PC] >= MemSize <==> st.status == PcOutOfBounds(s.regs[PC])
    ensures st.status == Halted <==> s.regs[PC] < MemSize && s.mem[s.regs[PC]] == Isa.HaltWord
    ensures st.status == Halted ==>
      && st == Step(Commit(s), Halted, Some(Snap(s)))
      && st.dump.value.regs[PC] == s.regs[PC]
    ensures st.status == Running ==> (st.dump.Some? <==> s.regs[PC] in bp)
    ensures st.status.InvalidInstruction? ==> st.dump == None
  {
    var pc := s.regs[PC];
    if pc >= MemSize then Step(s, PcOutOfBounds(pc), None)
    else
      var ir := s.mem[pc];
      if ir == Isa.HaltWord then Step(Commit(s), Halted, Some(Snap(s)))
      else
        var s1 := SetNextPc(s, pc + 1);
        var ibr := Isa.Body(ir);
        match Isa.OpcodeOf(Isa.OpField(ir))
        case None => Step(s1, InvalidInstruction(ibr), None)
        case Some(op) => Issue(s1, op, ibr, pc in bp)
  }

  /** Running one handler, or stopping where the model ends. */
  function Issue(s1: Cpu, op: Isa.Opcode, ibr: Word, dump: bool): (st: Step)
    requires s1.Valid()
    ensures st.state.Valid()
    ensures st.status == Running ==> st.state.regs[PC] == st.state.nextPc
    ensures st.status == Running <==> CanExecute(s1, op, ibr)
    ensures st.status == StackBelowZero <==> PushesBelowZero(s1, op, ibr)
    ensures st.status == Running || st.status == OutsideModel || st.status == StackBelowZero
    ensures st.status != Running ==> st.dump == None
    ensures st.status == Running ==>
      var s2 := Execute(s1, op, ibr);
      && st.state == Commit(s2)
      && st.dump == (if dump then Some(Snap(s2)) else None)
  {
    if PushesBelowZero(s1, op, ibr) then Step(PushBelowZero(s1, ibr), StackBelowZero, None)
    else if !CanExecute(s1, op, ibr) then Step(s1, OutsideModel, None)
    else
      var s2 := Execute(s1, op, ibr);
      Step(Commit(s2), Running, if dump then Some(Snap(s2)) else None)
  }

  /** A cycle at a backed address holding an instruction other than
      HALT whose opcode is op runs op's handler. */
  lemma CycleIssues(s: Cpu, bp: set<nat>, pc: nat, ir: Word, op: Isa.Opcode)
    requires s.Valid() && pc == s.regs[PC] && pc < MemSize && ir == s.mem[pc] && ir != Isa.HaltWord
    requires Isa.OpcodeOf(Isa.OpField(ir)) == Some(op)
    ensures Cycle(s, bp) == Issue(SetNextPc(s, pc + 1), op, Isa.Body(ir), pc in bp)
  {
    assert s.mem[s.regs[PC]] == ir;
    assert Isa.OpcodeOf(Isa.OpField(s.mem[s.regs[PC]])) == Some(op);
  }

  /** PUSH at SP 0: the pushed register lands in the last cell, 0x1FFF,
      nothing else in memory or the registers changes, and the machine
      stops with SP below zero; PUSH R14 there stores -1 and is outside
      the model. */
  lemma CyclePushBelowZero(s: Cpu, bp: set<nat>, pc: nat, ir: Word)
    requires s.Valid() && pc == s.regs[PC] && pc < MemSize && ir == s.mem[pc] && ir != Isa.HaltWord
    requires Isa.OpcodeOf(Isa.OpField(ir)) == Some(Isa.OpPush) && s.regs[SP] == 0
    ensures var st := Cycle(s, bp);
      Isa.RnField(ir) != SP ==>
        && st.status == StackBelowZero && st.dump == None
        && st.state.mem == s.mem[MemSize - 1 := s.regs[Isa.RnField(ir)]]
        && st.state.regs == s.regs
    ensures Isa.RnField(ir) == SP ==> Cycle(s, bp).status == OutsideModel
  {
    Isa.BodyKeepsFields(ir);
  }

  /** Up to `fuel` cycles, stopping at the first that does not keep running. */
  function Run(s: Cpu, bp: set<nat>, fuel: nat): (t: Trace)
    requires s.Valid()
    ensures t.state.Valid()
    ensures |t.dumps| <= fuel
    decreases fuel
  {
    if fuel == 0 then Trace(s, Running, [])
    else
      var st := Cycle(s, bp);
      if st.status != Running then Trace(st.state, st.status, DumpList(st.dump))
      else
        var rest := Run(st.state, bp, fuel - 1);
        Trace(rest.state, rest.status, DumpList(st.dump) + rest.dumps)
  }

  /** Running n = a + b cycles is running a and then b more from where
      the first a left off, unless the first a already stopped. */
  lemma {:induction false} RunAdditive(s: Cpu, bp: set<nat>, a: nat, b: nat, n: nat)
    requires s.Valid() && n == a + b
    ensures var r := Run(s, bp, a);
      r.status != Running ==> Run(s, bp, n) == r
    ensures var r := Run(s, bp, a);
      r.status == Running ==>
        var q := Run(r.state, bp, b);
        Run(s, bp, n) == Trace(q.state, q.status, r.dumps + q.dumps)
    decreases a
  {
    if a == 0 {
      RunNothing(s, bp, b, n);
    } else if Cycle(s, bp).status != Running {
      RunStops(s, bp, a, n);
    } else {
      var t := Cycle(s, bp).state;
      forall a1: nat, n1: nat | a1 == a - 1 && n1 == n - 1
        ensures var r := Run(t, bp, a1); r.status != Running ==> Run(t, bp, n1) == r
        ensures var r := Run(t, bp, a1); r.status == Running ==>
          var q := Run(r.state, bp, b); Run(t, bp, n1) == Trace(q.state, q.status, r.dumps + q.dumps)
      {
        RunAdditive(t, bp, a1, b, n1);
      }
      RunGoesOn(s, bp, a, n);
      var r1 := Run(t, bp, a - 1);
      TraceGlue(Run(s, bp, a), Run(s, bp, n), r1, Run(t, bp, n - 1), Run(r1.state, bp, b), DumpList(Cycle(s, bp).dump));
    }
  }

  /** Zero cycles change nothing and print nothing. */
  lemma RunNothing(s: Cpu, bp: set<nat>, b: nat, n: nat)
    requires s.Valid() && n == b
    ensures Run(s, bp, 0) == Trace(s, Running, [])
    ensures Run(s, bp, n) == Trace(Run(s, bp, b).state, Run(s, bp, b).status, [] + Run(s, bp, b).dumps)
  {
    DumpsAssociate([], [], Run(s, bp, b).dumps);
  }

  /** A run whose first cycle stops ends with that cycle, whatever the fuel. */
  lemma RunStops(s: Cpu, bp: set<nat>, a: nat, n: nat)
    requires s.Valid() && a > 0 && n >= a && Cycle(s, bp).status != Running
    ensures Run(s, bp, n) == Run(s, bp, a)
  {
  }

  /** A run whose first cycle keeps running goes on from its state. */
  lemma RunGoesOn(s: Cpu, bp: set<nat>, a: nat, n: nat)
    requires s.Valid() && a > 0 && n >= a && Cycle(s, bp).status == Running
    ensures var st := Cycle(s, bp); var r := Run(st.state, bp, a - 1);
      Run(s, bp, a) == Trace(r.state, r.status, DumpList(st.dump) + r.dumps)
    ensures var st := Cycle(s, bp); var r := Run(st.state, bp, n - 1);
      Run(s, bp, n) == Trace(r.state, r.status, DumpList(st.dump) + r.dumps)
  {
  }

  // ----- start-up -----

  /** Python indexes memory with every live image address and stores the
      data as read, so the model covers images whose pairs fit. */
  predicate ImageFits(image: seq<(nat, nat)>)
  {
    forall p <- Live(image) :: p.0 < MemSize && p.1 < WordMod
  }

  /** The image load loop: pairs are stored in order until (0, 0). */
  function Load(mem: seq<Word>, image: seq<(nat, nat)>): (m: seq<Word>)
    requires |mem| == MemSize && ImageFits(image)
    ensures |m| == MemSize
    decreases |image|
  {
    if image == [] || image[0] == (0, 0) then mem
    else
      assert image[0] in Live(image);
      Load(mem[image[0].0 := image[0].1], image[1..])
  }

  /** The breakpoint addresses; Python indexes its flag list with each. */
  predicate BreakpointsFit(bps: seq<nat>)
  {
    forall i | 0 <= i < |bps| :: bps[i] < MemSize
  }

  /** `main` up to the cycle loop: R14 = 0x2000, the staged program
      counter 1, the image loaded, and the set of breakpoint addresses. */
  function Boot(bps: seq<nat>, image: seq<(nat, nat)>, input: seq<int>): (r: (Cpu, set<nat>))
    requires BreakpointsFit(bps) && ImageFits(image)
    ensures r.0.Valid() && r.0.regs[PC] == 0 && r.0.regs[SP] == StackTop
    ensures forall b :: b in r.1 <==> b in bps
  {
    var s0 := Initial(1, input);
    (s0.(mem := Load(s0.mem, image)), set b | b in bps)
  }

  // ----- properties -----

  /** CMP sets the flags exactly as SUB with the same operands would. */
  lemma CmpFlagsAsSub(s: Cpu, ibr: Word)
    requires s.Valid()
    ensures Cmp(s, ibr).z == Sub(s, ibr).z && Cmp(s, ibr).c == Sub(s, ibr).c
  {
    var t, u := Cmp(s, ibr), Sub(s, ibr);
    var a, b := s.regs[Isa.RmField(ibr)], s.regs[Isa.RnField(ibr)];
    assert u.regs[Isa.RdField(ibr)] == 0 <==> a == b;
  }

  /** After CMP Rm, Rn each branch condition decides the unsigned
      comparison its mnemonic names; JGE (and so JGT, which shares its
      encoding) is taken on equality too. */
  lemma TakenAfterCmp(s: Cpu, ibr: Word, c: Isa.Cond)
    requires s.Valid()
    ensures var t, a, b := Cmp(s, ibr), s.regs[Isa.RmField(ibr)], s.regs[Isa.RnField(ibr)];
      Isa.Taken(c, t.z, t.c) <==>
        match c
        case Eq => a == b
        case Ne => a != b
        case Lt => a < b
        case Ge => a >= b
  {
  }

  /** PUSH Rr then POP Rd moves the pushed value into Rd and puts SP back;
      the cell below the old SP keeps the value. POP R15 stages it as the
      next program counter instead. PUSH R14 pushes the decremented SP. */
  lemma PushThenPop(s: Cpu, push: Word, pop: Word)
    requires s.Valid() && 1 <= s.regs[SP] <= MemSize
    ensures var t := Pop(Push(s, push), pop);
      var r, d, sp := Isa.RnField(push), Isa.RdField(pop), s.regs[SP];
      var v := if r == SP then sp - 1 else s.regs[r];
      && t.mem == s.mem[sp - 1 := v]
      && t.z == s.z && t.c == s.c
      && (d == PC ==> t.regs == s.regs && t.nextPc == v)
      && (d != PC ==> t.regs == s.regs[d := v] && t.nextPc == s.nextPc)
  {
    var s1 := Push(s, push);
    var r := Isa.RnField(push);
    assert s1.regs[SP] == s.regs[SP] - 1;
    assert s1.mem[s1.regs[SP]] == if r == SP then s.regs[SP] - 1 else s.regs[r];
    assert s1.regs[SP := s1.regs[SP] + 1] == s.regs;
  }

  /** After loading, every cell holds the data of the last live pair
      stored there, or its old value when no live pair names it. */
  lemma {:induction false} LoadContents(mem: seq<Word>, image: seq<(nat, nat)>)
    requires |mem| == MemSize && ImageFits(image)
    ensures forall a | 0 <= a < MemSize ::
      (Load(mem, image)[a] ==
         match LastStore(Live(image), a) case Some(d) => d case None => mem[a])
    decreases |image|
  {
    if image != [] && image[0] != (0, 0) {
      var p := image[0];
      assert Live(image) == [p] + Live(image[1..]);
      assert p in Live(image);
      LoadContents(mem[p.0 := p.1], image[1..]);
      forall a | 0 <= a < MemSize
        ensures Load(mem, image)[a] ==
          (match LastStore(Live(image), a) case Some(d) => d case None => mem[a])
      {
        LastStoreCons(p, Live(image[1..]), a);
      }
    }
  }

  /** An instruction that does not redirect leaves R15 at the next address. */
  lemma CycleAdvances(s: Cpu, bp: set<nat>)
    requires s.Valid() && s.regs[PC] < MemSize
    requires Cycle(s, bp).status == Running
    requires var ir := s.mem[s.regs[PC]];
      !Isa.Redirects(Isa.OpcodeFor(Isa.OpField(ir)), Isa.Body(ir))
    ensures Cycle(s, bp).state.regs[PC] == s.regs[PC] + 1
  {
  }
}

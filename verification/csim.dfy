/**
  The C simulator (`projetoFinal.c`): the same machine with fixed-width
  arithmetic. Every access is total here: addresses outside memory read
  as 0 and swallow writes, the stack pointer wraps at 16 bits, and an
  exhausted console reads as 0. The C code writes R15 = pc + 1 before
  executing, so branches add their offset to R15 directly.

  The arithmetic handlers follow the C statements (32-bit sums and
  shifts, the conditional right shift) and each states that it computes
  exactly what the Python handler computes.
 */
module CSim {
  import opened Words
  import opened Results
  import Isa
  import opened Machine
  import PySim

  // ----- fields -----

  /** `offset12_from_ibr`: bits 15:4, with 0xF000 OR-ed in when bit 11 of
      the field is set, read as int16. */
  function Offset12(ibr: Word): (off: int)
    ensures off == Isa.Offset12(ibr)
  {
    Pow2Table();
    var raw := Isa.Offset12Field(ibr);
    Signed16(if raw >= 0x800 then raw + 0xF000 else raw)
  }

  /** `offset10_from_ibr`: bits 13:4, with 0xFC00 OR-ed in when bit 9 of
      the field is set, read as int16. */
  function Offset10(ibr: Word): (off: int)
    ensures off == Isa.Offset10(ibr)
  {
    Pow2Table();
    var raw := Isa.Offset10Field(ibr);
    Signed16(if raw >= 0x200 then raw + 0xFC00 else raw)
  }

  /** `imm8_from_ibr_signed`: bits 11:4, with 0xFF00 OR-ed in when bit 7 is
      set; the result is the 8-bit immediate sign-extended to 16 bits. */
  function Imm8(ibr: Word): (v: Word)
    ensures Signed16(v) == SignExtend(Isa.Imm8Field(ibr), 8)
    ensures v == Isa.Imm8Field(ibr) <==> Isa.Imm8Field(ibr) < 0x80
  {
    Pow2Table();
    var raw := Isa.Imm8Field(ibr);
    if raw >= 0x80 then raw + 0xFF00 else raw
  }

  // ----- branches -----

  /** `instr_jmp`: R15 already holds pc + 1; stage R15 + offset. */
  function Jmp(s: Cpu, ibr: Word): (t: Cpu)
    requires s.Valid()
    ensures t == s.(nextPc := Trunc16(s.regs[PC] + Isa.Offset12(ibr)))
  {
    s.(nextPc := Trunc16(s.regs[PC] + Offset12(ibr)))
  }

  function BranchTo(s: Cpu, ibr: Word, taken: bool): Cpu
    requires s.Valid()
  {
    if taken then s.(nextPc := Trunc16(s.regs[PC] + Offset10(ibr))) else s
  }

  /** `instr_jmp_special`: the condition code picks JEQ, JNE, JLT or JGE. */
  function Jcc(s: Cpu, ibr: Word): (t: Cpu)
    requires s.Valid()
    ensures t == if Isa.Taken(Isa.CondFor(Isa.CondField(ibr)), s.z, s.c)
                 then s.(nextPc := Trunc16(s.regs[PC] + Isa.Offset10(ibr)))
                 else s
  {
    var cond := Isa.CondField(ibr);
    if cond == 0 then BranchTo(s, ibr, s.z == 1)
    else if cond == 1 then BranchTo(s, ibr, s.z == 0)
    else if cond == 2 then BranchTo(s, ibr, s.z == 0 && s.c == 1)
    else BranchTo(s, ibr, s.z == 1 || s.c == 0)
  }

  // ----- console and memory -----

  /** `io_char_read`: one byte from the console, echoed; 0 without an
      echo when the console is exhausted. A console value stands for the
      byte `scanf(" %c")` delivers after skipping whitespace; `% 0x100`
      only keeps a value outside a byte within one, C computes nothing. */
  function CharRead(s: Cpu): (r: (int, Cpu))
    ensures |s.input| == 0 ==> r == (0, s)
    ensures |s.input| > 0 ==>
      && 0 <= r.0 < 0x100 && r.0 == s.input[0] % 0x100
      && r.1 == s.(input := r.1.input, output := r.1.output)
      && s.input == [s.input[0]] + r.1.input
      && r.1.output == s.output + [Echo(r.0)]
  {
    if |s.input| == 0 then (0, s)
    else
      var ch := s.input[0] % 0x100;
      (ch, s.(input := s.input[1..], output := s.output + [Echo(ch)]))
  }

  /** `io_int_read`: one number from the console, echoed; 0 (still
      echoed) when the console is exhausted. */
  function IntRead(s: Cpu): (r: (int, Cpu))
    ensures r.1.output == s.output + [Echo(r.0)]
    ensures |s.input| == 0 ==> r.0 == 0 && r.1.input == s.input
    ensures |s.input| > 0 ==> r.0 == s.input[0] && r.1.input == s.input[1..]
  {
    var v := if |s.input| == 0 then 0 else s.input[0];
    (v, s.(input := if |s.input| == 0 then s.input else s.input[1..], output := s.output + [Echo(v)]))
  }

  /** `mem_read`: the two input ports, a backed cell (recorded as
      touched), or 0 for any other address, which is not recorded. */
  function MemRead(s: Cpu, addr: Word): (r: (Word, Cpu))
    requires s.Valid()
    ensures r.1.Valid()
    ensures addr < MemSize ==> r == (s.mem[addr], s.(accessed := s.accessed + {addr}))
    ensures addr >= MemSize && !PySim.IsReadPort(addr) ==> r == (0, s)
    ensures PySim.IsReadPort(addr) ==> r.1.mem == s.mem && r.1.accessed == s.accessed
  {
    if addr == CharIn then
      var (v, t) := CharRead(s); (Trunc16(v), t)
    else if addr == IntIn then
      var (v, t) := IntRead(s); (Trunc16(v), t)
    else if addr < MemSize then (s.mem[addr], s.(accessed := s.accessed + {addr}))
    else (0, s)
  }

  /** `mem_write`: the two output ports print the low byte as a character
      and the word as a signed int16; a backed cell is recorded and
      written; any other address drops the write. */
  function MemWrite(s: Cpu, addr: Word, v: Word): (t: Cpu)
    requires s.Valid()
    ensures t.Valid()
    ensures t == s.(mem := t.mem, accessed := t.accessed, output := t.output)
    ensures addr == CharOut ==> t.output == s.output + [PutChar(v % 0x100)]
    ensures addr == IntOut ==> t.output == s.output + [PutInt(Signed16(v))]
    ensures addr < MemSize ==> t.mem == s.mem[addr := v] && t.accessed == s.accessed + {addr}
    ensures addr >= MemSize ==> t.mem == s.mem && t.accessed == s.accessed
    ensures addr >= MemSize && !PySim.IsWritePort(addr) ==> t == s
  {
    if addr == CharOut then s.(output := s.output + [PutChar(v % 0x100)])
    else if addr == IntOut then s.(output := s.output + [PutInt(Signed16(v))])
    else if addr < MemSize then s.(mem := s.mem[addr := v], accessed := s.accessed + {addr})
    else s
  }

  function Ldr(s: Cpu, ibr: Word): (t: Cpu)
    requires s.Valid()
    ensures t.Valid()
    ensures t.z == s.z && t.c == s.c && t.nextPc == s.nextPc && t.mem == s.mem
    ensures var addr := PySim.LdrAddr(s, ibr);
      addr < MemSize ==> t == s.(regs := s.regs[Isa.RdField(ibr) := s.mem[addr]],
                                 accessed := s.accessed + {addr})
    ensures var addr := PySim.LdrAddr(s, ibr);
      addr >= MemSize && !PySim.IsReadPort(addr) ==> t == s.(regs := s.regs[Isa.RdField(ibr) := 0])
    ensures var addr, d := PySim.LdrAddr(s, ibr), Isa.RdField(ibr);
      PySim.IsReadPort(addr) ==>
        && t == s.(regs := s.regs[d := t.regs[d]], input := t.input, output := t.output)
        && (|s.input| == 0 ==> t.input == s.input)
        && (|s.input| > 0 ==> t.input == s.input[1..])
    ensures var addr, d := PySim.LdrAddr(s, ibr), Isa.RdField(ibr);
      addr == CharIn ==> t.regs[d] == if |s.input| == 0 then 0 else s.input[0] % 0x100
    ensures var addr, d := PySim.LdrAddr(s, ibr), Isa.RdField(ibr);
      addr == IntIn ==> t.regs[d] == Trunc16(if |s.input| == 0 then 0 else s.input[0])
  {
    var r := MemRead(s, PySim.LdrAddr(s, ibr));
    r.1.WithReg(Isa.RdField(ibr), r.0)
  }

  function Str(s: Cpu, ibr: Word): (t: Cpu)
    requires s.Valid()
    ensures t.Valid()
    ensures t == s.(mem := t.mem, accessed := t.accessed, output := t.output)
    ensures var addr := PySim.StrAddr(s, ibr);
      addr < MemSize ==>
        && t.mem == s.mem[addr := s.regs[Isa.RnField(ibr)]]
        && t.accessed == s.accessed + {addr}
        && t.output == s.output
    ensures var addr, v := PySim.StrAddr(s, ibr), s.regs[Isa.RnField(ibr)];
      addr == CharOut ==> t == s.(output := s.output + [PutChar(v % 0x100)])
    ensures var addr, v := PySim.StrAddr(s, ibr), s.regs[Isa.RnField(ibr)];
      addr == IntOut ==> t == s.(output := s.output + [PutInt(Signed16(v))])
    ensures var addr := PySim.StrAddr(s, ibr);
      addr >= MemSize && !PySim.IsWritePort(addr) ==> t == s
  {
    MemWrite(s, PySim.StrAddr(s, ibr), s.regs[Isa.RnField(ibr)])
  }

  // ----- stack -----

  /** `instr_push`: SP wraps to 16 bits on the decrement; R[rn] (read after
      the decrement) is stored only when the new SP is a backed cell. */
  function Push(s: Cpu, ibr: Word): (t: Cpu)
    requires s.Valid()
    ensures t.Valid()
    ensures t.regs == s.regs[SP := Trunc16(s.regs[SP] as int - 1)]
    ensures t.regs[SP] < MemSize ==> t.mem == s.mem[t.regs[SP] := t.regs[Isa.RnField(ibr)]]
    ensures t.regs[SP] >= MemSize ==> t.mem == s.mem
    ensures t == s.(regs := t.regs, mem := t.mem)
  {
    var s1 := s.WithReg(SP, Trunc16(s.regs[SP] as int - 1));
    var sp := s1.regs[SP];
    if sp < MemSize then s1.(mem := s1.mem[sp := s1.regs[Isa.RnField(ibr)]]) else s1
  }

  /** `instr_pop`: the cell at SP (0 when SP is past memory), SP incremented
      with 16-bit wrap, then R[rd], or the staged program counter for R15. */
  function Pop(s: Cpu, ibr: Word): (t: Cpu)
    requires s.Valid()
    ensures t.Valid()
    ensures var d, sp := Isa.RdField(ibr), s.regs[SP];
      var v := if sp < MemSize then s.mem[sp] else 0;
      if d == PC then t == s.(regs := s.regs[SP := Trunc16(sp + 1)], nextPc := v)
      else t == s.(regs := s.regs[SP := Trunc16(sp + 1)][d := v])
  {
    var sp := s.regs[SP];
    var v: Word := if sp < MemSize then s.mem[sp] else 0;
    var s1 := s.WithReg(SP, Trunc16(sp + 1));
    var d := Isa.RdField(ibr);
    if d == PC then s1.(nextPc := v) else s1.WithReg(d, v)
  }

  // ----- arithmetic and logic -----

  /** `(uint32_t)x`: keep 32 bits. */
  function Trunc32(x: int): int
  {
    x % 0x1_0000_0000
  }

  /** The flag update the C handlers share: Z from the stored result. */
  function Store(s: Cpu, d: nat, res: Word, carry: Bit): (t: Cpu)
    requires s.Valid() && d < 16
    ensures t.Valid() && PySim.OnlyDestAndFlags(s, t, d) && PySim.ZeroFlag(t, d)
    ensures t.regs[d] == res && t.c == carry
  {
    s.WithReg(d, res).(c := carry, z := if res == 0 then 1 else 0)
  }

  /** `instr_mov`: R[rd] receives the sign-extended immediate. Unlike the
      Python handler this does not zero-extend; see `Agreement`. */
  function Mov(s: Cpu, ibr: Word): (t: Cpu)
    requires s.Valid()
    ensures t.Valid()
    ensures t == s.(regs := s.regs[Isa.RdField(ibr) := Trunc16(SignExtend(Isa.Imm8Field(ibr), 8))])
  {
    Pow2Table();
    s.WithReg(Isa.RdField(ibr), Imm8(ibr))
  }

  /** `instr_add`: a 32-bit sum; C when it exceeds 0xFFFF. */
  function Add(s: Cpu, ibr: Word): (t: Cpu)
    requires s.Valid()
    ensures t == PySim.Add(s, ibr)
  {
    var result := Trunc32(s.regs[Isa.RmField(ibr)] as int + s.regs[Isa.RnField(ibr)]);
    Store(s, Isa.RdField(ibr), result % 0x1_0000, if result > 0xFFFF then 1 else 0)
  }

  /** `instr_addi`. */
  function Addi(s: Cpu, ibr: Word): (t: Cpu)
    requires s.Valid()
    ensures t == PySim.Addi(s, ibr)
  {
    var result := Trunc32(s.regs[Isa.RmField(ibr)] + Isa.RnField(ibr));
    Store(s, Isa.RdField(ibr), result % 0x1_0000, if result > 0xFFFF then 1 else 0)
  }

  /** `instr_sub`: C is the borrow; the difference is taken modulo 2^16. */
  function Sub(s: Cpu, ibr: Word): (t: Cpu)
    requires s.Valid()
    ensures t == PySim.Sub(s, ibr)
  {
    var a, b := s.regs[Isa.RmField(ibr)], s.regs[Isa.RnField(ibr)];
    Store(s, Isa.RdField(ibr), Trunc16(a as int - b), if a < b then 1 else 0)
  }

  /** `instr_subi`. */
  function Subi(s: Cpu, ibr: Word): (t: Cpu)
    requires s.Valid()
    ensures t == PySim.Subi(s, ibr)
  {
    var a, b := s.regs[Isa.RmField(ibr)], Isa.RnField(ibr);
    Store(s, Isa.RdField(ibr), Trunc16(a as int - b), if a < b then 1 else 0)
  }

  /** `instr_and`: C cleared. */
  function And(s: Cpu, ibr: Word): (t: Cpu)
    requires s.Valid()
    ensures t == PySim.And(s, ibr)
  {
    Store(s, Isa.RdField(ibr), And16(s.regs[Isa.RmField(ibr)], s.regs[Isa.RnField(ibr)]), 0)
  }

  /** `instr_or`: C cleared. */
  function Or(s: Cpu, ibr: Word): (t: Cpu)
    requires s.Valid()
    ensures t == PySim.Or(s, ibr)
  {
    Store(s, Isa.RdField(ibr), Or16(s.regs[Isa.RmField(ibr)], s.regs[Isa.RnField(ibr)]), 0)
  }

  /** `instr_shr`: a shift by zero keeps the value (and clears C). */
  function ShrOp(s: Cpu, ibr: Word): (t: Cpu)
    requires s.Valid()
    ensures t == PySim.ShrOp(s, ibr)
  {
    var val, k := s.regs[Isa.RmField(ibr)], Isa.RnField(ibr);
    var res := if k > 0 then Shr(val, k) else val;
    var carry: Bit := if k > 0 then Shr(val, k - 1) % 2 else 0;
    Store(s, Isa.RdField(ibr), res, carry)
  }

  /** `instr_shl`: the shift is done in 32 bits, where a 16-bit value
      shifted by at most 15 never overflows. */
  function ShlOp(s: Cpu, ibr: Word): (t: Cpu)
    requires s.Valid()
    ensures t == PySim.ShlOp(s, ibr)
  {
    var val, k := s.regs[Isa.RmField(ibr)], Isa.RnField(ibr);
    var result := Trunc32(Shl(val, k));
    assert result == Shl(val, k) by {
      ShlFits32(val, k);
    }
    Store(s, Isa.RdField(ibr), result % 0x1_0000, if result > 0xFFFF then 1 else 0)
  }

  lemma ShlFits32(val: Word, k: nat)
    requires k < 16
    ensures Shl(val, k) < 0x1_0000_0000
  {
    Pow2Below(k, 15);
    Pow2Table();
    MulMono(val, Pow2(k), 0x8000);
    assert val * 0x8000 < 0x1_0000 * 0x8000;
  }

  lemma {:induction false} Pow2Below(k: nat, n: nat)
    requires k <= n
    ensures Pow2(k) <= Pow2(n)
    decreases n
  {
    if k < n {
      Pow2Below(k, n - 1);
    }
  }

  /** `instr_cmp`. */
  function Cmp(s: Cpu, ibr: Word): (t: Cpu)
    requires s.Valid()
    ensures t == PySim.Cmp(s, ibr)
  {
    var a, b := s.regs[Isa.RmField(ibr)], s.regs[Isa.RnField(ibr)];
    if a == b then s.(z := 1, c := 0)
    else if a < b then s.(z := 0, c := 1)
    else s.(z := 0, c := 0)
  }

  // ----- dispatch and cycle -----

  /** The `switch` of the main loop. The same frame conditions as the
      Python dispatch hold, with no precondition. */
  function Execute(s: Cpu, op: Isa.Opcode, ibr: Word): (t: Cpu)
    requires s.Valid()
    ensures t.Valid()
    ensures !Isa.Redirects(op, ibr) ==> t.nextPc == s.nextPc
    ensures !Isa.SetsFlags(op) ==> t.z == s.z && t.c == s.c
    ensures op != Isa.OpStr && op != Isa.OpPush ==> t.mem == s.mem
    ensures op != Isa.OpLdr && op != Isa.OpStr ==>
      t.accessed == s.accessed && t.input == s.input && t.output == s.output
  {
    match op
    case OpJmp => Jmp(s, ibr)
    case OpJcc => Jcc(s, ibr)
    case OpLdr => Ldr(s, ibr)
    case OpStr => Str(s, ibr)
    case OpMov => Mov(s, ibr)
    case OpAdd => Add(s, ibr)
    case OpAddi => Addi(s, ibr)
    case OpSub => Sub(s, ibr)
    case OpSubi => Subi(s, ibr)
    case OpAnd => And(s, ibr)
    case OpOr => Or(s, ibr)
    case OpShr => ShrOp(s, ibr)
    case OpShl => ShlOp(s, ibr)
    case OpCmp => Cmp(s, ibr)
    case OpPush => Push(s, ibr)
    case OpPop => Pop(s, ibr)
  }

  /** Fetch: R15 and the staged program counter both become pc + 1. */
  function Fetch(s: Cpu): (t: Cpu)
    requires s.Valid() && s.regs[PC] < MemSize
    ensures t.Valid() && t.regs[PC] == s.regs[PC] + 1 && t.nextPc == s.regs[PC] + 1
    ensures t == s.(regs := t.regs, nextPc := t.nextPc)
    ensures forall r | 0 <= r < 16 && r != PC :: t.regs[r] == s.regs[r]
  {
    s.WithReg(PC, s.regs[PC] + 1).(nextPc := s.regs[PC] + 1)
  }

  /** One pass of the main loop. The staged program counter is committed
      before the dump, so a dump shows R15 as the next address. */
  function Cycle(s: Cpu, bp: set<nat>): (st: Step)
    requires s.Valid()
    ensures st.state.Valid()
    ensures st.status == Running || st.status == Halted ==> st.state.regs[PC] == st.state.nextPc
    ensures s.regs[PC] >= MemSize <==> st.status == PcOutOfBounds(s.regs[PC])
    ensures st.status == Halted <==> s.regs[PC] < MemSize && s.mem[s.regs[PC]] == Isa.HaltWord
    ensures st.status == Halted ==> st.dump == Some(Snap(st.state)) && st.state.regs[PC] == s.regs[PC] + 1
    ensures st.status == Running ==> st.dump == if s.regs[PC] in bp then Some(Snap(st.state)) else None
    ensures st.status != OutsideModel
  {
    var pc := s.regs[PC];
    if pc >= MemSize then Step(s, PcOutOfBounds(pc), None)
    else
      var ir := s.mem[pc];
      var s1 := Fetch(s);
      if ir == Isa.HaltWord then
        var s2 := Commit(s1);
        Step(s2, Halted, Some(Snap(s2)))
      else
        var ibr := Isa.Body(ir);
        match Isa.OpcodeOf(Isa.OpField(ir))
        case None => Step(s1, InvalidInstruction(ibr), None)
        case Some(op) =>
          var s2 := Commit(Execute(s1, op, ibr));
          Step(s2, Running, if pc in bp then Some(Snap(s2)) else None)
  }

  /** Up to `fuel` cycles, stopping at the first that does not keep running. */
  function Run(s: Cpu, bp: set<nat>, fuel: nat): (t: Trace)
    requires s.Valid()
    ensures t.state.Valid()
    ensures |t.dumps| <= fuel
    ensures t.status != OutsideModel
    decreases fuel
  {
    if fuel == 0 then Trace(s, Running, [])
    else
      var st := Cycle(s, bp);
      if st.status != Running then Trace(st.state, st.status, DumpList(st.dump))
      else
        var rest := Run(st.state, bp, fuel - 1);
        Trace(rest.state, rest.status, DumpList(st.dump) + rest.dumps)
  }

  /** Running n = a + b cycles is running a and then b more from where
      the first a left off, unless the first a already stopped. */
  lemma {:induction false} RunAdditive(s: Cpu, bp: set<nat>, a: nat, b: nat, n: nat)
    requires s.Valid() && n == a + b
    ensures var r := Run(s, bp, a);
      r.status != Running ==> Run(s, bp, n) == r
    ensures var r := Run(s, bp, a);
      r.status == Running ==>
        var q := Run(r.state, bp, b);
        Run(s, bp, n) == Trace(q.state, q.status, r.dumps + q.dumps)
    decreases a
  {
    if a == 0 {
      RunNothing(s, bp, b, n);
    } else if Cycle(s, bp).status != Running {
      RunStops(s, bp, a, n);
    } else {
      var t := Cycle(s, bp).state;
      forall a1: nat, n1: nat | a1 == a - 1 && n1 == n - 1
        ensures var r := Run(t, bp, a1); r.status != Running ==> Run(t, bp, n1) == r
        ensures var r := Run(t, bp, a1); r.status == Running ==>
          var q := Run(r.state, bp, b); Run(t, bp, n1) == Trace(q.state, q.status, r.dumps + q.dumps)
      {
        RunAdditive(t, bp, a1, b, n1);
      }
      RunGoesOn(s, bp, a, n);
      var r1 := Run(t, bp, a - 1);
      TraceGlue(Run(s, bp, a), Run(s, bp, n), r1, Run(t, bp, n - 1), Run(r1.state, bp, b), DumpList(Cycle(s, bp).dump));
    }
  }

  /** Zero cycles change nothing and print nothing. */
  lemma RunNothing(s: Cpu, bp: set<nat>, b: nat, n: nat)
    requires s.Valid() && n == b
    ensures Run(s, bp, 0) == Trace(s, Running, [])
    ensures Run(s, bp, n) == Trace(Run(s, bp, b).state, Run(s, bp, b).status, [] + Run(s, bp, b).dumps)
  {
    DumpsAssociate([], [], Run(s, bp, b).dumps);
  }

  /** A run whose first cycle stops ends with that cycle, whatever the fuel. */
  lemma RunStops(s: Cpu, bp: set<nat>, a: nat, n: nat)
    requires s.Valid() && a > 0 && n >= a && Cycle(s, bp).status != Running
    ensures Run(s, bp, n) == Run(s, bp, a)
  {
  }

  /** A run whose first cycle keeps running goes on from its state. */
  lemma RunGoesOn(s: Cpu, bp: set<nat>, a: nat, n: nat)
    requires s.Valid() && a > 0 && n >= a && Cycle(s, bp).status == Running
    ensures var st := Cycle(s, bp); var r := Run(st.state, bp, a - 1);
      Run(s, bp, a) == Trace(r.state, r.status, DumpList(st.dump) + r.dumps)
    ensures var st := Cycle(s, bp); var r := Run(st.state, bp, n - 1);
      Run(s, bp, n) == Trace(r.state, r.status, DumpList(st.dump) + r.dumps)
  {
  }

  // ----- start-up -----

  /** The image load loop: pairs until (0, 0); data kept to 16 bits and
      pairs whose address lies past memory skipped. */
  function Load(mem: seq<Word>, image: seq<(nat, nat)>): (m: seq<Word>)
    requires |mem| == MemSize
    ensures |m| == MemSize
    decreases |image|
  {
    if image == [] || image[0] == (0, 0) then mem
    else
      var (a, d) := image[0];
      Load(if a < MemSize then mem[a := d % WordMod] else mem, image[1..])
  }

  /** After loading, every backed cell holds the data of the last live
      pair stored there, kept to 16 bits, or its old value. */
  lemma {:induction false} LoadContents(mem: seq<Word>, image: seq<(nat, nat)>)
    requires |mem| == MemSize
    ensures forall a | 0 <= a < MemSize ::
      (Load(mem, image)[a] ==
         match LastStore(Live(image), a) case Some(d) => d % WordMod case None => mem[a])
    decreases |image|
  {
    if image != [] && image[0] != (0, 0) {
      var p := image[0];
      assert Live(image) == [p] + Live(image[1..]);
      var mem' := if p.0 < MemSize then mem[p.0 := p.1 % WordMod] else mem;
      LoadContents(mem', image[1..]);
      forall a | 0 <= a < MemSize
        ensures Load(mem, image)[a] ==
          (match LastStore(Live(image), a) case Some(d) => d % WordMod case None => mem[a])
      {
        LastStoreCons(p, Live(image[1..]), a);
      }
    }
  }

  /** `main` up to the cycle loop: breakpoints past memory are ignored,
      R14 = 0x2000, the program counter and staged program counter 0. */
  function Boot(bps: seq<nat>, image: seq<(nat, nat)>, input: seq<int>): (r: (Cpu, set<nat>))
    ensures r.0.Valid() && r.0.regs[PC] == 0 && r.0.nextPc == 0 && r.0.regs[SP] == StackTop
    ensures forall b :: b in r.1 <==> b in bps && b < MemSize
  {
    var s0 := Initial(0, input);
    (s0.(mem := Load(s0.mem, image)), set b | b in bps && b < MemSize)
  }
}

/**
  The two-pass assembler `RiscOAssembler` of `CompiladorDeAssembly.py`.
  Pass 1 cuts comments, peels `label:` prefixes into the symbol table and
  numbers the remaining instructions 0, 1, 2, ...; pass 2 packs each
  instruction's operands into the bit fields of its mnemonic. Operands
  that cannot be read make the word 0. Two things make the source raise
  instead of producing a word, and one produces a number outside the
  16-bit layout; those are the `Failure`s of this model.
 */
module Assembler {
  import opened Results
  import opened AsmText
  import opened Literals
  import Isa
  import Words

  /** Why a source text yields no listing here. */
  datatype Failure =
    | NoTokens          // an instruction line with no token: `parts[0]` raises
    | BadCharLiteral    // a `'` line that is not one character: `ord` raises
    | RegisterOutOfRange // a register number outside 0..15 spills out of its field

  // ----- the mnemonic table -----

  /** The keys of the `opcodes` table. */
  datatype Mnemonic =
    | Jmp | Jeq | Jne | Jlt | Jgt | Jge | Ldr | Str | Mov | Add | Addi
    | Sub | Subi | And | Or | Shr | Shl | Cmp | Push | Pop | Halt

  /** How a mnemonic is written, in upper case. */
  function Spelling(mn: Mnemonic): string
  {
    match mn
    case Jmp => "JMP" case Jeq => "JEQ" case Jne => "JNE" case Jlt => "JLT"
    case Jgt => "JGT" case Jge => "JGE" case Ldr => "LDR" case Str => "STR"
    case Mov => "MOV" case Add => "ADD" case Addi => "ADDI" case Sub => "SUB"
    case Subi => "SUBI" case And => "AND" case Or => "OR" case Shr => "SHR"
    case Shl => "SHL" case Cmp => "CMP" case Push => "PUSH" case Pop => "POP"
    case Halt => "HALT"
  }

  /** Looking an upper-cased first token up in the `opcodes` table. */
  function MnemonicOf(s: string): (r: Option<Mnemonic>)
  {
    if s == "JMP" then Some(Jmp) else if s == "JEQ" then Some(Jeq)
    else if s == "JNE" then Some(Jne) else if s == "JLT" then Some(Jlt)
    else if s == "JGT" then Some(Jgt) else if s == "JGE" then Some(Jge)
    else if s == "LDR" then Some(Ldr) else if s == "STR" then Some(Str)
    else if s == "MOV" then Some(Mov) else if s == "ADD" then Some(Add)
    else if s == "ADDI" then Some(Addi) else if s == "SUB" then Some(Sub)
    else if s == "SUBI" then Some(Subi) else if s == "AND" then Some(And)
    else if s == "OR" then Some(Or) else if s == "SHR" then Some(Shr)
    else if s == "SHL" then Some(Shl) else if s == "CMP" then Some(Cmp)
    else if s == "PUSH" then Some(Push) else if s == "POP" then Some(Pop)
    else if s == "HALT" then Some(Halt)
    else None
  }

  /** The lookup finds exactly the spelled mnemonics. */
  lemma MnemonicOfSpelling(s: string, mn: Mnemonic)
    ensures MnemonicOf(s) == Some(mn) <==> s == Spelling(mn)
  {
    if s == Spelling(mn) {
      SpellingFound(mn);
    }
    FoundSpelling(s);
  }

  lemma FoundSpelling(s: string)
    ensures MnemonicOf(s).Some? ==> Spelling(MnemonicOf(s).value) == s
  {
  }

  lemma SpellingFound(mn: Mnemonic)
    ensures MnemonicOf(Spelling(mn)) == Some(mn)
  {
    match mn
    case Jmp | Jeq | Jne | Jlt | Jgt | Jge => SpellingFoundJumps(mn);
    case Ldr | Str | Mov | Add | Addi => SpellingFoundMemory(mn);
    case Sub | Subi | And | Or | Shr => SpellingFoundArith(mn);
    case Shl | Cmp | Push | Pop | Halt => SpellingFoundRest(mn);
  }

  lemma SpellingFoundJumps(mn: Mnemonic)
    requires mn in {Jmp, Jeq, Jne, Jlt, Jgt, Jge}
    ensures MnemonicOf(Spelling(mn)) == Some(mn)
  {
    match mn
    case Jmp => case Jeq => case Jne => case Jlt => case Jgt => case Jge =>
  }

  lemma SpellingFoundMemory(mn: Mnemonic)
    requires mn in {Ldr, Str, Mov, Add, Addi}
    ensures MnemonicOf(Spelling(mn)) == Some(mn)
  {
    match mn
    case Ldr => case Str => case Mov => case Add => case Addi =>
  }

  lemma SpellingFoundArith(mn: Mnemonic)
    requires mn in {Sub, Subi, And, Or, Shr}
    ensures MnemonicOf(Spelling(mn)) == Some(mn)
  {
    match mn
    case Sub => case Subi => case And => case Or => case Shr =>
  }

  lemma SpellingFoundRest(mn: Mnemonic)
    requires mn in {Shl, Cmp, Push, Pop, Halt}
    ensures MnemonicOf(Spelling(mn)) == Some(mn)
  {
    match mn
    case Shl => case Cmp => case Push => case Pop => case Halt =>
  }

  /** The values of the `opcodes` table: the low nibble of the
      instruction, and for HALT its whole word. */
  function TableValue(mn: Mnemonic): nat
  {
    match mn
    case Jmp => 0x0
    case Jeq | Jne | Jlt | Jgt | Jge => 0x1
    case Ldr => 0x2 case Str => 0x3 case Mov => 0x4 case Add => 0x5
    case Addi => 0x6 case Sub => 0x7 case Subi => 0x8 case And => 0x9
    case Or => 0xA case Shr => 0xB case Shl => 0xC case Cmp => 0xD
    case Push => 0xE case Pop => 0xF
    case Halt => 0xFFFF
  }

  predicate IsBranch(mn: Mnemonic)
  {
    mn in {Jeq, Jne, Jlt, Jgt, Jge}
  }

  /** The `conds` table: the 2-bit condition of each conditional branch;
      JGT shares JGE's code. */
  function CondCode(mn: Mnemonic): (c: nat)
    requires IsBranch(mn)
    ensures c < 4
  {
    match mn
    case Jeq => 0
    case Jne => 1
    case Jlt => 2
    case Jgt | Jge => 3
  }

  /** The condition a branch mnemonic names; JGT, having no code of its
      own, names "greater or equal". */
  function BranchCond(mn: Mnemonic): Isa.Cond
    requires IsBranch(mn)
  {
    match mn
    case Jeq => Isa.Eq
    case Jne => Isa.Ne
    case Jlt => Isa.Lt
    case Jgt | Jge => Isa.Ge
  }

  /** The opcode class of a mnemonic in the instruction set. */
  function Group(mn: Mnemonic): Isa.Opcode
    requires mn != Halt
  {
    match mn
    case Jmp => Isa.OpJmp
    case Jeq | Jne | Jlt | Jgt | Jge => Isa.OpJcc
    case Ldr => Isa.OpLdr case Str => Isa.OpStr case Mov => Isa.OpMov
    case Add => Isa.OpAdd case Addi => Isa.OpAddi case Sub => Isa.OpSub
    case Subi => Isa.OpSubi case And => Isa.OpAnd case Or => Isa.OpOr
    case Shr => Isa.OpShr case Shl => Isa.OpShl case Cmp => Isa.OpCmp
    case Push => Isa.OpPush case Pop => Isa.OpPop
  }

  /** The assembler's table and the simulators' dispatch agree: every
      mnemonic but HALT carries the opcode number of its class, HALT's
      value is the word that stops the machine, and a branch condition
      code names the condition the simulators test. */
  lemma TableAgrees(mn: Mnemonic)
    ensures mn != Halt ==> TableValue(mn) == Isa.OpcodeNumber(Group(mn))
    ensures mn == Halt ==> TableValue(mn) == Isa.HaltWord
    ensures mn != Halt ==> (Group(mn) == Isa.OpJcc <==> IsBranch(mn))
    ensures IsBranch(mn) ==> Isa.CondFor(CondCode(mn)) == BranchCond(mn)
  {
  }

  // ----- operands -----

  /** `parse_reg`: `int` of the token upper-cased with every `R` and `,`
      removed; `None` where `int` raises. */
  function ParseReg(token: string): Option<int>
  {
    ParseInt(Remove(Remove(Upper(token), 'R'), ','))
  }

  /** `get_val`: drop `#` and `,`, strip; a label gives its address,
      anything else `int(s, 0)`, or 0 when that raises. */
  function GetVal(token: string, syms: map<string, nat>): int
  {
    var s := Strip(Remove(Remove(token, '#'), ','));
    if s in syms then syms[s]
    else match ParseLiteral(s)
      case Some(v) => v
      case None => 0
  }

  /** Operand i, counting the mnemonic as operand 0; `None` where
      `parts[i]` raises. */
  function Operand(parts: seq<string>, i: nat): Option<string>
  {
    if i < |parts| then Some(parts[i]) else None
  }

  /** An operand with every copy of c removed (`[` before a base
      register, `]` after an offset). */
  function Without(o: Option<string>, c: char): Option<string>
  {
    match o
    case Some(t) => Some(Remove(t, c))
    case None => None
  }

  function Reg(o: Option<string>): Option<int>
  {
    match o
    case Some(t) => ParseReg(t)
    case None => None
  }

  function Val(o: Option<string>, syms: map<string, nat>): Option<int>
  {
    match o
    case Some(t) => Some(GetVal(t, syms))
    case None => None
  }

  /** `imm & mask` for a mask of the form 2^k - 1: Python's `&` on a
      negative number works on its two's complement, which is the
      Euclidean remainder. */
  function Mask(v: Option<int>, m: nat): Option<int>
    requires m > 0
  {
    match v
    case Some(x) => Some(x % m)
    case None => None
  }

  predicate IsReg(v: int)
  {
    0 <= v < 16
  }

  /** `(a << 12) | (b << 8) | (c << 4) | op` once every operand has been
      read. A missing or unreadable operand makes the word 0 (the
      `except`); a register outside 0..15 would overlap its neighbours. */
  function Fields(a: Option<int>, b: Option<int>, c: Option<int>, op: nat): (r: Result<nat, Failure>)
    requires op < 16
    ensures a.None? || b.None? || c.None? ==> r == Ok(0)
    ensures r.Ok? && r.value != 0 ==> r.value % 0x10 == op && r.value < 0x10000
  {
    if a.None? || b.None? || c.None? then Ok(0)
    else if !IsReg(a.value) || !IsReg(b.value) || !IsReg(c.value) then Err(RegisterOutOfRange)
    else
      LowNibble(a.value * 0x100 + b.value * 0x10 + c.value, op);
      Ok(a.value * 0x1000 + b.value * 0x100 + c.value * 0x10 + op)
  }

  /** The opcode is the low nibble of a word built as `(hi << 4) | op`. */
  lemma LowNibble(hi: nat, op: nat)
    requires op < 16
    ensures (hi * 0x10 + op) % 0x10 == op
  {
    Words.DivUnique(hi * 0x10 + op, 0x10, hi, op);
  }

  /** `(rd << 12) | ((imm & 0xFF) << 4) | op`, the MOV layout. */
  function MovFields(rd: Option<int>, imm: Option<int>, op: nat): (r: Result<nat, Failure>)
    requires op < 16
    ensures rd.None? || imm.None? ==> r == Ok(0)
    ensures r.Ok? && r.value != 0 ==> r.value % 0x10 == op && r.value < 0x10000
  {
    if rd.None? || imm.None? then Ok(0)
    else if !IsReg(rd.value) then Err(RegisterOutOfRange)
    else
      LowNibble(rd.value * 0x100 + imm.value % 0x100, op);
      Ok(rd.value * 0x1000 + (imm.value % 0x100) * 0x10 + op)
  }

  /** `((target - pc - 1) & 0xFFF) << 4 | 0`: JMP with its 12-bit
      pc-relative offset. */
  function JumpWord(target: int, pc: nat): (w: nat)
    ensures w < 0x10000 && w % 0x10 == 0
  {
    LowNibble((target - pc - 1) % 0x1000, 0);
    ((target - pc - 1) % 0x1000) * 0x10
  }

  /** `cond << 14 | ((target - pc - 1) & 0x3FF) << 4 | 1`: a conditional
      branch with its 10-bit pc-relative offset. */
  function BranchWord(cond: nat, target: int, pc: nat): (w: nat)
    requires cond < 4
    ensures w < 0x10000 && w % 0x10 == 1
  {
    LowNibble(cond * 0x400 + (target - pc - 1) % 0x400, 1);
    cond * 0x4000 + ((target - pc - 1) % 0x400) * 0x10 + 1
  }

  /** The operand values `encode` reads for a mnemonic, in the order of
      the operands: a target (JMP and the branches), or registers and
      immediates, with `[` and `]` dropped around an LDR or STR address.
      A value is `None` where reading it raises. */
  datatype Args = Args(a: Option<int>, b: Option<int>, c: Option<int>)

  function ReadArgs(mn: Mnemonic, parts: seq<string>, syms: map<string, nat>): Args
  {
    var op1, op2, op3 := Operand(parts, 1), Operand(parts, 2), Operand(parts, 3);
    match mn
    case Jmp | Jeq | Jne | Jlt | Jgt | Jge => Args(Val(op1, syms), Some(0), Some(0))
    case Ldr | Str => Args(Reg(op1), Reg(Without(op2, '[')), Val(Without(op3, ']'), syms))
    case Mov => Args(Reg(op1), Val(op2, syms), Some(0))
    case Add | Or | Sub | And | Cmp => Args(Reg(op1), Reg(op2), Reg(op3))
    case Addi | Subi | Shl | Shr => Args(Reg(op1), Reg(op2), Val(op3, syms))
    case Push | Pop | Halt => Args(Reg(op1), Some(0), Some(0))
  }

  /** `encode` after the line has been split into tokens: the word of one
      instruction at address pc. */
  function EncodeTokens(parts: seq<string>, pc: nat, syms: map<string, nat>): (r: Result<nat, Failure>)
    ensures parts == [] <==> r == Err(NoTokens)
    ensures r.Ok? ==> r.value < 0x10000
    ensures parts != [] && MnemonicOf(Upper(parts[0])).None? ==> r == Ok(0)
    ensures parts != [] && MnemonicOf(Upper(parts[0])) == Some(Halt) ==> r == Ok(Isa.HaltWord)
    ensures parts != [] && r.Ok? && r.value != 0 ==>
      match MnemonicOf(Upper(parts[0]))
      case Some(mn) => mn != Halt ==> r.value % 0x10 == TableValue(mn)
      case None => true
  {
    if parts == [] then Err(NoTokens)
    else
      match MnemonicOf(Upper(parts[0]))
      case None => Ok(0)
      case Some(mn) => if mn == Halt then Ok(0xFFFF) else EncodeArgs(mn, ReadArgs(mn, parts, syms), pc)
  }

  /** The word for one mnemonic other than HALT from its operand values. */
  function EncodeArgs(mn: Mnemonic, args: Args, pc: nat): (r: Result<nat, Failure>)
    requires mn != Halt
    ensures r.Ok? ==> r.value < 0x10000
    ensures r.Ok? && r.value != 0 ==> r.value % 0x10 == TableValue(mn)
    ensures r.Err? ==> r == Err(RegisterOutOfRange)
  {
    if mn == Jmp then
      (match args.a
       case None => Ok(0)
       case Some(t) => Ok(JumpWord(t, pc)))
    else if IsBranch(mn) then
      (match args.a
       case None => Ok(0)
       case Some(t) => Ok(BranchWord(CondCode(mn), t, pc)))
    else if mn == Mov then MovFields(args.a, args.b, TableValue(Mov))
    else PackedWord(mn, args)
  }

  /** The forms whose fields are four nibbles. */
  predicate IsPacked(mn: Mnemonic)
  {
    mn != Halt && mn != Jmp && !IsBranch(mn) && mn != Mov
  }

  /** The three operand values of a four-nibble form in the order of its
      fields, bits 15:12, 11:8 and 7:4, with immediates masked to a
      nibble and the unused fields zero. */
  function PackedFields(mn: Mnemonic, args: Args): (Option<int>, Option<int>, Option<int>)
    requires IsPacked(mn)
  {
    match mn
    case Ldr => (args.a, args.b, Mask(args.c, 0x10))
    case Str => (Mask(args.c, 0x10), args.b, args.a)
    case Add | Or | Sub | And | Cmp => (args.a, args.b, args.c)
    case Addi | Subi | Shl | Shr => (args.a, args.b, Mask(args.c, 0x10))
    case Push => (Some(0), Some(0), args.a)
    case Pop => (args.a, Some(0), Some(0))
  }

  function PackedWord(mn: Mnemonic, args: Args): (r: Result<nat, Failure>)
    requires IsPacked(mn)
    ensures r.Ok? ==> r.value < 0x10000
    ensures r.Ok? && r.value != 0 ==> r.value % 0x10 == TableValue(mn)
  {
    var (a, b, c) := PackedFields(mn, args);
    Fields(a, b, c, TableValue(mn))
  }

  // ----- what a line means -----

  /** Registers read from three operands, when all three were read and
      name one of the sixteen registers. */
  function Regs(a: Option<int>, b: Option<int>, c: Option<int>): (r: Option<(nat, nat, nat)>)
    ensures r.Some? ==> r.value.0 < 16 && r.value.1 < 16 && r.value.2 < 16
    ensures r.Some? <==> a.Some? && b.Some? && c.Some? && IsReg(a.value) && IsReg(b.value) && IsReg(c.value)
  {
    if a.Some? && b.Some? && c.Some? && IsReg(a.value) && IsReg(b.value) && IsReg(c.value)
    then Some((a.value, b.value, c.value))
    else None
  }

  /** The instruction a token list stands for, as the instruction table
      describes it: the form its mnemonic names, with the operands in
      their fields and a branch target as the signed offset from the
      next address that fits the field. `None` for a line the assembler
      turns into the fail-soft word 0 or rejects. */
  function Denotes(parts: seq<string>, pc: nat, syms: map<string, nat>): (r: Option<Isa.Instr>)
    ensures r.Some? ==> Isa.WellFormed(r.value)
  {
    if parts == [] then None
    else
      match MnemonicOf(Upper(parts[0]))
      case None => None
      case Some(mn) => if mn == Halt then Some(Isa.Halt) else Meaning(mn, ReadArgs(mn, parts, syms), pc)
  }

  function Meaning(mn: Mnemonic, args: Args, pc: nat): (r: Option<Isa.Instr>)
    requires mn != Halt
    ensures r.Some? ==> Isa.WellFormed(r.value)
  {
    if mn == Jmp then
      (match args.a
       case None => None
       case Some(t) => Some(Isa.Jump(SignedField(t - pc - 1, 0x1000))))
    else if IsBranch(mn) then
      (match args.a
       case None => None
       case Some(t) => Some(Isa.Branch(BranchCond(mn), SignedField(t - pc - 1, 0x400))))
    else if mn == Mov then
      (match Regs(args.a, Some(0), Some(0))
       case None => None
       case Some((rd, _, _)) =>
         (match args.b
          case None => None
          case Some(imm) => Some(Isa.MoveImm(rd, imm % 0x100))))
    else PackedMeaning(mn, args)
  }

  /** The residue of x modulo m read as a signed number: the offset a
      field of m values can hold that agrees with x modulo m. */
  function SignedField(x: int, m: nat): (off: int)
    requires m >= 2
    ensures -(m / 2) <= off < m - m / 2
  {
    var f := x % m;
    if f >= m - m / 2 then f - m else f
  }

  /** The signed offset agrees with x modulo m, and is x itself when x
      fits the field. */
  lemma SignedFieldAgrees(x: int, m: nat)
    requires m >= 2
    ensures SignedField(x, m) % m == x % m
    ensures -(m / 2) <= x < m - m / 2 ==> SignedField(x, m) == x
  {
    var f := x % m;
    if f >= m - m / 2 {
      Words.DivUnique(f - m, m, -1, f);
    } else {
      Words.DivUnique(f, m, 0, f);
    }
    if -(m / 2) <= x < m - m / 2 {
      if x >= 0 {
        Words.DivUnique(x, m, 0, x);
      } else {
        Words.DivUnique(x, m, -1, x + m);
      }
    }
  }

  function PackedMeaning(mn: Mnemonic, args: Args): (r: Option<Isa.Instr>)
    requires IsPacked(mn)
    ensures r.Some? ==> Isa.WellFormed(r.value)
  {
    var (a, b, c) := PackedFields(mn, args);
    match Regs(a, b, c)
    case None => None
    case Some((x, y, z)) => Some(Form(mn, x, y, z))
  }

  /** The instruction of a four-nibble form whose fields hold x, y, z
      (bits 15:12, 11:8, 7:4). */
  function Form(mn: Mnemonic, x: nat, y: nat, z: nat): (i: Isa.Instr)
    requires IsPacked(mn) && x < 16 && y < 16 && z < 16
    ensures Isa.WellFormed(i)
  {
    match mn
    case Ldr => Isa.Load(x, y, z)
    case Str => Isa.Store(z, y, x)
    case Add | Or | Sub | And => Isa.RegOp(Group(mn), x, y, z)
    case Cmp => Isa.Compare(x, y, z)
    case Addi | Subi | Shl | Shr => Isa.ImmOp(Group(mn), x, y, z)
    case Push => Isa.Push(z)
    case Pop => Isa.Pop(x)
  }

  /** The word `encode` produces is the instruction-table encoding of the
      instruction the line stands for; a line that stands for none gives
      the fail-soft 0 or is rejected. */
  lemma EncodesDenoted(parts: seq<string>, pc: nat, syms: map<string, nat>)
    ensures Denotes(parts, pc, syms).Some? ==>
      EncodeTokens(parts, pc, syms) == Ok(Isa.Encode(Denotes(parts, pc, syms).value))
    ensures Denotes(parts, pc, syms).None? ==>
      EncodeTokens(parts, pc, syms) == Ok(0) || EncodeTokens(parts, pc, syms).Err?
  {
    if parts != [] {
      match MnemonicOf(Upper(parts[0]))
      case None =>
      case Some(mn) =>
        if mn != Halt {
          ArgsDenoted(mn, ReadArgs(mn, parts, syms), pc);
        }
    }
  }

  lemma ArgsDenoted(mn: Mnemonic, args: Args, pc: nat)
    requires mn != Halt
    ensures ArgsAgree(mn, args, pc)
  {
    if mn == Jmp || IsBranch(mn) {
      TargetArgsDenoted(mn, args, pc);
    } else if mn == Mov {
      if args.a.Some? && IsReg(args.a.value) && args.b.Some? {
        MovDenoted(args.a.value, args.b.value);
      }
    } else {
      PackedDenoted(mn, args);
    }
  }

  /** The word of a mnemonic is the encoding of the instruction its
      operands mean, or the fail-soft 0 or a rejection when they mean
      none. */
  predicate ArgsAgree(mn: Mnemonic, args: Args, pc: nat)
    requires mn != Halt
  {
    && (Meaning(mn, args, pc).Some? ==> EncodeArgs(mn, args, pc) == Ok(Isa.Encode(Meaning(mn, args, pc).value)))
    && (Meaning(mn, args, pc).None? ==> EncodeArgs(mn, args, pc) == Ok(0) || EncodeArgs(mn, args, pc).Err?)
  }

  lemma TargetArgsDenoted(mn: Mnemonic, args: Args, pc: nat)
    requires mn == Jmp || IsBranch(mn)
    ensures ArgsAgree(mn, args, pc)
  {
    if args.a.Some? {
      if mn == Jmp {
        JumpDenoted(args.a.value, pc);
      } else {
        BranchDenoted(mn, args.a.value, pc);
      }
    }
  }

  lemma JumpDenoted(t: int, pc: nat)
    ensures JumpWord(t, pc) == Isa.Encode(Isa.Jump(SignedField(t - pc - 1, 0x1000)))
  {
    SignedFieldAgrees(t - pc - 1, 0x1000);
  }

  lemma BranchDenoted(mn: Mnemonic, t: int, pc: nat)
    requires IsBranch(mn)
    ensures BranchWord(CondCode(mn), t, pc) ==
      Isa.Encode(Isa.Branch(BranchCond(mn), SignedField(t - pc - 1, 0x400)))
  {
    SignedFieldAgrees(t - pc - 1, 0x400);
    assert Isa.CondNumber(BranchCond(mn)) == CondCode(mn);
  }

  lemma MovDenoted(rd: nat, imm: int)
    requires rd < 16
    ensures MovFields(Some(rd), Some(imm), 4) == Ok(Isa.Encode(Isa.MoveImm(rd, imm % 0x100)))
  {
    Words.DivMod(imm % 0x100, 0x10);
  }

  lemma PackedDenoted(mn: Mnemonic, args: Args)
    requires IsPacked(mn)
    ensures PackedMeaning(mn, args).Some? ==> PackedWord(mn, args) == Ok(Isa.Encode(PackedMeaning(mn, args).value))
    ensures PackedMeaning(mn, args).None? ==> PackedWord(mn, args) == Ok(0) || PackedWord(mn, args).Err?
  {
    var f := PackedFields(mn, args);
    PushPopFields(mn, args);
    FieldsDenoted(mn, f.0, f.1, f.2);
  }

  /** PUSH fills only the low field, POP only the high one. */
  lemma PushPopFields(mn: Mnemonic, args: Args)
    requires IsPacked(mn)
    ensures var f := PackedFields(mn, args);
      && (mn == Push ==> f.0 == Some(0) && f.1 == Some(0))
      && (mn == Pop ==> f.1 == Some(0) && f.2 == Some(0))
  {
  }

  /** Packing read fields is encoding the form they fill. */
  lemma FieldsDenoted(mn: Mnemonic, a: Option<int>, b: Option<int>, c: Option<int>)
    requires IsPacked(mn)
    requires mn == Push ==> a == Some(0) && b == Some(0)
    requires mn == Pop ==> b == Some(0) && c == Some(0)
    ensures Regs(a, b, c).Some? ==>
      var (x, y, z) := Regs(a, b, c).value; Fields(a, b, c, TableValue(mn)) == Ok(Isa.Encode(Form(mn, x, y, z)))
    ensures Regs(a, b, c).None? ==> Fields(a, b, c, TableValue(mn)) == Ok(0) || Fields(a, b, c, TableValue(mn)).Err?
  {
    FieldsPack(a, b, c, TableValue(mn));
    if Regs(a, b, c).Some? {
      var (x, y, z) := Regs(a, b, c).value;
      FormPacks(mn, x, y, z);
    }
  }

  /** Each four-nibble form is encoded as its fields packed in order. */
  lemma FormPacks(mn: Mnemonic, x: nat, y: nat, z: nat)
    requires IsPacked(mn) && x < 16 && y < 16 && z < 16
    requires mn == Push ==> x == 0 && y == 0
    requires mn == Pop ==> y == 0 && z == 0
    ensures Isa.Encode(Form(mn, x, y, z)) == Isa.Pack(x, y, z, TableValue(mn))
  {
    TableAgrees(mn);
  }

  /** The shifted-and-OR-ed fields are the instruction table's packing. */
  lemma FieldsPack(a: Option<int>, b: Option<int>, c: Option<int>, op: nat)
    requires op < 16
    ensures Regs(a, b, c).Some? ==>
      var (x, y, z) := Regs(a, b, c).value; Fields(a, b, c, op) == Ok(Isa.Pack(x, y, z, op))
    ensures Regs(a, b, c).None? ==> Fields(a, b, c, op) == Ok(0) || Fields(a, b, c, op).Err?
  {
  }

  /** What the simulators read back from an assembled line is the
      instruction it stands for. */
  lemma AssembledDecodes(parts: seq<string>, pc: nat, syms: map<string, nat>)
    requires Denotes(parts, pc, syms).Some?
    ensures EncodeTokens(parts, pc, syms).Ok?
    ensures Isa.Decode(EncodeTokens(parts, pc, syms).value) == Denotes(parts, pc, syms).value
  {
    EncodesDenoted(parts, pc, syms);
    Isa.DecodeEncode(Denotes(parts, pc, syms).value);
  }

  // ----- fail-soft and label operands -----

  /** A label used as an operand reads as its address. */
  lemma IdentifierValue(name: string, syms: map<string, nat>)
    requires IsIdentifier(name) && name in syms
    ensures GetVal(name, syms) == syms[name]
  {
    assert '#' !in name && ',' !in name by {
      forall i | 0 <= i < |name| ensures name[i] != '#' && name[i] != ',' {
        assert IsWordChar(name[i]);
      }
    }
    RemoveAbsent(name, '#');
    RemoveAbsent(name, ',');
    assert !IsSpace(name[0]) && !IsSpace(name[|name| - 1]) by {
      assert IsWordChar(name[|name| - 1]);
    }
    StripTrimmed(name);
  }

  /** The table's spellings are already upper case. */
  lemma UpperSpelling(mn: Mnemonic)
    ensures Upper(Spelling(mn)) == Spelling(mn)
  {
    var s := Spelling(mn);
    assert forall i | 0 <= i < |s| :: 'A' <= s[i] <= 'Z';
    UpperIdle(s);
  }

  /** `JMP label` and `Jcc label`: the word aims at the label's address,
      whether the label is defined before or after the jump. */
  lemma {:induction false} JumpToLabel(mn: Mnemonic, name: string, pc: nat, syms: map<string, nat>)
    requires mn == Jmp || IsBranch(mn)
    requires IsIdentifier(name) && name in syms
    ensures EncodeTokens([Spelling(mn), name], pc, syms) ==
      Ok(if mn == Jmp then JumpWord(syms[name], pc) else BranchWord(CondCode(mn), syms[name], pc))
  {
    if mn == Jmp {
      JmpToLabel(name, pc, syms);
    } else {
      BranchToLabel(mn, name, pc, syms);
    }
  }

  lemma {:induction false} JmpToLabel(name: string, pc: nat, syms: map<string, nat>)
    requires IsIdentifier(name) && name in syms
    ensures EncodeTokens([Spelling(Jmp), name], pc, syms) == Ok(JumpWord(syms[name], pc))
  {
    var parts := [Spelling(Jmp), name];
    LabelOperand(parts, syms);
    UpperSpelling(Jmp);
    Dispatches(parts, Jmp, pc, syms);
  }

  /** A label as the first operand is read as the label's address. */
  lemma LabelOperand(parts: seq<string>, syms: map<string, nat>)
    requires |parts| == 2 && IsIdentifier(parts[1]) && parts[1] in syms
    ensures Val(Operand(parts, 1), syms) == Some(syms[parts[1]])
  {
    IdentifierValue(parts[1], syms);
  }

  lemma {:induction false} BranchToLabel(mn: Mnemonic, name: string, pc: nat, syms: map<string, nat>)
    requires IsBranch(mn)
    requires IsIdentifier(name) && name in syms
    ensures EncodeTokens([Spelling(mn), name], pc, syms) == Ok(BranchWord(CondCode(mn), syms[name], pc))
  {
    var parts := [Spelling(mn), name];
    LabelOperand(parts, syms);
    UpperSpelling(mn);
    BranchEncodes(parts, mn, pc, syms);
  }

  /** A first token spelling a mnemonic other than HALT, in any case,
      dispatches on that mnemonic. */
  lemma Dispatches(parts: seq<string>, mn: Mnemonic, pc: nat, syms: map<string, nat>)
    requires parts != [] && Upper(parts[0]) == Spelling(mn) && mn != Halt
    ensures EncodeTokens(parts, pc, syms) == EncodeArgs(mn, ReadArgs(mn, parts, syms), pc)
  {
    SpellingFound(mn);
  }

  /** A conditional branch reads one operand, its target. */
  lemma BranchEncodes(parts: seq<string>, mn: Mnemonic, pc: nat, syms: map<string, nat>)
    requires parts != [] && Upper(parts[0]) == Spelling(mn) && IsBranch(mn)
    ensures EncodeTokens(parts, pc, syms) ==
      match Val(Operand(parts, 1), syms)
      case None => Ok(0)
      case Some(t) => Ok(BranchWord(CondCode(mn), t, pc))
  {
    Dispatches(parts, mn, pc, syms);
  }

  /** JGT has no condition code of its own: it assembles exactly as JGE. */
  lemma JgtIsJge(rest: seq<string>, pc: nat, syms: map<string, nat>)
    ensures EncodeTokens(["JGT"] + rest, pc, syms) == EncodeTokens(["JGE"] + rest, pc, syms)
  {
    var gt, ge := ["JGT"] + rest, ["JGE"] + rest;
    UpperSpelling(Jgt);
    UpperSpelling(Jge);
    BranchEncodes(gt, Jgt, pc, syms);
    BranchEncodes(ge, Jge, pc, syms);
    assert Operand(gt, 1) == Operand(ge, 1);
  }

  /** A register form short of an operand raises inside the `try` and
      fails soft: `CMP R1, R2` assembles to 0. */
  lemma MissingOperand(mn: Mnemonic, a: string, b: string, pc: nat, syms: map<string, nat>)
    requires IsPacked(mn) && mn != Push && mn != Pop
    ensures EncodeTokens([Spelling(mn), a, b], pc, syms) == Ok(0)
  {
    var parts := [Spelling(mn), a, b];
    UpperSpelling(mn);
    SpellingFound(mn);
    assert MnemonicOf(Upper(parts[0])) == Some(mn);
    assert Operand(parts, 3) == None;
    var args := ReadArgs(mn, parts, syms);
    assert args.c == None;
    var (x, y, z) := PackedFields(mn, args);
    assert x == None || z == None;
  }

  // ----- one line -----

  /** `encode(line, pc)`: a line opening with a quote is a character
      constant (`'\0'` for zero, else the code of its one character);
      any other line is tokenized with its commas read as spaces. */
  function EncodeLine(line: string, pc: nat, syms: map<string, nat>): (r: Result<nat, Failure>)
  {
    if |line| > 0 && line[0] == '\'' then
      var c := StripChar(line, '\'');
      if c == "\\0" then Ok(0)
      else if |c| == 1 then Ok(c[0] as nat)
      else Err(BadCharLiteral)
    else EncodeTokens(Tokens(Replace(line, ',', ' ')), pc, syms)
  }

  /** A quoted character assembles to its code, `'\0'` to zero, and empty
      quotes are rejected. */
  lemma CharConstants(c: char, pc: nat, syms: map<string, nat>)
    requires c != '\''
    ensures EncodeLine("'" + [c] + "'", pc, syms) == Ok(c as nat)
    ensures EncodeLine("'\\0'", pc, syms) == Ok(0)
    ensures EncodeLine("''", pc, syms) == Err(BadCharLiteral)
  {
    QuotedChar(c);
    QuotedNul();
    QuotedEmpty();
  }

  lemma QuotedChar(c: char)
    requires c != '\''
    ensures StripChar("'" + [c] + "'", '\'') == [c]
  {
    var q := "'" + [c] + "'";
    assert q[1..] == [c] + "'";
    assert ([c] + "'")[..1] == [c];
    assert StripChar([c], '\'') == [c];
    assert StripChar([c] + "'", '\'') == [c];
  }

  lemma QuotedEmpty()
    ensures StripChar("''", '\'') == []
  {
    assert "''"[1..] == "'";
    assert "'"[1..] == [];
  }

  lemma QuotedNul()
    ensures StripChar("'\\0'", '\'') == "\\0"
  {
    var z := "'\\0'";
    assert z[1..] == "\\0'";
    assert "\\0'"[..2] == "\\0";
    assert StripChar("\\0", '\'') == "\\0";
    assert StripChar("\\0'", '\'') == "\\0";
  }
}

/**
  The RISC-O instruction set: the sixteen opcodes selected by the low
  nibble of a word, the bit fields of each instruction form, the
  sign-extended branch offsets, the branch condition table, and an
  abstract instruction type with its encoding and decoding.
 */
module Isa {
  import opened Words
  import opened Results

  /** The word that stops the machine, whatever its low nibble says. */
  const HaltWord: Word := 0xFFFF

  /** The sixteen opcode classes, in the order of their numbers 0x0..0xF. */
  datatype Opcode =
    | OpJmp | OpJcc | OpLdr | OpStr | OpMov | OpAdd | OpAddi | OpSub
    | OpSubi | OpAnd | OpOr | OpShr | OpShl | OpCmp | OpPush | OpPop

  /** The `OP_*` constant of an opcode (bits 3:0 of its words). */
  function OpcodeNumber(o: Opcode): (n: nat)
    ensures n < 16
  {
    match o
    case OpJmp => 0x0
    case OpJcc => 0x1
    case OpLdr => 0x2
    case OpStr => 0x3
    case OpMov => 0x4
    case OpAdd => 0x5
    case OpAddi => 0x6
    case OpSub => 0x7
    case OpSubi => 0x8
    case OpAnd => 0x9
    case OpOr => 0xA
    case OpShr => 0xB
    case OpShl => 0xC
    case OpCmp => 0xD
    case OpPush => 0xE
    case OpPop => 0xF
  }

  /** The opcode whose number is n. */
  function OpcodeFor(n: nat): (o: Opcode)
    requires n < 16
    ensures OpcodeNumber(o) == n
  {
    [OpJmp, OpJcc, OpLdr, OpStr, OpMov, OpAdd, OpAddi, OpSub,
     OpSubi, OpAnd, OpOr, OpShr, OpShl, OpCmp, OpPush, OpPop][n]
  }

  /** Looking an opcode number up in the simulators' dispatch table
      (`operations_map` in Python, the `switch` in C): a miss is the
      "Invalid instruction" fault. Every nibble value has an entry. */
  function OpcodeOf(n: int): (r: Option<Opcode>)
    ensures r.Some? <==> 0 <= n < 16
    ensures r.Some? ==> OpcodeNumber(r.value) == n
  {
    if 0 <= n < 16 then Some(OpcodeFor(n)) else None
  }

  /** Opcode numbers are distinct, so the dispatch table has one entry per opcode. */
  lemma OpcodeNumberInjective(a: Opcode, b: Opcode)
    ensures OpcodeNumber(a) == OpcodeNumber(b) ==> a == b
  {
  }

  // ----- bit fields of an instruction word -----

  /** bits 3:0, `ir & 0x000F` */
  function OpField(w: Word): nat { w % 0x10 }

  /** bits 15:4 with the opcode cleared, `ir & 0xFFF0` */
  function Body(w: Word): Word { w - w % 0x10 }

  /** bits 15:12, `(ibr >> 12) & 0xF`: rd, or the STR immediate */
  function RdField(w: Word): nat { w / 0x1000 }

  /** bits 11:8, `(ibr >> 8) & 0xF`: rm */
  function RmField(w: Word): nat { (w / 0x100) % 0x10 }

  /** bits 7:4, `(ibr >> 4) & 0xF`: rn, or a 4-bit immediate */
  function RnField(w: Word): nat { (w / 0x10) % 0x10 }

  /** bits 11:4, `(ibr >> 4) & 0xFF`: the MOV immediate */
  function Imm8Field(w: Word): nat { (w / 0x10) % 0x100 }

  /** bits 15:14, `(ibr >> 14) & 0x3`: the branch condition */
  function CondField(w: Word): nat { w / 0x4000 }

  /** bits 15:4: the raw JMP offset */
  function Offset12Field(w: Word): nat { w / 0x10 }

  /** bits 13:4: the raw conditional-branch offset */
  function Offset10Field(w: Word): nat { (w / 0x10) % 0x400 }

  /** The JMP offset: bits 15:4 as a signed 12-bit number. */
  function Offset12(w: Word): (off: int)
    ensures -0x800 <= off < 0x800
  {
    SignExtend(Offset12Field(w), 12)
  }

  /** The conditional-branch offset: bits 13:4 as a signed 10-bit number. */
  function Offset10(w: Word): (off: int)
    ensures -0x200 <= off < 0x200
  {
    SignExtend(Offset10Field(w), 10)
  }

  /** Clearing the opcode nibble leaves every other field as it was. */
  lemma BodyKeepsFields(w: Word)
    ensures OpField(Body(w)) == 0
    ensures RdField(Body(w)) == RdField(w) && RmField(Body(w)) == RmField(w)
    ensures RnField(Body(w)) == RnField(w) && Imm8Field(Body(w)) == Imm8Field(w)
    ensures CondField(Body(w)) == CondField(w)
    ensures Offset12(Body(w)) == Offset12(w) && Offset10(Body(w)) == Offset10(w)
  {
    var b := Body(w);
    DivMod(w, 0x10);
    var hi := w / 0x10;
    assert b == hi * 0x10;
    DivUnique(b, 0x10, hi, 0);
    DivUnique(b, 0x100, hi / 0x10, (hi % 0x10) * 0x10);
    DivUnique(w, 0x100, hi / 0x10, (hi % 0x10) * 0x10 + w % 0x10);
    DivUnique(b, 0x1000, hi / 0x100, (hi % 0x100) * 0x10);
    DivUnique(w, 0x1000, hi / 0x100, (hi % 0x100) * 0x10 + w % 0x10);
    DivUnique(b, 0x4000, hi / 0x400, (hi % 0x400) * 0x10);
    DivUnique(w, 0x4000, hi / 0x400, (hi % 0x400) * 0x10 + w % 0x10);
  }

  // ----- branch conditions -----

  /** The four conditions of the opcode-1 family, by their 2-bit code. */
  datatype Cond = Eq | Ne | Lt | Ge

  function CondNumber(c: Cond): (n: nat)
    ensures n < 4
  {
    match c
    case Eq => 0
    case Ne => 1
    case Lt => 2
    case Ge => 3
  }

  function CondFor(n: nat): (c: Cond)
    requires n < 4
    ensures CondNumber(c) == n
  {
    [Eq, Ne, Lt, Ge][n]
  }

  /** Whether a conditional branch is taken, given the flags. */
  predicate Taken(c: Cond, z: Bit, carry: Bit)
  {
    match c
    case Eq => z == 1
    case Ne => z == 0
    case Lt => z == 0 && carry == 1
    case Ge => z == 1 || carry == 0
  }

  // ----- abstract instructions -----

  /** One instruction of each form of the instruction table. Register and
      immediate fields are the raw field values; a CMP carries the bits
      15:12 the assembler fills from its first operand, which the
      simulators ignore. */
  datatype Instr =
    | Jump(offset: int)
    | Branch(cond: Cond, offset: int)
    | Load(rd: nat, rm: nat, imm: nat)
    | Store(rn: nat, rm: nat, imm: nat)
    | MoveImm(rd: nat, imm: nat)
    | RegOp(op: Opcode, rd: nat, rm: nat, rn: nat)
    | ImmOp(op: Opcode, rd: nat, rm: nat, imm: nat)
    | Compare(rd: nat, rm: nat, rn: nat)
    | Push(rn: nat)
    | Pop(rd: nat)
    | Halt

  /** Every field fits its width, offsets fit their signed field, and the
      grouped forms carry an opcode of their group. */
  predicate WellFormed(i: Instr)
  {
    match i
    case Jump(off) => -0x800 <= off < 0x800
    case Branch(_, off) => -0x200 <= off < 0x200
    case Load(rd, rm, imm) => rd < 16 && rm < 16 && imm < 16
    case Store(rn, rm, imm) => rn < 16 && rm < 16 && imm < 16
    case MoveImm(rd, imm) => rd < 16 && imm < 0x100
    case RegOp(op, rd, rm, rn) =>
      op in {OpAdd, OpSub, OpAnd, OpOr} && rd < 16 && rm < 16 && rn < 16
    case ImmOp(op, rd, rm, imm) =>
      op in {OpAddi, OpSubi, OpShr, OpShl} && rd < 16 && rm < 16 && imm < 16
    case Compare(rd, rm, rn) => rd < 16 && rm < 16 && rn < 16
    case Push(rn) => rn < 16
    case Pop(rd) => rd < 16
    case Halt => true
  }

  /** Four nibbles packed into a word, most significant first. The fields
      are disjoint, so this sum is the bitwise OR of the shifted fields. */
  function Pack(a: nat, b: nat, c: nat, d: nat): (w: Word)
    requires a < 16 && b < 16 && c < 16 && d < 16
    ensures RdField(w) == a && RmField(w) == b && RnField(w) == c && OpField(w) == d
    ensures Imm8Field(w) == b * 0x10 + c
  {
    var w := a * 0x1000 + b * 0x100 + c * 0x10 + d;
    DivUnique(w, 0x1000, a, b * 0x100 + c * 0x10 + d);
    DivUnique(w, 0x100, a * 0x10 + b, c * 0x10 + d);
    DivUnique(a * 0x10 + b, 0x10, a, b);
    DivUnique(w, 0x10, a * 0x100 + b * 0x10 + c, d);
    DivUnique(a * 0x100 + b * 0x10 + c, 0x10, a * 0x10 + b, c);
    DivUnique(a * 0x100 + b * 0x10 + c, 0x100, a, b * 0x10 + c);
    w
  }

  /** The word of an instruction, laid out as the instruction table says. */
  function Encode(i: Instr): Word
    requires WellFormed(i)
  {
    match i
    case Jump(off) => (off % 0x1000) * 0x10 + OpcodeNumber(OpJmp)
    case Branch(c, off) => CondNumber(c) * 0x4000 + (off % 0x400) * 0x10 + OpcodeNumber(OpJcc)
    case Load(rd, rm, imm) => Pack(rd, rm, imm, OpcodeNumber(OpLdr))
    case Store(rn, rm, imm) => Pack(imm, rm, rn, OpcodeNumber(OpStr))
    case MoveImm(rd, imm) => Pack(rd, imm / 0x10, imm % 0x10, OpcodeNumber(OpMov))
    case RegOp(op, rd, rm, rn) => Pack(rd, rm, rn, OpcodeNumber(op))
    case ImmOp(op, rd, rm, imm) => Pack(rd, rm, imm, OpcodeNumber(op))
    case Compare(rd, rm, rn) => Pack(rd, rm, rn, OpcodeNumber(OpCmp))
    case Push(rn) => Pack(0, 0, rn, OpcodeNumber(OpPush))
    case Pop(rd) => Pack(rd, 0, 0, OpcodeNumber(OpPop))
    case Halt => HaltWord
  }

  /** How the simulators read a word: HALT first, then by opcode nibble. */
  function Decode(w: Word): Instr
  {
    if w == HaltWord then Halt
    else
      match OpcodeFor(OpField(w))
      case OpJmp => Jump(Offset12(w))
      case OpJcc => Branch(CondFor(CondField(w)), Offset10(w))
      case OpLdr => Load(RdField(w), RmField(w), RnField(w))
      case OpStr => Store(RnField(w), RmField(w), RdField(w))
      case OpMov => MoveImm(RdField(w), Imm8Field(w))
      case OpCmp => Compare(RdField(w), RmField(w), RnField(w))
      case OpPush => Push(RnField(w))
      case OpPop => Pop(RdField(w))
      case op =>
        if op in {OpAdd, OpSub, OpAnd, OpOr} then RegOp(op, RdField(w), RmField(w), RnField(w))
        else ImmOp(op, RdField(w), RmField(w), RnField(w))
  }

  /** Decoding an encoded instruction gives it back, for every form;
      in particular every branch offset that fits its field survives. */
  lemma DecodeEncode(i: Instr)
    requires WellFormed(i)
    ensures Decode(Encode(i)) == i
  {
    match i
    case Jump(off) => DecodeEncodeJump(off);
    case Branch(c, off) => DecodeEncodeBranch(c, off);
    case MoveImm(rd, imm) => DecodeEncodeMove(rd, imm);
    case Halt =>
    case _ => DecodeEncodePacked(i);
  }

  lemma DecodeEncodeMove(rd: nat, imm: nat)
    requires rd < 16 && imm < 0x100
    ensures Decode(Encode(MoveImm(rd, imm))) == MoveImm(rd, imm)
  {
    var w := Encode(MoveImm(rd, imm));
    DivMod(imm, 0x10);
    assert Imm8Field(w) == imm;
    assert OpField(w) == 4;
  }

  lemma DecodeEncodeJump(off: int)
    requires -0x800 <= off < 0x800
    ensures Decode(Encode(Jump(off))) == Jump(off)
  {
    var w := Encode(Jump(off));
    var f := off % 0x1000;
    DivUnique(w, 0x10, f, 0);
    assert OpField(w) == 0 && Offset12Field(w) == f;
    Pow2Table();
    SignExtendTruncate(off, 12);
  }

  lemma DecodeEncodeBranch(c: Cond, off: int)
    requires -0x200 <= off < 0x200
    ensures Decode(Encode(Branch(c, off))) == Branch(c, off)
  {
    var w := Encode(Branch(c, off));
    BranchFields(CondNumber(c), off % 0x400);
    assert OpField(w) == 1 && CondField(w) == CondNumber(c) && Offset10Field(w) == off % 0x400;
    Pow2Table();
    SignExtendTruncate(off, 10);
    assert Offset10(w) == off;
    assert CondFor(CondNumber(c)) == c;
  }

  /** The fields of a branch word built from a condition number and a
      raw offset. */
  lemma BranchFields(cn: nat, f: nat)
    requires cn < 4 && f < 0x400
    ensures var w := cn * 0x4000 + f * 0x10 + 1;
      OpField(w) == 1 && CondField(w) == cn && Offset10Field(w) == f
  {
    var w := cn * 0x4000 + f * 0x10 + 1;
    DivUnique(w, 0x10, cn * 0x400 + f, 1);
    DivUnique(cn * 0x400 + f, 0x400, cn, f);
    DivUnique(w, 0x4000, cn, f * 0x10 + 1);
  }

  lemma DecodeEncodePacked(i: Instr)
    requires WellFormed(i)
    requires !i.Jump? && !i.Branch? && !i.MoveImm? && !i.Halt?
    ensures Decode(Encode(i)) == i
  {
    var w := Encode(i);
    assert w != HaltWord by {
      assert OpField(w) < 15 || RmField(w) == 0;
      assert RmField(HaltWord) == 15;
    }
    if i.RegOp? || i.ImmOp? {
      DecodeEncodeAlu(i);
    } else {
      DecodeEncodeFixed(i);
    }
  }

  /** The register and immediate arithmetic forms. */
  lemma DecodeEncodeAlu(i: Instr)
    requires WellFormed(i) && (i.RegOp? || i.ImmOp?)
    requires Encode(i) != HaltWord
    ensures Decode(Encode(i)) == i
  {
    OpcodeNumberInjective(OpcodeFor(OpField(Encode(i))), i.op);
  }

  /** The forms whose opcode is fixed: LDR, STR, CMP, PUSH and POP. */
  lemma DecodeEncodeFixed(i: Instr)
    requires WellFormed(i) && (i.Load? || i.Store? || i.Compare? || i.Push? || i.Pop?)
    requires Encode(i) != HaltWord
    ensures Decode(Encode(i)) == i
  {
    var o := OpcodeFor(OpField(Encode(i)));
    match i
    case Load(_, _, _) => OpcodeNumberInjective(o, OpLdr);
    case Store(_, _, _) => OpcodeNumberInjective(o, OpStr);
    case Compare(_, _, _) => OpcodeNumberInjective(o, OpCmp);
    case Push(_) => OpcodeNumberInjective(o, OpPush);
    case Pop(_) => OpcodeNumberInjective(o, OpPop);
  }

  // ----- what each opcode class may change -----

  /** The instructions that may stage a program counter other than the
      next address: JMP, the conditional branches, and POP into R15. */
  predicate Redirects(op: Opcode, ibr: Word)
  {
    op == OpJmp || op == OpJcc || (op == OpPop && RdField(ibr) == 15)
  }

  /** The instructions that write the Z and C flags. */
  predicate SetsFlags(op: Opcode)
  {
    op in {OpAdd, OpAddi, OpSub, OpSubi, OpAnd, OpOr, OpShr, OpShl, OpCmp}
  }
}

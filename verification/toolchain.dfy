/**
  The assembler and the two simulators together: the listing the
  assembler prints is the memory image the simulators load (one
  `address word` pair per instruction, addresses 0, 1, 2, ...), and a
  jump or branch the assembler encodes towards a target within reach of
  its offset field makes either simulator continue at that target.
 */
module Toolchain {
  import opened Words
  import opened Results
  import opened Machine
  import Isa
  import Assembler
  import PySim
  import CSim
  import Agreement

  // ----- branch words -----

  /** A JMP word whose target is within 12 signed bits of the next
      address holds exactly that distance as its offset. */
  lemma JumpOffsetExact(target: int, pc: nat)
    requires -0x800 <= target - pc - 1 < 0x800
    ensures var w := Assembler.JumpWord(target, pc);
      w != Isa.HaltWord && Isa.OpField(w) == 0 && Isa.Offset12(w) == target - pc - 1
  {
    var w := Assembler.JumpWord(target, pc);
    Assembler.JumpDenoted(target, pc);
    Assembler.SignedFieldAgrees(target - pc - 1, 0x1000);
    Isa.DecodeEncode(Isa.Jump(target - pc - 1));
    assert Isa.Decode(w) == Isa.Jump(target - pc - 1);
  }

  /** A conditional-branch word whose target is within 10 signed bits of
      the next address holds exactly that distance as its offset, and the
      condition of its mnemonic. */
  lemma BranchOffsetExact(mn: Assembler.Mnemonic, target: int, pc: nat)
    requires Assembler.IsBranch(mn)
    requires -0x200 <= target - pc - 1 < 0x200
    ensures var w := Assembler.BranchWord(Assembler.CondCode(mn), target, pc);
      && w != Isa.HaltWord && Isa.OpField(w) == 1
      && Isa.CondFor(Isa.CondField(w)) == Assembler.BranchCond(mn)
      && Isa.Offset10(w) == target - pc - 1
  {
    var w := Assembler.BranchWord(Assembler.CondCode(mn), target, pc);
    var i := Isa.Branch(Assembler.BranchCond(mn), target - pc - 1);
    Assembler.BranchDenoted(mn, target, pc);
    Assembler.SignedFieldAgrees(target - pc - 1, 0x400);
    Isa.DecodeEncode(i);
    assert Isa.Decode(w) == i;
  }

  // ----- landing -----

  /** An assembled JMP to a target within reach: both simulators run it
      and continue at the target. */
  lemma JumpLands(s: Cpu, bp: set<nat>, target: nat)
    requires s.Valid() && s.regs[PC] < MemSize && target < WordMod
    requires -0x800 <= target - s.regs[PC] - 1 < 0x800
    requires s.mem[s.regs[PC]] == Assembler.JumpWord(target, s.regs[PC])
    ensures PySim.Cycle(s, bp).status == Running && PySim.Cycle(s, bp).state.regs[PC] == target
    ensures CSim.Cycle(s, bp).status == Running && CSim.Cycle(s, bp).state.regs[PC] == target
  {
    var pc, w := s.regs[PC], s.mem[s.regs[PC]];
    JumpOffsetExact(target, pc);
    Isa.BodyKeepsFields(w);
    assert Isa.OpcodeFor(Isa.OpField(w)) == Isa.OpJmp;
    Agreement.PyCycleExecutes(s, bp, Isa.OpJmp);
    Agreement.CCycleExecutes(s, bp, Isa.OpJmp);
  }

  /** An assembled conditional branch to a target within reach: both
      simulators continue at the target when the flags satisfy the
      mnemonic's condition, and at the next address otherwise. */
  lemma BranchLands(s: Cpu, bp: set<nat>, mn: Assembler.Mnemonic, target: nat)
    requires Assembler.IsBranch(mn)
    requires s.Valid() && s.regs[PC] < MemSize && target < WordMod
    requires -0x200 <= target - s.regs[PC] - 1 < 0x200
    requires s.mem[s.regs[PC]] == Assembler.BranchWord(Assembler.CondCode(mn), target, s.regs[PC])
    ensures var next := if Isa.Taken(Assembler.BranchCond(mn), s.z, s.c) then target else s.regs[PC] + 1;
      && PySim.Cycle(s, bp).status == Running && PySim.Cycle(s, bp).state.regs[PC] == next
      && CSim.Cycle(s, bp).status == Running && CSim.Cycle(s, bp).state.regs[PC] == next
  {
    var pc, w := s.regs[PC], s.mem[s.regs[PC]];
    BranchOffsetExact(mn, target, pc);
    Isa.BodyKeepsFields(w);
    assert Isa.OpcodeFor(Isa.OpField(w)) == Isa.OpJcc;
    Agreement.PyCycleExecutes(s, bp, Isa.OpJcc);
    Agreement.CCycleExecutes(s, bp, Isa.OpJcc);
  }

  /** The word 0 a line that fails soft assembles to is a JMP to the next
      address: both simulators step over it. */
  lemma ZeroWordSkips(s: Cpu, bp: set<nat>)
    requires s.Valid() && s.regs[PC] < MemSize && s.mem[s.regs[PC]] == 0
    ensures PySim.Cycle(s, bp).status == Running && PySim.Cycle(s, bp).state.regs[PC] == s.regs[PC] + 1
    ensures CSim.Cycle(s, bp).status == Running && CSim.Cycle(s, bp).state.regs[PC] == s.regs[PC] + 1
  {
    assert Assembler.JumpWord(s.regs[PC] + 1, s.regs[PC]) == 0;
    JumpLands(s, bp, s.regs[PC] + 1);
  }

  // ----- loading the listing -----

  /** The pairs a listing of words stands for: word i at address i. */
  function Image(words: seq<nat>): (image: seq<(nat, nat)>)
    ensures |image| == |words|
    ensures forall i | 0 <= i < |words| :: image[i] == (i, words[i])
  {
    seq(|words|, i requires 0 <= i < |words| => (i, words[i]))
  }

  /** Address a of a listing holds word a, and nothing else is stored. */
  lemma {:induction false} ImageLastStore(words: seq<nat>, a: nat)
    ensures LastStore(Image(words), a) == if a < |words| then Some(words[a]) else None
    decreases |words|
  {
    if words != [] {
      var init := words[..|words| - 1];
      assert Image(words)[..|words| - 1] == Image(init);
      ImageLastStore(init, a);
    }
  }

  /** Only the pair of address 0 can be the terminator (0, 0). */
  lemma ImageLive(words: seq<nat>)
    requires words == [] || words[0] != 0
    ensures Live(Image(words)) == Image(words)
  {
    var image, r := Image(words), Live(Image(words));
    if |r| < |image| {
      assert image[|r|] == (|r|, words[|r|]);
    }
  }

  /** A program that fits memory and does not begin with the word 0 is
      loaded by both simulators with word i at address i and every other
      cell as it was. */
  lemma LoadsProgram(mem: seq<Word>, words: seq<nat>)
    requires |mem| == MemSize && |words| <= MemSize
    requires forall i | 0 <= i < |words| :: words[i] < WordMod
    requires words == [] || words[0] != 0
    ensures PySim.ImageFits(Image(words))
    ensures forall a | 0 <= a < MemSize ::
      PySim.Load(mem, Image(words))[a] == if a < |words| then words[a] else mem[a]
    ensures forall a | 0 <= a < MemSize ::
      CSim.Load(mem, Image(words))[a] == if a < |words| then words[a] else mem[a]
  {
    PyLoads(mem, words);
    CLoads(mem, words);
  }

  lemma PyLoads(mem: seq<Word>, words: seq<nat>)
    requires |mem| == MemSize && |words| <= MemSize
    requires forall i | 0 <= i < |words| :: words[i] < WordMod
    requires words == [] || words[0] != 0
    ensures PySim.ImageFits(Image(words))
    ensures forall a | 0 <= a < MemSize ::
      PySim.Load(mem, Image(words))[a] == if a < |words| then words[a] else mem[a]
  {
    ImageLive(words);
    PySim.LoadContents(mem, Image(words));
    forall a | 0 <= a < MemSize
      ensures PySim.Load(mem, Image(words))[a] == if a < |words| then words[a] else mem[a]
    {
      ImageLastStore(words, a);
    }
  }

  lemma CLoads(mem: seq<Word>, words: seq<nat>)
    requires |mem| == MemSize && |words| <= MemSize
    requires forall i | 0 <= i < |words| :: words[i] < WordMod
    requires words == [] || words[0] != 0
    ensures forall a | 0 <= a < MemSize ::
      CSim.Load(mem, Image(words))[a] == if a < |words| then words[a] else mem[a]
  {
    ImageLive(words);
    CSim.LoadContents(mem, Image(words));
    forall a | 0 <= a < MemSize
      ensures CSim.Load(mem, Image(words))[a] == if a < |words| then words[a] else mem[a]
    {
      ImageLastStore(words, a);
    }
  }

  /** A program whose first word is 0 (a `JMP` to the next address, or
      any line that fails soft) prints `0000 0000` first, which both
      loaders take for the end of the image: nothing is loaded. */
  lemma ZeroFirstWordLoadsNothing(mem: seq<Word>, words: seq<nat>)
    requires |mem| == MemSize && words != [] && words[0] == 0
    ensures Live(Image(words)) == []
    ensures PySim.ImageFits(Image(words))
    ensures PySim.Load(mem, Image(words)) == mem
    ensures CSim.Load(mem, Image(words)) == mem
  {
    assert Image(words)[0] == (0, 0);
  }
}

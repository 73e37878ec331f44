/**
  The processor state both simulators keep (registers, Z and C flags,
  0x2000 words of memory, the staged next program counter and the set of
  data addresses touched so far), the console seen by the memory-mapped
  ports, the state dump taken at breakpoints and on HALT, and the parts
  of start-up the two simulators share.
 */
module Machine {
  import opened Words
  import opened Results

  /** Number of words of backed memory (`RISC_O_MEM_SIZE`). */
  const MemSize: nat := 0x2000

  /** R14 is the stack pointer, R15 the program counter. */
  const SP: nat := 14
  const PC: nat := 15

  /** The initial stack pointer: one past the top of memory. */
  const StackTop: Word := 0x2000

  /** The memory-mapped ports. */
  const CharIn: Word := 0xF000
  const CharOut: Word := 0xF001
  const IntIn: Word := 0xF002
  const IntOut: Word := 0xF003

  /** What the ports print: the echo of a value read ("IN => v"), a
      character written ("OUT <= c") and an integer written ("OUT <= n"). */
  datatype Event = Echo(value: int) | PutChar(code: int) | PutInt(value: int)

  /** The processor state. `input` holds the values the console will still
      supply to the read ports; `output` the events printed so far. */
  datatype Cpu = Cpu(
    regs: seq<Word>,
    z: Bit,
    c: Bit,
    mem: seq<Word>,
    nextPc: Word,
    accessed: set<nat>,
    input: seq<int>,
    output: seq<Event>)
  {
    /** Sixteen registers, a full memory, and only backed addresses recorded. */
    predicate Valid()
    {
      && |regs| == 16
      && |mem| == MemSize
      && forall a <- accessed :: a < MemSize
    }

    function WithReg(r: nat, v: Word): (t: Cpu)
      requires Valid() && r < 16
      ensures t.Valid()
    {
      this.(regs := regs[r := v])
    }
  }

  /** End of cycle: the staged program counter becomes R15. */
  function Commit(s: Cpu): (t: Cpu)
    requires s.Valid()
    ensures t.Valid() && t.regs[PC] == s.nextPc
    ensures t == s.(regs := t.regs)
    ensures forall r | 0 <= r < 16 && r != PC :: t.regs[r] == s.regs[r]
  {
    s.WithReg(PC, s.nextPc)
  }

  /** The state at power-up: everything zero except the stack pointer.
      The staged program counter differs between the two simulators. */
  function Initial(nextPc: Word, input: seq<int>): (s: Cpu)
    ensures s.Valid()
    ensures s.regs[SP] == StackTop
    ensures forall r | 0 <= r < 16 && r != SP :: s.regs[r] == 0
    ensures forall a | 0 <= a < MemSize :: s.mem[a] == 0
    ensures s.z == 0 && s.c == 0 && s.accessed == {} && s.output == []
  {
    Cpu(seq(16, r => if r == SP then StackTop else 0), 0, 0,
        seq(MemSize, _ => 0), nextPc, {}, input, [])
  }

  // ----- state dumps -----

  /** What a dump shows: all registers, both flags, then the listed memory
      cells as (address, word) pairs in the order they are printed. */
  datatype Snapshot = Snapshot(regs: seq<Word>, z: Bit, c: Bit, cells: seq<(nat, Word)>)

  /** The occupied stack cells, printed from 0x1FFF down to the stack
      pointer; nothing when the stack pointer is at or above 0x2000. */
  function StackAddrs(sp: Word): (r: seq<nat>)
    ensures |r| == if sp < MemSize then MemSize - sp else 0
    ensures forall i | 0 <= i < |r| :: r[i] == MemSize - 1 - i
  {
    if sp >= MemSize then [] else Descending(MemSize, sp)
  }

  /** hi-1, hi-2, ..., lo */
  function Descending(hi: nat, lo: nat): (r: seq<nat>)
    requires lo <= hi
    ensures |r| == hi - lo
    ensures forall i | 0 <= i < |r| :: r[i] == hi - 1 - i
    decreases hi - lo
  {
    if lo == hi then [] else [hi - 1] + Descending(hi - 1, lo)
  }

  /** The members of `set` in [lo, hi), in ascending order. */
  function Ascending(set_: set<nat>, lo: nat, hi: nat): (r: seq<nat>)
    ensures forall i, j | 0 <= i < j < |r| :: r[i] < r[j]
    ensures forall a :: a in r <==> a in set_ && lo <= a < hi
    decreases hi - lo
  {
    if lo >= hi then []
    else
      var head := if lo in set_ then [lo] else [];
      var tail := Ascending(set_, lo + 1, hi);
      assert forall j | 0 <= j < |tail| :: lo < tail[j] by {
        forall j | 0 <= j < |tail| ensures lo < tail[j] {
          assert tail[j] in tail;
        }
      }
      head + tail
  }

  /** The data addresses touched so far, in ascending order. */
  function AccessedAddrs(s: Cpu): (r: seq<nat>)
    ensures forall i, j | 0 <= i < j < |r| :: r[i] < r[j]
    ensures forall a :: a in r <==> a in s.accessed && a < MemSize
    ensures forall i | 0 <= i < |r| :: r[i] < MemSize
  {
    var r := Ascending(s.accessed, 0, MemSize);
    assert forall i | 0 <= i < |r| :: r[i] < MemSize by {
      forall i | 0 <= i < |r| ensures r[i] < MemSize {
        assert r[i] in r;
      }
    }
    r
  }

  /** The addresses a dump lists: the stack cells from the top down, then
      every touched address in ascending order. */
  function DumpAddrs(s: Cpu): (r: seq<nat>)
    requires s.Valid()
    ensures r == StackAddrs(s.regs[SP]) + AccessedAddrs(s)
    ensures forall i | 0 <= i < |r| :: r[i] < MemSize
  {
    var stack, touched := StackAddrs(s.regs[SP]), AccessedAddrs(s);
    JoinInMemory(stack, touched);
    stack + touched
  }

  lemma JoinInMemory(a: seq<nat>, b: seq<nat>)
    requires forall i | 0 <= i < |a| :: a[i] < MemSize
    requires forall i | 0 <= i < |b| :: b[i] < MemSize
    ensures forall i | 0 <= i < |a + b| :: (a + b)[i] < MemSize
  {
    forall i | 0 <= i < |a + b|
      ensures (a + b)[i] < MemSize
    {
      if i >= |a| {
        assert (a + b)[i] == b[i - |a|];
      }
    }
  }

  /** Each listed address with the word memory holds there. */
  function Cells(mem: seq<Word>, addrs: seq<nat>): (r: seq<(nat, Word)>)
    requires forall i | 0 <= i < |addrs| :: addrs[i] < |mem|
    ensures |r| == |addrs|
    ensures forall i | 0 <= i < |r| :: r[i] == (addrs[i], mem[addrs[i]])
  {
    seq(|addrs|, i requires 0 <= i < |addrs| => (addrs[i], mem[addrs[i]]))
  }

  /** The dump of a state: registers, flags and the listed cells. */
  function Snap(s: Cpu): (d: Snapshot)
    requires s.Valid()
    ensures d.regs == s.regs && d.z == s.z && d.c == s.c
    ensures var addrs := DumpAddrs(s);
      |d.cells| == |addrs| && forall i | 0 <= i < |d.cells| :: d.cells[i] == (addrs[i], s.mem[addrs[i]])
  {
    Snapshot(s.regs, s.z, s.c, Cells(s.mem, DumpAddrs(s)))
  }

  // ----- image loading -----

  /** The memory image before its terminator: loading stops at the first
      pair (0, 0), which is not itself stored. */
  function Live(image: seq<(nat, nat)>): (r: seq<(nat, nat)>)
    ensures |r| <= |image| && r == image[..|r|]
    ensures forall i | 0 <= i < |r| :: r[i] != (0, 0)
    ensures |r| < |image| ==> image[|r|] == (0, 0)
  {
    if image == [] || image[0] == (0, 0) then [] else [image[0]] + Live(image[1..])
  }

  /** The data of the last pair of `image` stored at address a, if any. */
  function LastStore(image: seq<(nat, nat)>, a: nat): Option<nat>
  {
    if image == [] then None
    else if image[|image| - 1].0 == a then Some(image[|image| - 1].1)
    else LastStore(image[..|image| - 1], a)
  }

  /** Storing a pair before the others: a later store to the same address
      still wins, otherwise the new pair decides. */
  lemma {:induction false} LastStoreCons(p: (nat, nat), rest: seq<(nat, nat)>, a: nat)
    ensures LastStore([p] + rest, a) ==
      if LastStore(rest, a).Some? then LastStore(rest, a)
      else if p.0 == a then Some(p.1) else None
    decreases |rest|
  {
    var all := [p] + rest;
    if rest == [] {
      assert all == [p];
    } else {
      var last := rest[|rest| - 1];
      assert all[|all| - 1] == last;
      assert all[..|all| - 1] == [p] + rest[..|rest| - 1];
      if last.0 != a {
        LastStoreCons(p, rest[..|rest| - 1], a);
      }
    }
  }

  // ----- running -----

  /** How a cycle or a run ended. `Running` means the machine may go on;
      `OutsideModel` marks a Python list access the model does not cover;
      `StackBelowZero` marks a Python PUSH at SP 0, which stores through
      index -1 and leaves SP at -1, a value no register word can hold. */
  datatype Status =
    | Running
    | Halted
    | PcOutOfBounds(pc: Word)
    | InvalidInstruction(ibr: Word)
    | OutsideModel
    | StackBelowZero

  /** One cycle: the new state, how it ended, and the dump it printed. */
  datatype Step = Step(state: Cpu, status: Status, dump: Option<Snapshot>)

  /** A run: the final state, why it stopped, and every dump in order. */
  datatype Trace = Trace(state: Cpu, status: Status, dumps: seq<Snapshot>)

  function DumpList(d: Option<Snapshot>): seq<Snapshot>
  {
    if d.Some? then [d.value] else []
  }

  /** The bookkeeping step of running a and then b more cycles: the run
      ra of a cycles is the dumps d of a first cycle followed by r1, the run
      rn of a + b cycles is d followed by rn1, and rn1 is r1 when r1 stopped
      and r1 followed by q when it did not. */
  lemma TraceGlue(ra: Trace, rn: Trace, r1: Trace, rn1: Trace, q: Trace, d: seq<Snapshot>)
    requires ra == Trace(r1.state, r1.status, d + r1.dumps)
    requires rn == Trace(rn1.state, rn1.status, d + rn1.dumps)
    requires r1.status != Running ==> rn1 == r1
    requires r1.status == Running ==> rn1 == Trace(q.state, q.status, r1.dumps + q.dumps)
    ensures ra.status != Running ==> rn == ra
    ensures ra.status == Running ==> rn == Trace(q.state, q.status, ra.dumps + q.dumps)
  {
    if r1.status == Running {
      DumpsAssociate(d, r1.dumps, q.dumps);
    }
  }

  /** Dumps printed in three stretches, grouped either way. */
  lemma DumpsAssociate(d: seq<Snapshot>, x: seq<Snapshot>, y: seq<Snapshot>)
    ensures d + (x + y) == (d + x) + y
    ensures [] + y == y
  {
  }
}

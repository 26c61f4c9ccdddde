/** Classic BPF programs: the validator a filter must pass before it is attached, the
    machine that runs it afterwards, and what passing guarantees about every run. */
module SockFilter {
  import opened Words
  import opened Bits

  /** struct sock_filter. */
  datatype Insn = Insn(code: u16, jt: u8, jf: u8, k: u32)

  const BPF_MEMWORDS := 16

  const BPF_LD := 0
  const BPF_LDX := 1
  const BPF_ST := 2
  const BPF_STX := 3
  const BPF_ALU := 4
  const BPF_JMP := 5
  const BPF_RET := 6

  const BPF_W := 0x00
  const BPF_H := 0x08
  const BPF_B := 0x10

  const BPF_IMM := 0x00
  const BPF_ABS := 0x20
  const BPF_IND := 0x40
  const BPF_MEM := 0x60
  const BPF_LEN := 0x80
  const BPF_MSH := 0xa0

  const BPF_ADD := 0x00
  const BPF_SUB := 0x10
  const BPF_MUL := 0x20
  const BPF_DIV := 0x30
  const BPF_OR := 0x40
  const BPF_AND := 0x50
  const BPF_LSH := 0x60
  const BPF_RSH := 0x70
  const BPF_NEG := 0x80

  const BPF_JA := 0x00
  const BPF_JEQ := 0x10
  const BPF_JGT := 0x20
  const BPF_JGE := 0x30
  const BPF_JSET := 0x40

  const BPF_K := 0x00
  const BPF_A := 0x10

  const BPF_TAX := 0x00
  const BPF_TXA := 0x80

  /** code & 0x07, 0x18, 0xe0, 0xf0, 0x08, 0x18 and 0xf8. */
  function Class(code: u16): int { code % 0x08 }
  function Size(code: u16): int { code / 0x08 % 0x04 * 0x08 }
  function Mode(code: u16): int { code / 0x20 % 0x08 * 0x20 }
  function Op(code: u16): int { code / 0x10 % 0x10 * 0x10 }
  function Src(code: u16): int { code / 0x08 % 0x02 * 0x08 }
  function Rval(code: u16): int { code / 0x08 % 0x04 * 0x08 }
  function MiscOp(code: u16): int { code / 0x08 % 0x20 * 0x08 }

  /** The masks of <linux/filter.h>. */
  lemma FieldsAreMasks(code: u16)
    ensures Class(code) == And(code, 0x07) && Size(code) == And(code, 0x18) && Mode(code) == And(code, 0xe0)
    ensures Op(code) == And(code, 0xf0) && Src(code) == And(code, 0x08) && Rval(code) == And(code, 0x18)
    ensures MiscOp(code) == And(code, 0xf8)
  {
    hide And;
    LowThreeBits(code);
    LowTwoBits(code / 0x08);
    LowThreeBits(code / 0x20);
    LowFourBits(code / 0x10);
    LowBit(code / 0x08);
    LowFiveBits(code / 0x08);
    ShiftedByThree(code, 0x03);
    ShiftedByFive(code, 0x07);
    ShiftedByFour(code, 0x0f);
    ShiftedByThree(code, 0x01);
    ShiftedByThree(code, 0x1f);
  }

  type Program = p: seq<Insn> | |p| < U16

  // ---------------------------------------------------------------- the validator

  /** Sums of instruction numbers and offsets are taken in 32 bits. */
  function Target(i: nat, offset: u32): u32 {
    (i + 1 + offset) % U32
  }

  predicate MemoryOk(insn: Insn) {
    insn.k < BPF_MEMWORDS
  }

  predicate InsnOk(prog: Program, i: nat)
    requires i < |prog|
  {
    var insn := prog[i];
    var kind, mode, op := Class(insn.code), Mode(insn.code), Op(insn.code);
    if kind == BPF_LD || kind == BPF_LDX then
      mode in {BPF_IMM, BPF_ABS, BPF_IND, BPF_MSH, BPF_LEN} || (mode == BPF_MEM && MemoryOk(insn))
    else if kind == BPF_ST || kind == BPF_STX then
      MemoryOk(insn)
    else if kind == BPF_ALU then
      || op in {BPF_ADD, BPF_SUB, BPF_MUL, BPF_OR, BPF_AND, BPF_LSH, BPF_RSH, BPF_NEG}
      || (op == BPF_DIV && !(Rval(insn.code) == BPF_K && insn.k == 0))
    else if kind == BPF_JMP then
      || (op == BPF_JA && Target(i, insn.k) < |prog|)
      || (op in {BPF_JEQ, BPF_JGT, BPF_JGE, BPF_JSET} && Target(i, insn.jt) < |prog| && Target(i, insn.jf) < |prog|)
    else
      true
  }

  predicate Accepts(prog: Program) {
    && 1 <= |prog|
    && (forall i :: 0 <= i < |prog| ==> InsnOk(prog, i))
    && Class(prog[|prog| - 1].code) == BPF_RET
  }

  /** The body of the validator's loop. */
  method CheckInsn(bpf: Program, i: nat) returns (ok: bool)
    requires i < |bpf|
    ensures ok <==>
            && Known(bpf[i].code)
            && (UsesScratch(bpf[i]) ==> bpf[i].k < BPF_MEMWORDS)
            && (forall t :: t in JumpTargets(i, bpf[i]) ==> t < |bpf|)
  {
    PassesExactly(bpf, i);
    hide Known, UsesScratch, JumpTargets;
    var p := bpf[i];
    var kind := Class(p.code);
    if kind == BPF_LD || kind == BPF_LDX {
      var mode := Mode(p.code);
      if mode == BPF_IMM || mode == BPF_ABS || mode == BPF_IND || mode == BPF_MSH {
        return true;
      } else if mode == BPF_MEM {
        return p.k < BPF_MEMWORDS;
      } else {
        return mode == BPF_LEN;
      }
    } else if kind == BPF_ST || kind == BPF_STX {
      return p.k < BPF_MEMWORDS;
    } else if kind == BPF_ALU {
      var op := Op(p.code);
      if op == BPF_DIV {
        return !(Rval(p.code) == BPF_K && p.k == 0);
      }
      return op in {BPF_ADD, BPF_SUB, BPF_MUL, BPF_OR, BPF_AND, BPF_LSH, BPF_RSH, BPF_NEG};
    } else if kind == BPF_JMP {
      var from := i + 1;
      var op := Op(p.code);
      if op == BPF_JA {
        return (from + p.k) % U32 < |bpf|;
      } else if op == BPF_JEQ || op == BPF_JGT || op == BPF_JGE || op == BPF_JSET {
        return (from + p.jt) % U32 < |bpf| && (from + p.jf) % U32 < |bpf|;
      }
      return false;
    }
    return true;
  }

  /** ldab_sock_filter_is_valid. */
  method IsValid(bpf: Program) returns (ok: bool)
    ensures ok <==> Accepts(bpf)
    ensures ok <==>
            && bpf != [] && And(bpf[|bpf| - 1].code, 0x07) == 6
            && forall i :: 0 <= i < |bpf| ==> Admissible(bpf, i)
  {
    AcceptsByNumbers(bpf);
    hide InsnOk, Known, UsesScratch, JumpTargets, Admissible, And;
    if |bpf| < 1 {
      return false;
    }
    for i := 0 to |bpf|
      invariant forall j :: 0 <= j < i ==> InsnOk(bpf, j)
    {
      PassesExactly(bpf, i);
      ok := CheckInsn(bpf, i);
      if !ok {
        return false;
      }
    }
    ok := Class(bpf[|bpf| - 1].code) == BPF_RET;
  }

  /** Instruction i may stand in the program, by the numbers: loads (classes 0 and 1) with one
      of five modes or from one of 16 scratch words, stores (2 and 3) to one of these, nine
      operations (4), jumps (5) to a place in the program, always or on one of four
      conditions, returns (6) and register moves (7) in any case. */
  predicate Admissible(prog: Program, i: nat)
    requires i < |prog|
  {
    var code, jt, jf, k := prog[i].code, prog[i].jt, prog[i].jf, prog[i].k;
    var kind, mode, op := And(code, 0x07), And(code, 0xe0), And(code, 0xf0);
    && (kind == 0 || kind == 1 ==> mode in {0x00, 0x20, 0x40, 0x80, 0xa0} || (mode == 0x60 && k < 16))
    && (kind == 2 || kind == 3 ==> k < 16)
    && (kind == 4 ==> op in {0x00, 0x10, 0x20, 0x30, 0x40, 0x50, 0x60, 0x70, 0x80})
    && (kind == 5 ==>
          || (op == 0x00 && (i + 1 + k) % 0x1_0000_0000 < |prog|)
          || (op in {0x10, 0x20, 0x30, 0x40} && i + 1 + jt < |prog| && i + 1 + jf < |prog|))
  }

  /** The validator passes exactly the admissible instructions. */
  lemma PassesByNumbers(prog: Program, i: nat)
    requires i < |prog|
    ensures InsnOk(prog, i) <==> Admissible(prog, i)
  {
    var code := prog[i].code;
    FieldsAreMasks(code);
    if Class(code) == BPF_ALU && Op(code) == BPF_DIV {
      DivisionTestIsDead(code);
    }
    TargetsByNumbers(i, prog[i]);
    assert Class(code) < 8;
    hide And, Class, Mode, Op, Rval, Src, Size, MiscOp, Target;
  }

  /** Conditional jumps are too short to wrap around. */
  lemma TargetsByNumbers(i: nat, insn: Insn)
    requires i < U16
    ensures Target(i, insn.k) == (i + 1 + insn.k) % 0x1_0000_0000
    ensures Target(i, insn.jt) == i + 1 + insn.jt && Target(i, insn.jf) == i + 1 + insn.jf
  {
  }

  lemma AcceptsByNumbers(prog: Program)
    ensures Accepts(prog) <==>
            && prog != [] && And(prog[|prog| - 1].code, 0x07) == 6
            && forall i :: 0 <= i < |prog| ==> Admissible(prog, i)
  {
    hide InsnOk, Admissible, And;
    forall i | 0 <= i < |prog|
      ensures InsnOk(prog, i) <==> Admissible(prog, i)
    {
      PassesByNumbers(prog, i);
    }
    if prog != [] {
      FieldsAreMasks(prog[|prog| - 1].code);
    }
  }

  // ---------------------------------------------------------------- the machine

  datatype RawMachine = Machine(pc: u32, a: u32, x: u32, mem: seq<u32>)
  type Machine = m: RawMachine | |m.mem| == BPF_MEMWORDS
    witness RawMachine.Machine(0, 0, 0, [0, 0, 0, 0, 0, 0, 0, 0, 0, 0, 0, 0, 0, 0, 0, 0])

  datatype Fault = OutsideProgram | OutsideScratch | ZeroDivisor

  /** A run halts when the filter returns, when it reads past the packet, when it divides
      by a zero X, or at an opcode the machine does not know. */
  datatype Outcome = Running(m: Machine) | Halted(value: u32) | Failed(fault: Fault)

  function Goto(m: Machine, pc: u32): Outcome {
    Running(m.(pc := pc))
  }

  function Jump(m: Machine, offset: u32): Outcome {
    Goto(m, Target(m.pc, offset))
  }

  function SetA(m: Machine, a: u32): Outcome {
    Jump(m.(a := a), 0)
  }

  function SetX(m: Machine, x: u32): Outcome {
    Jump(m.(x := x), 0)
  }

  function LoadA(m: Machine, size: int, packet: seq<byte>, at: nat): Outcome {
    if size == BPF_W && at + 4 <= |packet| then SetA(m, Decode32(Reversed(packet[at..at + 4])))
    else if size == BPF_H && at + 2 <= |packet| then SetA(m, Decode16(Reversed(packet[at..at + 2])))
    else if size == BPF_B && at < |packet| then SetA(m, packet[at])
    else Halted(0)
  }

  function Load(m: Machine, insn: Insn, packet: seq<byte>): Outcome {
    var mode := Mode(insn.code);
    if mode == BPF_IMM then SetA(m, insn.k)
    else if mode == BPF_ABS then LoadA(m, Size(insn.code), packet, insn.k)
    else if mode == BPF_IND then LoadA(m, Size(insn.code), packet, m.x + insn.k)
    else if mode == BPF_LEN then SetA(m, |packet| % U32)
    else if mode == BPF_MEM then
      if insn.k < BPF_MEMWORDS then SetA(m, m.mem[insn.k]) else Failed(OutsideScratch)
    else Halted(0)
  }

  function LoadX(m: Machine, insn: Insn, packet: seq<byte>): Outcome {
    var mode := Mode(insn.code);
    if mode == BPF_IMM then SetX(m, insn.k)
    else if mode == BPF_MSH && insn.k < |packet| then SetX(m, packet[insn.k] % 0x10 * 4)
    else if mode == BPF_LEN then SetX(m, |packet| % U32)
    else if mode == BPF_MEM then
      if insn.k < BPF_MEMWORDS then SetX(m, m.mem[insn.k]) else Failed(OutsideScratch)
    else Halted(0)
  }

  function Store(m: Machine, insn: Insn, value: u32): Outcome {
    if insn.k < BPF_MEMWORDS then Jump(m.(mem := m.mem[insn.k := value]), 0) else Failed(OutsideScratch)
  }

  function Arithmetic(op: int, a: nat, v: nat): int
    requires op == BPF_DIV ==> v != 0
  {
    if op == BPF_ADD then a + v
    else if op == BPF_SUB then a - v
    else if op == BPF_MUL then a * v
    else if op == BPF_DIV then a / v
    else if op == BPF_OR then Or(a, v)
    else if op == BPF_AND then And(a, v)
    else if op == BPF_LSH then (if v < 32 then a * Pow2(v) else 0)
    else if op == BPF_RSH then (if v < 32 then a / Pow2(v) else 0)
    else 0 - a
  }

  function Alu(m: Machine, insn: Insn): Outcome {
    var op := Op(insn.code);
    var constant := Src(insn.code) == BPF_K;
    var v := if constant then insn.k else m.x;
    if BPF_NEG < op then Halted(0)
    else if op == BPF_DIV && v == 0 then (if constant then Failed(ZeroDivisor) else Halted(0))
    else SetA(m, Arithmetic(op, m.a, v) % U32)
  }

  function Branch(m: Machine, insn: Insn): Outcome {
    var op := Op(insn.code);
    var v := if Src(insn.code) == BPF_K then insn.k else m.x;
    if op == BPF_JA then Jump(m, insn.k)
    else if op == BPF_JEQ then Jump(m, if m.a == v then insn.jt else insn.jf)
    else if op == BPF_JGT then Jump(m, if m.a > v then insn.jt else insn.jf)
    else if op == BPF_JGE then Jump(m, if m.a >= v then insn.jt else insn.jf)
    else if op == BPF_JSET then Jump(m, if And(m.a, v) != 0 then insn.jt else insn.jf)
    else Halted(0)
  }

  function Execute(insn: Insn, packet: seq<byte>, m: Machine): Outcome {
    var kind := Class(insn.code);
    if kind == BPF_LD then Load(m, insn, packet)
    else if kind == BPF_LDX then LoadX(m, insn, packet)
    else if kind == BPF_ST then Store(m, insn, m.a)
    else if kind == BPF_STX then Store(m, insn, m.x)
    else if kind == BPF_ALU then Alu(m, insn)
    else if kind == BPF_JMP then Branch(m, insn)
    else if kind == BPF_RET then Halted(if Rval(insn.code) == BPF_A then m.a else insn.k)
    else if MiscOp(insn.code) == BPF_TAX then SetX(m, m.a)
    else if MiscOp(insn.code) == BPF_TXA then SetA(m, m.x)
    else Halted(0)
  }

  function Step(prog: Program, packet: seq<byte>, m: Machine): Outcome {
    if |prog| <= m.pc then Failed(OutsideProgram) else Execute(prog[m.pc], packet, m)
  }

  function Run(prog: Program, packet: seq<byte>, m: Machine, steps: nat): Outcome
    decreases steps
  {
    if steps == 0 then Running(m)
    else
      match Step(prog, packet, m)
      case Running(m') => Run(prog, packet, m', steps - 1)
      case done => done
  }

  // ---------------------------------------------------------------- what acceptance means

  /** The instruction divides by the constant zero. */
  predicate DividesByZero(insn: Insn) {
    Class(insn.code) == BPF_ALU && Op(insn.code) == BPF_DIV && Src(insn.code) == BPF_K && insn.k == 0
  }

  /** An unconditional jump whose 32-bit sum overflows. */
  predicate Wraps(prog: Program, i: nat)
    requires i < |prog|
  {
    Class(prog[i].code) == BPF_JMP && Op(prog[i].code) == BPF_JA && i + 1 + prog[i].k >= U32
  }

  /** The instruction accesses scratch memory at k. */
  predicate UsesScratch(insn: Insn) {
    var kind := Class(insn.code);
    kind == BPF_ST || kind == BPF_STX || ((kind == BPF_LD || kind == BPF_LDX) && Mode(insn.code) == BPF_MEM)
  }

  lemma LoadAStep(m: Machine, size: int, packet: seq<byte>, at: nat)
    ensures var o := LoadA(m, size, packet, at); o.Halted? || (o.Running? && o.m.pc == Target(m.pc, 0))
  {
    hide Decode32, Decode16, Reversed;
  }

  /** An instruction other than a jump falls through, halts or fails, and when it fails. */
  lemma NonJump(insn: Insn, packet: seq<byte>, m: Machine)
    requires Class(insn.code) != BPF_JMP
    ensures var o := Execute(insn, packet, m);
            && (o.Running? ==> o.m.pc == Target(m.pc, 0))
            && (o == Failed(ZeroDivisor) <==> DividesByZero(insn))
            && (o == Failed(OutsideScratch) <==> UsesScratch(insn) && insn.k >= BPF_MEMWORDS)
            && o != Failed(OutsideProgram)
  {
    hide Arithmetic, LoadA, Mode, Op, Src, Size, Rval, MiscOp;
    LoadAStep(m, Size(insn.code), packet, insn.k);
    LoadAStep(m, Size(insn.code), packet, m.x + insn.k);
    if Class(insn.code) == BPF_ALU {
      assert Execute(insn, packet, m) == Alu(m, insn);
    }
  }

  /** Opcodes the validator knows. */
  predicate Known(code: u16) {
    var kind := Class(code);
    && (kind == BPF_LD || kind == BPF_LDX ==> Mode(code) <= BPF_MSH)
    && (kind == BPF_ALU ==> Op(code) <= BPF_NEG)
    && (kind == BPF_JMP ==> Op(code) <= BPF_JSET)
  }

  /** Where control can go after a jump. */
  function JumpTargets(i: nat, insn: Insn): set<u32> {
    if Class(insn.code) != BPF_JMP then {}
    else if Op(insn.code) == BPF_JA then {Target(i, insn.k)}
    else {Target(i, insn.jt), Target(i, insn.jf)}
  }

  /** An instruction passes exactly when its opcode is known, its scratch index, if it has
      one, is in range, and its jump targets, if it has any, lie in the program. What it
      divides by plays no part. */
  lemma PassesExactly(prog: Program, i: nat)
    requires i < |prog|
    ensures InsnOk(prog, i) <==>
            && Known(prog[i].code)
            && (UsesScratch(prog[i]) ==> prog[i].k < BPF_MEMWORDS)
            && (forall t :: t in JumpTargets(i, prog[i]) ==> t < |prog|)
  {
    var insn := prog[i];
    MasksAreSpaced(insn.code);
    if Class(insn.code) == BPF_ALU && Op(insn.code) == BPF_DIV {
      DivisionTestIsDead(insn.code);
    }
    hide Class, Mode, Op, Rval, Target;
    if Class(insn.code) == BPF_JMP {
      if Op(insn.code) == BPF_JA {
        assert Target(i, insn.k) in JumpTargets(i, insn);
      } else {
        assert Target(i, insn.jt) in JumpTargets(i, insn) && Target(i, insn.jf) in JumpTargets(i, insn);
      }
    }
  }

  lemma MasksAreSpaced(code: u16)
    ensures Mode(code) in {0x00, 0x20, 0x40, 0x60, 0x80, 0xa0, 0xc0, 0xe0}
    ensures Op(code) % 0x10 == 0 && 0 <= Op(code) <= 0xf0 && 0 <= Class(code) <= 7
  {
  }

  /** What one instruction of an accepted program can do: it goes on inside the program,
      forward unless it is a wrapping jump, or it halts, and it fails only by dividing by a
      constant zero. */
  lemma SafeStep(prog: Program, packet: seq<byte>, m: Machine)
    requires Accepts(prog) && m.pc < |prog|
    ensures var o := Step(prog, packet, m);
            && (o.Running? ==> o.m.pc < |prog|)
            && (o.Running? && !Wraps(prog, m.pc) ==> m.pc < o.m.pc)
            && (o.Failed? <==> DividesByZero(prog[m.pc]))
            && (o.Failed? ==> o.fault.ZeroDivisor?)
  {
    assert InsnOk(prog, m.pc);
    if Class(prog[m.pc].code) == BPF_JMP {
      SafeJump(prog, packet, m);
    } else {
      assert Class(prog[m.pc].code) == BPF_RET || m.pc + 1 < |prog|;
      hide Accepts;
      SafeNonJump(prog, packet, m);
    }
  }

  lemma SafeNonJump(prog: Program, packet: seq<byte>, m: Machine)
    requires m.pc < |prog| && InsnOk(prog, m.pc) && Class(prog[m.pc].code) != BPF_JMP
    requires Class(prog[m.pc].code) == BPF_RET || m.pc + 1 < |prog|
    ensures var o := Step(prog, packet, m);
            && (o.Running? ==> m.pc < o.m.pc < |prog|)
            && (o.Failed? <==> DividesByZero(prog[m.pc]))
            && (o.Failed? ==> o.fault.ZeroDivisor?)
  {
    var insn := prog[m.pc];
    PassesExactly(prog, m.pc);
    NonJump(insn, packet, m);
    if Class(insn.code) == BPF_RET {
      Returns(insn, packet, m);
    }
    hide InsnOk, Execute, UsesScratch, DividesByZero, Known, JumpTargets, Class;
  }

  lemma SafeJump(prog: Program, packet: seq<byte>, m: Machine)
    requires m.pc < |prog| && InsnOk(prog, m.pc) && Class(prog[m.pc].code) == BPF_JMP
    ensures var o := Step(prog, packet, m);
            && o.Running? && o.m.pc < |prog|
            && (!Wraps(prog, m.pc) ==> m.pc < o.m.pc)
            && !DividesByZero(prog[m.pc])
  {
    var insn := prog[m.pc];
    BranchesTo(m, insn);
    TargetIsForward(m.pc, insn.k);
    TargetIsForward(m.pc, insn.jt);
    TargetIsForward(m.pc, insn.jf);
    hide Op, Src, Branch, Target;
    assert Step(prog, packet, m) == Branch(m, insn);
  }

  lemma TargetIsForward(i: nat, offset: u32)
    ensures i + 1 + offset < U32 ==> i < Target(i, offset)
  {
  }

  lemma BranchesTo(m: Machine, insn: Insn)
    ensures Op(insn.code) == BPF_JA ==> Branch(m, insn) == Jump(m, insn.k)
    ensures Op(insn.code) in {BPF_JEQ, BPF_JGT, BPF_JGE, BPF_JSET} ==>
              Branch(m, insn) == Jump(m, insn.jt) || Branch(m, insn) == Jump(m, insn.jf)
  {
    hide Op, Src, And, Target;
  }

  lemma Returns(insn: Insn, packet: seq<byte>, m: Machine)
    requires Class(insn.code) == BPF_RET
    ensures Execute(insn, packet, m).Halted?
  {
  }

  /** Run safety: from any state inside an accepted program, on any packet and for any
      number of steps, control stays inside the program and scratch accesses stay inside
      the scratch memory; the one failure left is a division by a constant zero. */
  lemma {:induction false} RunsAreSafe(prog: Program, packet: seq<byte>, m: Machine, steps: nat)
    requires Accepts(prog) && m.pc < |prog|
    ensures var o := Run(prog, packet, m, steps);
            && (o.Running? ==> o.m.pc < |prog|)
            && (o.Failed? ==> o.fault.ZeroDivisor? && exists i :: 0 <= i < |prog| && DividesByZero(prog[i]))
    decreases steps
  {
    hide Accepts, Step, DividesByZero;
    if steps != 0 {
      SafeStep(prog, packet, m);
      var o := Step(prog, packet, m);
      if o.Running? {
        RunsAreSafe(prog, packet, o.m, steps - 1);
      } else if o.Failed? {
        assert DividesByZero(prog[m.pc]);
      }
    }
  }

  /** Termination: a run of an accepted program without a wrapping jump comes to its end,
      from any of its instructions, in no more steps than there are instructions left. */
  lemma {:induction false} RunsEnd(prog: Program, packet: seq<byte>, m: Machine, steps: nat)
    requires Accepts(prog) && m.pc < |prog| && |prog| - m.pc <= steps
    requires forall i :: 0 <= i < |prog| ==> !Wraps(prog, i)
    ensures !Run(prog, packet, m, steps).Running?
    decreases steps
  {
    hide Accepts, Step, DividesByZero, Wraps;
    SafeStep(prog, packet, m);
    var o := Step(prog, packet, m);
    if o.Running? {
      RunsEnd(prog, packet, o.m, steps - 1);
    }
  }

  /** ... and without a division by a constant zero that end is a halt. */
  lemma RunsHalt(prog: Program, packet: seq<byte>, m: Machine, steps: nat)
    requires Accepts(prog) && m.pc < |prog| && |prog| - m.pc <= steps
    requires forall i :: 0 <= i < |prog| ==> !Wraps(prog, i) && !DividesByZero(prog[i])
    ensures Run(prog, packet, m, steps).Halted?
  {
    hide Accepts, Run, DividesByZero, Wraps;
    RunsEnd(prog, packet, m, steps);
    RunsAreSafe(prog, packet, m, steps);
  }

  // ------------------------------------------------- runs from the first instruction

  /** Where control can go from an instruction. */
  function Successors(i: nat, insn: Insn): set<u32> {
    if Class(insn.code) == BPF_RET then {}
    else if Class(insn.code) == BPF_JMP then JumpTargets(i, insn)
    else {Target(i, 0)}
  }

  /** A way through the program from its first instruction. */
  ghost predicate Path(prog: Program, p: seq<nat>) {
    && p != [] && p[0] == 0
    && forall k :: 0 <= k < |p| - 1 ==> p[k] < |prog| && p[k + 1] in Successors(p[k], prog[p[k]])
  }

  ghost predicate Reachable(prog: Program, i: nat) {
    exists p: seq<nat> :: Path(prog, p) && p[|p| - 1] == i
  }

  lemma FirstIsReachable(prog: Program)
    ensures Reachable(prog, 0)
  {
    var p: seq<nat> := [0];
    assert Path(prog, p) && p[|p| - 1] == 0;
  }

  lemma SuccessorIsReachable(prog: Program, i: nat, j: nat)
    requires i < |prog| && Reachable(prog, i) && j in Successors(i, prog[i])
    ensures Reachable(prog, j)
  {
    hide Successors;
    var p: seq<nat> :| Path(prog, p) && p[|p| - 1] == i;
    var q := p + [j];
    forall k | 0 <= k < |q| - 1
      ensures q[k] < |prog| && q[k + 1] in Successors(q[k], prog[q[k]])
    {
      assert k < |p| - 1 ==> q[k] == p[k] && q[k + 1] == p[k + 1];
    }
    assert Path(prog, q) && q[|q| - 1] == j;
  }

  lemma StepsToSuccessor(prog: Program, packet: seq<byte>, m: Machine)
    requires Accepts(prog) && m.pc < |prog| && Step(prog, packet, m).Running?
    ensures Step(prog, packet, m).m.pc in Successors(m.pc, prog[m.pc])
  {
    var insn := prog[m.pc];
    assert InsnOk(prog, m.pc);
    if Class(insn.code) == BPF_JMP {
      BranchesTo(m, insn);
      PassesExactly(prog, m.pc);
      MasksAreSpaced(insn.code);
      KnownJumps(insn.code);
      hide Op, Src, Branch, Target;
      assert Step(prog, packet, m) == Branch(m, insn);
    } else {
      NonJump(insn, packet, m);
      if Class(insn.code) == BPF_RET {
        Returns(insn, packet, m);
      }
      hide Execute;
    }
  }

  lemma KnownJumps(code: u16)
    requires Known(code) && Class(code) == BPF_JMP
    ensures Op(code) in {BPF_JA, BPF_JEQ, BPF_JGT, BPF_JGE, BPF_JSET}
  {
    MasksAreSpaced(code);
    hide Op;
  }

  lemma {:induction false} RunsReach(prog: Program, packet: seq<byte>, m: Machine, steps: nat)
    requires Accepts(prog) && m.pc < |prog| && Reachable(prog, m.pc)
    ensures var o := Run(prog, packet, m, steps);
            && (o.Running? ==> o.m.pc < |prog| && Reachable(prog, o.m.pc))
            && (o.Failed? ==> exists i: nat :: i < |prog| && Reachable(prog, i) && DividesByZero(prog[i]))
    decreases steps
  {
    hide Accepts, Step, DividesByZero, Reachable, Successors;
    if steps != 0 {
      SafeStep(prog, packet, m);
      var o := Step(prog, packet, m);
      if o.Running? {
        StepsToSuccessor(prog, packet, m);
        SuccessorIsReachable(prog, m.pc, o.m.pc);
        RunsReach(prog, packet, o.m, steps - 1);
      } else if o.Failed? {
        assert DividesByZero(prog[m.pc]);
      }
    }
  }

  /** A run of an accepted program from its first instruction stays on reachable
      instructions. It fails only if a reachable one divides by a constant zero, and takes a
      step that is not forward only at a reachable jump that wraps around. */
  lemma RunsFromStart(prog: Program, packet: seq<byte>, m: Machine, steps: nat)
    requires Accepts(prog) && m.pc == 0
    ensures var o := Run(prog, packet, m, steps);
            && (o.Failed? ==> exists i: nat :: i < |prog| && Reachable(prog, i) && DividesByZero(prog[i]))
            && (o.Running? ==> o.m.pc < |prog| && Reachable(prog, o.m.pc))
            && (o.Running? && Step(prog, packet, o.m).Running? && Step(prog, packet, o.m).m.pc <= o.m.pc ==> Wraps(prog, o.m.pc))
  {
    FirstIsReachable(prog);
    RunsReach(prog, packet, m, steps);
    var o := Run(prog, packet, m, steps);
    hide Run, Step, Accepts, Reachable, DividesByZero, Wraps;
    if o.Running? {
      SafeStep(prog, packet, o.m);
    }
  }

  /** An accepted program none of whose reachable jumps wraps around comes to its end from its
      first instruction in no more steps than it has instructions. */
  lemma RunsFromStartEnd(prog: Program, packet: seq<byte>, m: Machine)
    requires Accepts(prog) && m.pc == 0
    requires forall i: nat :: i < |prog| && Reachable(prog, i) ==> !Wraps(prog, i)
    ensures !Run(prog, packet, m, |prog|).Running?
  {
    FirstIsReachable(prog);
    hide Reachable, Wraps;
    RunsEndOnPaths(prog, packet, m, |prog|);
  }

  lemma {:induction false} RunsEndOnPaths(prog: Program, packet: seq<byte>, m: Machine, steps: nat)
    requires Accepts(prog) && m.pc < |prog| && |prog| - m.pc <= steps && Reachable(prog, m.pc)
    requires forall i: nat :: i < |prog| && Reachable(prog, i) ==> !Wraps(prog, i)
    ensures !Run(prog, packet, m, steps).Running?
    decreases steps
  {
    hide Accepts, Step, DividesByZero, Wraps, Reachable, Successors;
    SafeStep(prog, packet, m);
    var o := Step(prog, packet, m);
    if o.Running? {
      StepsToSuccessor(prog, packet, m);
      SuccessorIsReachable(prog, m.pc, o.m.pc);
      RunsEndOnPaths(prog, packet, o.m, steps - 1);
    }
  }

  const DEAD_DIVISION: Program := [Insn(BPF_RET + BPF_K, 0, 0, 0)] + ZERO_DIVISION

  /** A division by a constant zero that no run from the first instruction gets to: such runs
      never fail, although a run entered at the division would. */
  lemma DeadDivisionIsHarmless(packet: seq<byte>, m: Machine, steps: nat)
    requires m.pc == 0
    ensures Accepts(DEAD_DIVISION) && DividesByZero(DEAD_DIVISION[1])
    ensures !Run(DEAD_DIVISION, packet, m, steps).Failed?
  {
    assert DEAD_DIVISION == [Insn(BPF_RET + BPF_K, 0, 0, 0), Insn(BPF_ALU + BPF_DIV + BPF_K, 0, 0, 0), Insn(BPF_RET + BPF_K, 0, 0, 0)];
    assert Class(BPF_RET + BPF_K) == BPF_RET;
    assert Class(BPF_ALU + BPF_DIV + BPF_K) == BPF_ALU && Op(BPF_ALU + BPF_DIV + BPF_K) == BPF_DIV;
    DivisionTestIsDead(BPF_ALU + BPF_DIV + BPF_K);
    Returns(DEAD_DIVISION[0], packet, m);
    hide Execute;
  }

  // ------------------------------------------------- where the guarantees end, exactly

  /** The test meant to reject a division by a constant zero never does: the mask of
      BPF_RVAL covers a bit that is set in BPF_DIV. */
  lemma DivisionTestIsDead(code: u16)
    requires Class(code) == BPF_ALU && Op(code) == BPF_DIV
    ensures Rval(code) != BPF_K
  {
  }

  const ZERO_DIVISION: Program := [Insn(BPF_ALU + BPF_DIV + BPF_K, 0, 0, 0), Insn(BPF_RET + BPF_K, 0, 0, 0)]

  lemma ZeroDivisionIsAccepted(packet: seq<byte>, m: Machine)
    requires m.pc == 0
    ensures Accepts(ZERO_DIVISION) && Step(ZERO_DIVISION, packet, m) == Failed(ZeroDivisor)
  {
    assert Class(ZERO_DIVISION[0].code) == BPF_ALU && Op(ZERO_DIVISION[0].code) == BPF_DIV;
    assert Class(ZERO_DIVISION[1].code) == BPF_RET;
  }

  ghost predicate NeverFails(prog: Program) {
    forall packet, m: Machine, steps: nat :: m.pc < |prog| ==> !Run(prog, packet, m, steps).Failed?
  }

  /** Taken over every entry point: an accepted program never fails exactly when it contains
      no division by a constant zero. */
  lemma NeverFailsExactly(prog: Program)
    requires Accepts(prog)
    ensures NeverFails(prog) <==> forall i :: 0 <= i < |prog| ==> !DividesByZero(prog[i])
  {
    hide Accepts, Step, DividesByZero;
    forall packet, m: Machine, steps: nat | m.pc < |prog| && Run(prog, packet, m, steps).Failed?
      ensures exists i :: 0 <= i < |prog| && DividesByZero(prog[i])
    {
      RunsAreSafe(prog, packet, m, steps);
    }
    if i :| 0 <= i < |prog| && DividesByZero(prog[i]) {
      var m := RawMachine.Machine(i, 0, 0, seq(BPF_MEMWORDS, _ => 0));
      SafeStep(prog, [], m);
      assert Run(prog, [], m, 1).Failed?;
    }
  }

  ghost predicate AlwaysForward(prog: Program) {
    forall packet, m: Machine ::
      m.pc < |prog| && Step(prog, packet, m).Running? ==> m.pc < Step(prog, packet, m).m.pc
  }

  /** Taken over every entry point: every step of an accepted program moves forward exactly
      when no unconditional jump wraps around. */
  lemma ForwardExactly(prog: Program)
    requires Accepts(prog)
    ensures AlwaysForward(prog) <==> forall i :: 0 <= i < |prog| ==> !Wraps(prog, i)
  {
    if forall i :: 0 <= i < |prog| ==> !Wraps(prog, i) {
      hide Accepts, Step, Wraps;
      forall packet, m: Machine | m.pc < |prog| && Step(prog, packet, m).Running?
        ensures m.pc < Step(prog, packet, m).m.pc
      {
        SafeStep(prog, packet, m);
      }
    } else {
      var i :| 0 <= i < |prog| && Wraps(prog, i);
      var m := RawMachine.Machine(i, 0, 0, seq(BPF_MEMWORDS, _ => 0));
      assert Step(prog, [], m) == Jump(m, prog[i].k);
      assert Target(i, prog[i].k) <= i;
    }
  }

  /** A jump to itself is accepted anywhere but at the end, and runs forever. */
  lemma {:induction false} SelfLoopNeverHalts(prog: Program, packet: seq<byte>, m: Machine, steps: nat)
    requires m.pc < |prog| && Class(prog[m.pc].code) == BPF_JMP && Op(prog[m.pc].code) == BPF_JA
    requires prog[m.pc].k == U32 - 1
    ensures InsnOk(prog, m.pc) && Run(prog, packet, m, steps) == Running(m)
  {
    assert Step(prog, packet, m) == Jump(m, prog[m.pc].k) == Running(m);
    if steps != 0 {
      SelfLoopNeverHalts(prog, packet, m, steps - 1);
    }
  }

  const ENDLESS: Program := [Insn(BPF_JMP + BPF_JA, 0, 0, U32 - 1), Insn(BPF_RET + BPF_K, 0, 0, 0)]

  lemma EndlessIsAccepted(packet: seq<byte>, m: Machine, steps: nat)
    requires m.pc == 0
    ensures Accepts(ENDLESS) && Run(ENDLESS, packet, m, steps) == Running(m)
  {
    assert Class(ENDLESS[0].code) == BPF_JMP && Op(ENDLESS[0].code) == BPF_JA;
    assert Class(ENDLESS[1].code) == BPF_RET;
    SelfLoopNeverHalts(ENDLESS, packet, m, steps);
    assert InsnOk(ENDLESS, 1);
  }
}

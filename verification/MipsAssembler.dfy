/** An assembler for the control transfers of the MIPS III instruction set, as an independent account of what
    the classifier of tools/mips_find_functions.py must see in a word: which instruction, and which target. */
module MipsAssembler {

  import opened Basics
  import opened MipsDecoder

  const RA := 31
  const SP := 29

  datatype Instr =
    | CompareBranch(op: int, rs: int, rt: int, target: int)   // beq, bne, blez, bgtz, and their likely forms
    | ZeroBranch(rt: int, rs: int, target: int)               // bltz, bgez, bltzal, bgezal, and their likely forms
    | FloatBranch(condition: int, target: int)                // bc1f, bc1t, bc1fl, bc1tl
    | Direct(link: bool, target: int)                         // j, jal
    | Register(link: bool, rs: int, rest: int)                // jr, jalr; rest: the fields between
    | Eret(rest: int)
  {
    /** b is written as beq $0,$0. */
    predicate Always() { CompareBranch? && op == 4 && rs == 0 && rt == 0 }

    predicate Links() {
      match this
      case ZeroBranch(rt, _, _) => rt >= 16
      case Direct(link, _) => link
      case Register(link, _, _) => link
      case _ => false
    }

    predicate HasTarget() { CompareBranch? || ZeroBranch? || FloatBranch? || Direct? }

    predicate JumpsTo(t: int) { HasTarget() && !Links() && target == t }

    predicate CallsTo(t: int) { HasTarget() && Links() && target == t }

    // Nothing behind its delay slot is executed next.
    predicate Stops() { Always() || ((Direct? || Register?) && !Links()) || Eret? }
  }

  // ---- Encoding ----------------------------------------------------------------------------

  predicate IsRegister(r: int) { 0 <= r < 32 }

  predicate IsCompare(op: int) { 4 <= op <= 7 || 20 <= op <= 23 }

  predicate IsZeroTest(rt: int) { 0 <= rt <= 3 || 16 <= rt <= 19 }

  /** A branch reaches 0x8000 instructions back and 0x7FFF ahead, counted from its delay slot. */
  predicate InReach(pc: int, t: int) { (t - pc) % 4 == 0 && -0x8000 <= (t - pc - 4) / 4 <= 0x7FFF }

  // A jump stays in the 256 MB region of pc, of which 32 bits count.
  predicate InRegion(pc: int, t: int) {
    t % 4 == 0 && 0 <= t < 0x1_0000_0000 && t / 0x1000_0000 == pc / 0x1000_0000 % 16
  }

  predicate Encodable(i: Instr, pc: int) {
    match i
    case CompareBranch(op, rs, rt, t) => IsCompare(op) && IsRegister(rs) && IsRegister(rt) && InReach(pc, t)
    case ZeroBranch(rt, rs, t) => IsZeroTest(rt) && IsRegister(rs) && InReach(pc, t)
    case FloatBranch(condition, t) => IsRegister(condition) && InReach(pc, t)
    case Direct(_, t) => InRegion(pc, t)
    case Register(_, rs, rest) => IsRegister(rs) && 0 <= rest < 0x8000
    case Eret(rest) => 0 <= rest < 0x8_0000
  }

  /** Opcode, two registers and a signed 16-bit immediate. */
  function Immediate(op: int, rs: int, rt: int, value: int): int {
    op * 0x400_0000 + rs * 0x20_0000 + rt * 0x1_0000 + value % 0x1_0000
  }

  function Offset(pc: int, t: int): int { (t - pc - 4) / 4 }

  function Assemble(i: Instr, pc: int): int {
    match i
    case CompareBranch(op, rs, rt, t) => Immediate(op, rs, rt, Offset(pc, t))
    case ZeroBranch(rt, rs, t) => Immediate(1, rs, rt, Offset(pc, t))
    case FloatBranch(condition, t) => Immediate(0x11, 8, condition, Offset(pc, t))
    case Direct(link, t) => (if link then 3 else 2) * 0x400_0000 + t % 0x1000_0000 / 4
    case Register(link, rs, rest) => rs * 0x20_0000 + rest * 0x40 + (if link then 9 else 8)
    case Eret(rest) => 0x4200_0000 + rest * 0x40 + 0x18
  }

  /** The word at pc is this instruction. */
  predicate Encodes(i: Instr, pc: int, w: Word) { Encodable(i, pc) && Assemble(i, pc) == w }

  // ---- What is no instruction ------------------------------------------------------------------

  /** The encodings that MIPS III leaves reserved: opcodes, and the function fields of two of them. */
  predicate Reserved(w: Word) {
    || ReservedOpcode(Opcode(w))
    || (Opcode(w) == 0 && ReservedFunction(Funct(w)))
    || (Opcode(w) == 1 && !IsZeroTest(Rt(w)) && !IsTrapTest(Rt(w)))
  }

  predicate ReservedOpcode(op: int) { op in {0x13, 0x1C, 0x1D, 0x1E, 0x1F, 0x33, 0x3B} }

  predicate ReservedFunction(f: int) {
    f in {0x01, 0x05, 0x0A, 0x0B, 0x0E, 0x15, 0x28, 0x29, 0x35, 0x37, 0x39, 0x3D}
  }

  // tgei, tgeiu, tlti, tltiu, teqi, tnei
  predicate IsTrapTest(rt: int) { 8 <= rt <= 12 || rt == 14 }

  /** The classifier stops at exactly the reserved words. */
  lemma {:induction false} InvalidIsReserved(w: Word, pc: int)
    ensures IsLegal(w) <==> !Reserved(w)
    ensures Classify(w, pc).Invalid? <==> Reserved(w)
    ensures Classify(w, pc).Nop? <==> w == 0
  {
    hide RelativeTarget, RegionTarget, Opcode, Funct, Rt, Rs, IsLegal, Reserved;
    LegalFields(w);
    NothingIsLegal();
  }

  lemma {:induction false} NothingIsLegal()
    ensures IsLegal(0)
  {
  }

  lemma {:induction false} LegalFields(w: Word)
    ensures IsLegal(w) <==> !Reserved(w)
  {
    WordOfFields(w);
    Opcodes(Opcode(w));
    Functions(Funct(w));
    ZeroTests(Rt(w));
    hide Opcode, Funct, Rt, Rs, ReservedOpcode, ReservedFunction, IsZeroTest, IsTrapTest;
  }

  lemma {:induction false} Opcodes(op: int)
    requires 0 <= op < 64
    ensures ValidOpcode(op) <==> !ReservedOpcode(op)
  {
  }

  lemma {:induction false} Functions(f: int)
    requires 0 <= f < 64
    ensures ValidFunction(f) <==> !ReservedFunction(f)
  {
  }

  lemma {:induction false} ZeroTests(rt: int)
    requires 0 <= rt < 32
    ensures ValidRegimm(rt) <==> IsZeroTest(rt) || IsTrapTest(rt)
  {
  }

  // ---- What the classifier makes of it -------------------------------------------------------

  function Meaning(i: Instr): Kind {
    if i.HasTarget() then
      if i.Links() then Call(i.target)
      else if i.Always() then UBranch(i.target)
      else if i.Direct? then Jump(i.target)
      else Branch(i.target)
    else if i.Eret? || (i.rs == RA && !i.link) then Ret
    else if i.link then IndirectCall
    else IndirectJump
  }

  lemma {:induction false} ImmediateFields(op: int, rs: int, rt: int, value: int)
    requires 0 <= op < 64 && IsRegister(rs) && IsRegister(rt)
    ensures var w := Immediate(op, rs, rt, value);
            && 0 <= w < 0x1_0000_0000 && Opcode(w) == op && Rs(w) == rs && Rt(w) == rt
            && w % 0x1_0000 == value % 0x1_0000
  {
    var w, low := Immediate(op, rs, rt, value), value % 0x1_0000;
    assert w / 0x1_0000 == op * 0x400 + rs * 0x20 + rt;
    assert w / 0x20_0000 == op * 0x20 + rs;
    assert w / 0x400_0000 == op;
  }

  lemma {:induction false} RelativeOfOffset(w: Word, pc: int, t: int)
    requires InReach(pc, t) && w % 0x1_0000 == Offset(pc, t) % 0x1_0000
    ensures RelativeTarget(w, pc) == t
  {
    var n := Offset(pc, t);
    assert n % 0x1_0000 == if n < 0 then n + 0x1_0000 else n;
    assert t == pc + 4 + 4 * n;
  }

  lemma {:induction false} DirectFields(op: int, pc: int, t: int)
    requires 0 <= op < 64 && InRegion(pc, t)
    ensures var w := op * 0x400_0000 + t % 0x1000_0000 / 4;
            0 <= w < 0x1_0000_0000 && Opcode(w) == op && RegionTarget(w, pc) == t
  {
    var field := t % 0x1000_0000 / 4;
    assert 0 <= field < 0x400_0000;
    var w := op * 0x400_0000 + field;
    assert w / 0x400_0000 == op && w % 0x400_0000 == field;
    assert t == t / 0x1000_0000 * 0x1000_0000 + t % 0x1000_0000;
    assert t % 0x1000_0000 == field * 4;
  }

  lemma {:induction false} RegisterFields(rs: int, rest: int, funct: int)
    requires IsRegister(rs) && 0 <= rest < 0x8000 && 0 <= funct < 64
    ensures var w := rs * 0x20_0000 + rest * 0x40 + funct;
            0 <= w < 0x1_0000_0000 && Opcode(w) == 0 && Rs(w) == rs && Funct(w) == funct
  {
    var w := rs * 0x20_0000 + rest * 0x40 + funct;
    assert w / 0x20_0000 == rs;
    assert w / 0x400_0000 == 0;
    assert w == (rs * 0x8000 + rest) * 64 + funct;
  }

  lemma {:induction false} EretFields(rest: int)
    requires 0 <= rest < 0x8_0000
    ensures var w := 0x4200_0000 + rest * 0x40 + 0x18;
            && 0 <= w < 0x1_0000_0000 && Opcode(w) == 0x10 && Funct(w) == 0x18 && w / 0x200_0000 % 2 == 1
  {
    var w := 0x4200_0000 + rest * 0x40 + 0x18;
    assert w / 0x200_0000 == 0x21;
    assert w / 0x400_0000 == 0x10;
    assert w == (0x108_0000 + rest) * 64 + 0x18;
  }

  /** Classifying an assembled instruction gives its kind and exactly its target. */
  lemma {:induction false} AssembledIsClassified(i: Instr, pc: int)
    requires Encodable(i, pc)
    ensures 0 <= Assemble(i, pc) < 0x1_0000_0000 && Classify(Assemble(i, pc), pc) == Meaning(i)
  {
    hide InReach, InRegion, RelativeTarget, RegionTarget, Opcode, Rs, Rt, Funct, Immediate, Offset, IsLegal;
    match i {
      case CompareBranch(op, rs, rt, t) =>
        ImmediateFields(op, rs, rt, Offset(pc, t));
        RelativeOfOffset(Assemble(i, pc), pc, t);
        NotNop(Assemble(i, pc));
        LegalFields(Assemble(i, pc));
      case ZeroBranch(rt, rs, t) =>
        ImmediateFields(1, rs, rt, Offset(pc, t));
        RelativeOfOffset(Assemble(i, pc), pc, t);
        NotNop(Assemble(i, pc));
        LegalFields(Assemble(i, pc));
      case FloatBranch(condition, t) =>
        ImmediateFields(0x11, 8, condition, Offset(pc, t));
        RelativeOfOffset(Assemble(i, pc), pc, t);
        NotNop(Assemble(i, pc));
        LegalFields(Assemble(i, pc));
      case Direct(link, t) =>
        DirectFields(if link then 3 else 2, pc, t);
        NotNop(Assemble(i, pc));
        LegalFields(Assemble(i, pc));
      case Register(link, rs, rest) =>
        RegisterFields(rs, rest, if link then 9 else 8);
        NotNop(Assemble(i, pc));
        LegalFields(Assemble(i, pc));
      case Eret(rest) =>
        EretFields(rest);
        NotNop(Assemble(i, pc));
        LegalFields(Assemble(i, pc));
    }
  }

  lemma {:induction false} NotNop(w: Word)
    ensures Opcode(w) != 0 || Funct(w) != 0 ==> w != 0
  {
  }

  predicate IsTransfer(k: Kind) { !k.Nop? && !k.Other? && !k.Invalid? }

  lemma {:induction false} WordOfFields(w: Word)
    ensures w == Immediate(Opcode(w), Rs(w), Rt(w), w % 0x1_0000)
    ensures 0 <= Opcode(w) < 64 && IsRegister(Rs(w)) && IsRegister(Rt(w)) && 0 <= Funct(w) < 64
  {
    var a, b, c := w / 0x1_0000, w / 0x20_0000, w / 0x400_0000;
    assert w == a * 0x1_0000 + w % 0x1_0000;
    assert a / 32 == b && b / 32 == c;
    assert a == b * 32 + a % 32 && b == c * 32 + b % 32;
  }

  lemma {:induction false} OffsetOfRelative(w: Word, pc: int)
    ensures var t := RelativeTarget(w, pc);
            InReach(pc, t) && Offset(pc, t) % 0x1_0000 == w % 0x1_0000
  {
    var simm := w % 0x1_0000;
    var n := if simm >= 0x8000 then simm - 0x1_0000 else simm;
    assert RelativeTarget(w, pc) - pc - 4 == 4 * n;
    assert n % 0x1_0000 == simm;
  }

  lemma {:induction false} RegionIsInRegion(w: Word, pc: int)
    ensures var t := RegionTarget(w, pc);
            InRegion(pc, t) && t % 0x1000_0000 / 4 == w % 0x400_0000
    ensures w == Opcode(w) * 0x400_0000 + w % 0x400_0000
  {
    var region, field := pc / 0x1000_0000 % 16, w % 0x400_0000;
    assert RegionTarget(w, pc) == region * 0x1000_0000 + field * 4;
  }

  lemma {:induction false} SpecialFields(w: Word)
    requires Opcode(w) == 0
    ensures var rest := w % 0x20_0000 / 0x40;
            0 <= rest < 0x8000 && w == Rs(w) * 0x20_0000 + rest * 0x40 + Funct(w)
  {
    var low := w % 0x20_0000;
    assert w / 0x20_0000 < 32;
    assert w == w / 0x20_0000 * 0x20_0000 + low;
    assert low % 64 == w % 64;
    assert low == low / 0x40 * 0x40 + low % 64;
  }

  lemma {:induction false} CopFields(w: Word)
    requires Opcode(w) == 0x10 && Funct(w) == 0x18 && w / 0x200_0000 % 2 == 1
    ensures var rest := w % 0x200_0000 / 0x40;
            0 <= rest < 0x8_0000 && w == 0x4200_0000 + rest * 0x40 + 0x18
  {
    var low := w % 0x200_0000;
    assert w / 0x200_0000 / 2 == 0x10;
    assert w / 0x200_0000 == 0x21;
    assert w == 0x21 * 0x200_0000 + low;
    assert low % 64 == w % 64;
    assert low == low / 0x40 * 0x40 + low % 64;
  }

  /** And every word that the classifier takes for a transfer is an assembled one of that meaning. */
  lemma {:induction false} ClassifiedIsAssembled(w: Word, pc: int) returns (i: Instr)
    requires IsTransfer(Classify(w, pc))
    ensures Encodes(i, pc, w) && Meaning(i) == Classify(w, pc)
  {
    hide RelativeTarget, RegionTarget, Opcode, Rs, Rt, Funct, Immediate, Offset, InReach, InRegion, IsLegal;
    WordOfFields(w);
    OffsetOfRelative(w, pc);
    RegionIsInRegion(w, pc);
    var op, t := Opcode(w), RelativeTarget(w, pc);
    SameImmediate(op, Rs(w), Rt(w), Offset(pc, t), w % 0x1_0000);
    if op == 2 || op == 3 {
      i := Direct(op == 3, RegionTarget(w, pc));
    } else if op == 0 {
      SpecialFields(w);
      i := Register(Funct(w) == 9, Rs(w), w % 0x20_0000 / 0x40);
    } else if op == 1 {
      i := ZeroBranch(Rt(w), Rs(w), t);
    } else if op == 0x11 {
      i := FloatBranch(Rt(w), t);
    } else if op == 0x10 {
      CopFields(w);
      i := Eret(w % 0x200_0000 / 0x40);
    } else {
      i := CompareBranch(op, Rs(w), Rt(w), t);
    }
  }

  lemma {:induction false} SameImmediate(op: int, rs: int, rt: int, a: int, b: int)
    requires a % 0x1_0000 == b % 0x1_0000
    ensures Immediate(op, rs, rt, a) == Immediate(op, rs, rt, b)
  {
  }

  /** The delay-slot test of tools/fix_truncated_delay_slots.py accepts every transfer but eret. */
  lemma {:induction false} DelaySlotIsAssembled(w: Word, pc: int)
    ensures IsDelaySlotInstr(w) <==> exists i :: Encodes(i, pc, w) && !i.Eret?
  {
    DecodersAgree(w, pc);
    hide Classify, Encodable, Assemble, IsDelaySlotInstr, IsEret;
    forall i | Encodes(i, pc, w)
      ensures Classify(w, pc) == Meaning(i) && (IsEret(w) <==> i.Eret?)
    {
      AssembledIsClassified(i, pc);
      EretOnly(i, pc);
    }
    if IsTransfer(Classify(w, pc)) {
      var i := ClassifiedIsAssembled(w, pc);
    }
  }

  lemma {:induction false} EretOnly(i: Instr, pc: int)
    requires Encodable(i, pc) && 0 <= Assemble(i, pc) < 0x1_0000_0000
    ensures IsEret(Assemble(i, pc)) <==> i.Eret?
  {
    hide InReach, InRegion, Opcode, Funct, Immediate, Offset;
    match i {
      case CompareBranch(op, rs, rt, t) => ImmediateFields(op, rs, rt, Offset(pc, t));
      case ZeroBranch(rt, rs, t) => ImmediateFields(1, rs, rt, Offset(pc, t));
      case FloatBranch(condition, t) => ImmediateFields(0x11, 8, condition, Offset(pc, t));
      case Direct(link, t) => DirectFields(if link then 3 else 2, pc, t);
      case Register(link, rs, rest) => RegisterFields(rs, rest, if link then 9 else 8);
      case Eret(rest) => EretFields(rest);
    }
  }

  /** The three questions that the walks ask of a word, answered by the instruction it is. */
  lemma {:induction false} FlowIsAssembled(w: Word, pc: int, t: int)
    ensures Follows(Classify(w, pc), t) <==> exists i :: Encodes(i, pc, w) && i.JumpsTo(t)
    ensures Classify(w, pc) == Call(t) <==> exists i :: Encodes(i, pc, w) && i.CallsTo(t)
    ensures Terminates(Classify(w, pc)) <==> exists i :: Encodes(i, pc, w) && i.Stops()
  {
    hide Classify, Encodable, Assemble;
    forall i | Encodes(i, pc, w)
      ensures Classify(w, pc) == Meaning(i)
    {
      AssembledIsClassified(i, pc);
    }
    if IsTransfer(Classify(w, pc)) {
      var i := ClassifiedIsAssembled(w, pc);
    }
  }
}

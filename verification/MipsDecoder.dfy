/** The two MIPS decoders of the tool chain: the control-flow classifier of
    tools/mips_find_functions.py and the delay-slot test of
    tools/fix_truncated_delay_slots.py. Instruction words are 32-bit big-endian
    values; bit fields of such a non-negative number are quotients and remainders. */
module MipsDecoder {

  import opened Basics

  datatype Kind =
    | Nop
    | Call(callee: int)
    | Branch(target: int)
    | UBranch(target: int)
    | Jump(target: int)
    | Ret
    | IndirectCall
    | IndirectJump
    | Other
    | Invalid

  // Bit fields of an instruction word
  function Opcode(w: Word): int { w / 0x400_0000 }
  function Rs(w: Word): int { w / 0x20_0000 % 32 }
  function Rt(w: Word): int { w / 0x1_0000 % 32 }
  function Funct(w: Word): int { w % 64 }

  predicate ValidOpcode(x: int) {
    x in {
      0x00, 0x01, 0x02, 0x03, 0x04, 0x05, 0x06, 0x07,
      0x08, 0x09, 0x0A, 0x0B, 0x0C, 0x0D, 0x0E, 0x0F,
      0x10, 0x11, 0x12,
      0x14, 0x15, 0x16, 0x17, 0x18, 0x19, 0x1A, 0x1B,
      0x20, 0x21, 0x22, 0x23, 0x24, 0x25, 0x26, 0x27,
      0x28, 0x29, 0x2A, 0x2B, 0x2C, 0x2D, 0x2E, 0x2F,
      0x30, 0x31, 0x32, 0x34, 0x35, 0x36, 0x37,
      0x38, 0x39, 0x3A, 0x3C, 0x3D, 0x3E, 0x3F
    }
  }

  predicate ValidFunction(x: int) {
    x in {
      0x00, 0x02, 0x03, 0x04, 0x06, 0x07, 0x08, 0x09, 0x0C, 0x0D, 0x0F,
      0x10, 0x11, 0x12, 0x13, 0x14, 0x16, 0x17,
      0x18, 0x19, 0x1A, 0x1B, 0x1C, 0x1D, 0x1E, 0x1F,
      0x20, 0x21, 0x22, 0x23, 0x24, 0x25, 0x26, 0x27,
      0x2A, 0x2B, 0x2C, 0x2D, 0x2E, 0x2F,
      0x30, 0x31, 0x32, 0x33, 0x34, 0x36,
      0x38, 0x3A, 0x3B, 0x3C, 0x3E, 0x3F
    }
  }

  predicate RegimmLink(rt: int) { rt in {0x10, 0x11, 0x12, 0x13} }
  predicate RegimmBranch(rt: int) { rt in {0x00, 0x01, 0x02, 0x03} || RegimmLink(rt) }
  predicate ValidRegimm(rt: int) { rt in {0x08, 0x09, 0x0A, 0x0B, 0x0C, 0x0E} || RegimmBranch(rt) }

  predicate IsLegal(w: Word) {
    var op := Opcode(w);
    && ValidOpcode(op)
    && (op == 0x00 ==> ValidFunction(Funct(w)))
    && (op == 0x01 ==> ValidRegimm(Rt(w)))
  }

  /** Target of a PC-relative branch: the 16-bit immediate is sign-extended and
      counted in words from the delay slot. */
  function RelativeTarget(w: Word, pc: int): int {
    var simm := w % 0x1_0000;
    pc + 4 + 4 * (if simm >= 0x8000 then simm - 0x1_0000 else simm)
  }

  /** Target of j/jal: the 26-bit field replaces the low 28 bits of pc, and every
      bit of pc above bit 31 is dropped. */
  function RegionTarget(w: Word, pc: int): int {
    pc / 0x1000_0000 % 16 * 0x1000_0000 + w % 0x400_0000 * 4
  }

  function Classify(w: Word, pc: int): Kind {
    var op := Opcode(w);
    if w == 0 then Nop
    else if !IsLegal(w) then Invalid
    else if op == 0x03 then Call(RegionTarget(w, pc))
    else if op == 0x02 then Jump(RegionTarget(w, pc))
    else if op == 0x00 then
      if Funct(w) == 0x08 then (if Rs(w) == 31 then Ret else IndirectJump)
      else if Funct(w) == 0x09 then IndirectCall
      else Other
    else if op == 0x01 then
      if RegimmLink(Rt(w)) then Call(RelativeTarget(w, pc))
      else if RegimmBranch(Rt(w)) then Branch(RelativeTarget(w, pc))
      else Other
    else if op in {0x04, 0x05, 0x06, 0x07, 0x14, 0x15, 0x16, 0x17} then
      if op == 0x04 && Rs(w) == 0 && Rt(w) == 0 then UBranch(RelativeTarget(w, pc))
      else Branch(RelativeTarget(w, pc))
    else if op == 0x11 then
      if Rs(w) == 0x08 then Branch(RelativeTarget(w, pc)) else Other
    else if op == 0x10 then
      if Funct(w) == 0x18 && w / 0x200_0000 % 2 == 1 then Ret else Other
    else Other
  }

  /** tools/fix_truncated_delay_slots.py decodes the word a second time, on its own. */
  predicate IsDelaySlotInstr(w: Word) {
    var op := Opcode(w);
    if op in {2, 3} then true
    else if op in {4, 5, 6, 7} then true
    else if op in {0x14, 0x15, 0x16, 0x17} then true
    else if op == 1 then Rt(w) in {0, 1, 2, 3, 16, 17, 18, 19}
    else if op == 0 then Funct(w) in {8, 9}
    else if op == 0x11 then Rs(w) == 8
    else false
  }

  // A path stops after these, once their delay slot is executed.
  predicate Terminates(k: Kind) { k.Ret? || k.UBranch? || k.Jump? || k.IndirectJump? }

  predicate FallsThrough(k: Kind) { !k.Invalid? && !Terminates(k) }

  // Control may go on at t, in the same function.
  predicate Follows(k: Kind, t: int) { (k.Branch? || k.UBranch? || k.Jump?) && k.target == t }

  predicate TransfersControl(k: Kind) {
    k.Call? || k.Branch? || k.UBranch? || k.Jump? || k.IndirectCall? || k.IndirectJump?
  }

  /** eret, the one transfer without a delay slot: COP0 with the CO bit set and function code 0x18. */
  predicate IsEret(w: Word) {
    Opcode(w) == 0x10 && Funct(w) == 0x18 && w / 0x200_0000 % 2 == 1
  }

  /** The two decoders agree on all 2^32 words: the delay-slot test accepts exactly the words the
      classifier calls a transfer of control, counting a return only when it is not eret. */
  lemma {:induction false} DecodersAgree(w: Word, pc: int)
    ensures IsDelaySlotInstr(w) <==>
            TransfersControl(Classify(w, pc)) || (Classify(w, pc).Ret? && !IsEret(w))
  {
  }
}

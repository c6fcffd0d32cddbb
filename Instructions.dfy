/** The parsed form of one source line (src/instruction.rs). */
module Instructions {
  import opened Outcomes
  import opened Hex

  datatype InstructionKind =
    | Mal      // data transfer, arithmetic and logic
    | Ctrl     // control
    | Shift    // shift and rotate
    | Branch   // conditional and unconditional branch
    | Unknown  // declared, but never built by the parser

  /** Operand A. `Dest` and `Symbol` are branch targets rather than
      registers; the source files them under operand A for convenience. */
  datatype OperandA =
    | ACC
    | IX
    | Dest(addr: Byte)
    | Symbol(name: string)

  /** Operand B: the two registers and five addressing modes that carry one byte. */
  datatype OperandB =
    | ACC
    | IX
    | IMMD(data: Byte)      // immediate
    | ABS_PRG(addr: Byte)   // absolute, program region
    | ABS_DT(addr: Byte)    // absolute, data region
    | IX_PRG(offset: Byte)  // index-relative, program region
    | IX_DT(offset: Byte)   // index-relative, data region

  /** `inst` is the mnemonic text, as the source names it. */
  datatype Instruction = Instruction(
    kind: InstructionKind,
    inst: string,
    oprA: Option<OperandA>,
    oprB: Option<OperandB>)

  /** `Instruction::new`: the four fields are stored as given. */
  function New(kind: InstructionKind, inst: string, oprA: Option<OperandA>, oprB: Option<OperandB>): (r: Instruction)
    ensures r.kind == kind && r.inst == inst && r.oprA == oprA && r.oprB == oprB
  {
    Instruction(kind, inst, oprA, oprB)
  }

  predicate IsRegisterA(a: OperandA) {
    a.ACC? || a.IX?
  }

  /** The byte an operand B carries after the opcode, if any. */
  function Payload(b: OperandB): (r: Option<Byte>)
    ensures r.None? <==> b.ACC? || b.IX?
  {
    match b
    case ACC => None
    case IX => None
    case IMMD(d) => Some(d)
    case ABS_PRG(d) => Some(d)
    case ABS_DT(d) => Some(d)
    case IX_PRG(d) => Some(d)
    case IX_DT(d) => Some(d)
  }

  /** Two operands B use the same addressing mode (payloads aside). */
  predicate SameMode(b1: OperandB, b2: OperandB) {
    (b1.ACC? && b2.ACC?) || (b1.IX? && b2.IX?) || (b1.IMMD? && b2.IMMD?)
    || (b1.ABS_PRG? && b2.ABS_PRG?) || (b1.ABS_DT? && b2.ABS_DT?)
    || (b1.IX_PRG? && b2.IX_PRG?) || (b1.IX_DT? && b2.IX_DT?)
  }

  /** An operand B is determined by its mode and its payload: the seven
      variants are two registers and five byte carriers. */
  lemma OperandBDeterminedByModeAndPayload(b1: OperandB, b2: OperandB)
    ensures SameMode(b1, b2) && Payload(b1) == Payload(b2) <==> b1 == b2
  {
  }

  /** The shape the parser gives each kind: MAL carries a register as
      operand A and an operand B; Branch and Shift carry only operand A;
      Ctrl carries neither. */
  predicate WellShaped(i: Instruction) {
    match i.kind
    case Mal => i.oprA.Some? && IsRegisterA(i.oprA.value) && i.oprB.Some?
    case Branch => i.oprA.Some? && i.oprB.None?
    case Shift => i.oprA.Some? && IsRegisterA(i.oprA.value) && i.oprB.None?
    case Ctrl => i.oprA.None? && i.oprB.None?
    case Unknown => false
  }

  /** Bytes an operand B adds to a MAL instruction: one for the opcode,
      one more for a payload. */
  function OperandBWidth(b: OperandB): (w: nat)
    ensures w == if Payload(b).Some? then 2 else 1
  {
    match b
    case ACC => 1
    case IX => 1
    case _ => 2
  }

  /** The amount the parser adds to the program counter for an instruction. */
  function Width(i: Instruction): (w: nat)
    requires WellShaped(i)
    ensures 1 <= w <= 2
    ensures w == 2 <==> i.kind.Branch? || (i.kind.Mal? && Payload(i.oprB.value).Some?)
  {
    match i.kind
    case Mal => OperandBWidth(i.oprB.value)
    case Branch => 2
    case Shift => 1
    case Ctrl => 1
  }
}

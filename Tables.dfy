/** The four constant tables of the encoder (src/code.rs): mnemonic to
    opcode base for MAL and control instructions, mode to increment for
    shifts, condition to increment for branches. */
module Tables {
  import opened Hex

  /** `CODE_MAL`: data transfer, arithmetic and logic mnemonics. */
  const CodeMal: map<string, Byte> := map[
    "LD" := 0x60, "ST" := 0x70, "ADD" := 0xB0, "ADC" := 0x90, "SUB" := 0xA0,
    "SBC" := 0x80, "CMP" := 0xF0, "AND" := 0xE0, "OR" := 0xD0, "EOR" := 0xC0]

  /** `CODE_CTRL`: the control instructions and their whole opcode. */
  const CodeCtrl: map<string, Byte> := map[
    "NOP" := 0x00, "HLT" := 0x0F, "OUT" := 0x10, "IN" := 0x1F, "RCF" := 0x20, "SCF" := 0x2F]

  /** `SHIFT_MODE`: shift mode to the low two bits of a shift opcode. */
  const ShiftMode: map<string, Byte> := map["RA" := 0, "LA" := 1, "RL" := 2, "LL" := 3]

  /** `BRANCH_COND`: branch condition to the low nibble of a branch opcode. */
  const BranchCond: map<string, Byte> := map[
    "A" := 0x00, "VF" := 0x08, "NZ" := 0x01, "Z" := 0x09,
    "ZP" := 0x02, "N" := 0x0A, "P" := 0x03, "ZN" := 0x0B,
    "NI" := 0x04, "NO" := 0x0C, "NC" := 0x05, "C" := 0x0D,
    "GE" := 0x06, "LT" := 0x0E, "GT" := 0x07, "LE" := 0x0F]

  /** Every MAL base is one of the high nibbles 6 to F with a zero low
      nibble, so the register and addressing increments (at most 0x0F)
      can be added without a carry. */
  lemma MalBases(m: string)
    requires m in CodeMal
    ensures CodeMal[m] % 16 == 0 && 0x60 <= CodeMal[m] <= 0xF0
  {
  }

  /** No two MAL mnemonics share a base. */
  lemma MalInjective(m1: string, m2: string)
    requires m1 in CodeMal && m2 in CodeMal
    ensures CodeMal[m1] == CodeMal[m2] <==> m1 == m2
  {
  }

  /** No two control mnemonics share an opcode. */
  lemma CtrlInjective(c1: string, c2: string)
    requires c1 in CodeCtrl && c2 in CodeCtrl
    ensures CodeCtrl[c1] == CodeCtrl[c2] <==> c1 == c2
  {
  }

  /** The four shift modes take the four values 0 to 3, one each. */
  lemma ShiftModes(m1: string, m2: string)
    requires m1 in ShiftMode && m2 in ShiftMode
    ensures ShiftMode[m1] < 4
    ensures ShiftMode[m1] == ShiftMode[m2] <==> m1 == m2
  {
  }

  /** The sixteen conditions take the sixteen values 0 to 15, one each. */
  lemma BranchConds(c1: string, c2: string)
    requires c1 in BranchCond && c2 in BranchCond
    ensures BranchCond[c1] < 16
    ensures BranchCond[c1] == BranchCond[c2] <==> c1 == c2
  {
  }

  /** Every low nibble is the code of some condition. */
  lemma BranchCondsOnto(v: nat)
    requires v < 16
    ensures exists c :: c in BranchCond && BranchCond[c] == v
  {
    var names := ["A", "NZ", "ZP", "P", "NI", "NC", "GE", "GT", "VF", "Z", "N", "ZN", "NO", "C", "LT", "LE"];
    assert names[v] in BranchCond && BranchCond[names[v]] == v;
  }
}

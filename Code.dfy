/** Pass 2 (src/code.rs): turn each instruction into one output line of
    upper-case hexadecimal. The encoder works on the typed instruction;
    the string classifiers of src/code.rs are modelled at the end of this
    module and shown to agree with the parser's in the Assembly module. */
module Code {
  import opened Outcomes
  import opened Hex
  import opened Instructions
  import opened Patterns
  import opened Tables

  // ---------------------------------------------------------------- MAL

  /** Increment that operand B adds to a MAL opcode (code 3 is unused). */
  function OperandBDelta(b: OperandB): (d: nat)
    ensures d < 8 && d != 3
  {
    match b
    case ACC => 0
    case IX => 1
    case IMMD(_) => 2
    case ABS_PRG(_) => 4
    case ABS_DT(_) => 5
    case IX_PRG(_) => 6
    case IX_DT(_) => 7
  }

  /** The increment tells the addressing mode apart, and nothing more. */
  lemma DeltaIdentifiesMode(b1: OperandB, b2: OperandB)
    ensures OperandBDelta(b1) == OperandBDelta(b2) <==> SameMode(b1, b2)
  {
  }

  /** Increment that operand A adds to a MAL or shift opcode. */
  function RegisterDelta(a: OperandA): nat {
    if a.IX? then 8 else 0
  }

  /** The MAL opcode: the table base in the high nibble, the register bit
      and the operand-B code in the low nibble. */
  function MalOpcode(m: string, a: OperandA, b: OperandB): (op: Byte)
    requires m in CodeMal && IsRegisterA(a)
    ensures 0x60 <= op <= 0xFF
    ensures op / 16 == CodeMal[m] / 16
    ensures op % 16 == RegisterDelta(a) + OperandBDelta(b)
  {
    MalBases(m);
    CodeMal[m] + RegisterDelta(a) + OperandBDelta(b)
  }

  /** Distinct mnemonics, registers or addressing modes give distinct
      opcodes, so a MAL opcode can be decoded back. */
  lemma MalOpcodeInjective(m1: string, a1: OperandA, b1: OperandB, m2: string, a2: OperandA, b2: OperandB)
    requires m1 in CodeMal && IsRegisterA(a1) && m2 in CodeMal && IsRegisterA(a2)
    ensures MalOpcode(m1, a1, b1) == MalOpcode(m2, a2, b2) <==> m1 == m2 && a1 == a2 && SameMode(b1, b2)
  {
    var op1, op2 := MalOpcode(m1, a1, b1), MalOpcode(m2, a2, b2);
    MalInjective(m1, m2);
    DeltaIdentifiesMode(b1, b2);
    if op1 == op2 {
      assert CodeMal[m1] / 16 == CodeMal[m2] / 16;
      MalBases(m1);
      MalBases(m2);
      assert CodeMal[m1] == CodeMal[m2];
      assert RegisterDelta(a1) + OperandBDelta(b1) == RegisterDelta(a2) + OperandBDelta(b2);
      assert RegisterDelta(a1) == RegisterDelta(a2);
    }
  }

  /** The bytes of a MAL instruction: the opcode, then the payload of
      operand B if it carries one. A mnemonic missing from the table and
      an operand that is not of the expected form are the panics. */
  function MalBytes(i: Instruction): (r: Result<seq<Byte>>)
    ensures r.Ok? <==> i.inst in CodeMal && i.oprA.Some? && IsRegisterA(i.oprA.value) && i.oprB.Some?
    ensures r.Ok? ==>
      && |r.value| == OperandBWidth(i.oprB.value)
      && r.value[0] == MalOpcode(i.inst, i.oprA.value, i.oprB.value)
      && (|r.value| == 2 ==> Payload(i.oprB.value) == Some(r.value[1]))
    ensures i.inst !in CodeMal ==> r == Fail(MissingKey(i.inst))
  {
    if i.inst !in CodeMal then Fail(MissingKey(i.inst))
    else if i.oprA.None? || !IsRegisterA(i.oprA.value) then Fail(InvalidOperandA)
    else if i.oprB.None? then Fail(InvalidOperandB)
    else
      var op := MalOpcode(i.inst, i.oprA.value, i.oprB.value);
      match Payload(i.oprB.value)
      case None => Ok([op])
      case Some(d) => Ok([op, d])
  }

  /** The output line for some bytes, or the failure that stopped them. */
  function AsLine(r: Result<seq<Byte>>): Result<string>
    requires r.Ok? ==> |r.value| >= 1
  {
    match r
    case Fail(e) => Fail(e)
    case Ok(bs) => Ok(HexLine(bs))
  }

  lemma HexLineOne(b: Byte)
    ensures HexLine([b]) == Hex2(b) + "\n"
  {
  }

  lemma HexLineTwo(b: Byte, d: Byte)
    ensures HexLine([b, d]) == Hex2(b) + " " + Hex2(d) + "\n"
  {
    assert [b, d][1..] == [d];
    assert HexBytes([b, d]) == Hex2(b) + " " + HexBytes([d]);
  }

  /** `form_mal`: starts from the table base and adds the register and
      operand-B increments one by one. The single-byte form is printed
      with `{:2X}`, which pads with a space; it still prints two digits
      because every MAL opcode is at least 0x60. */
  method FormMal(instr: Instruction) returns (r: Result<string>)
    ensures r == AsLine(MalBytes(instr))
  {
    if instr.inst !in CodeMal {
      return Fail(MissingKey(instr.inst));
    }
    MalBases(instr.inst);
    var base: Byte := CodeMal[instr.inst];
    var a := instr.oprA;
    if a.None? || !IsRegisterA(a.value) {
      return Fail(InvalidOperandA);
    }
    if a.value.IX? {
      base := base + 0x08;
    }
    var b := instr.oprB;
    if b.None? {
      return Fail(InvalidOperandB);
    }
    match b.value {
      case ACC =>
      case IX => base := base + 0x01;
      case IMMD(_) => base := base + 0x02;
      case ABS_PRG(_) => base := base + 0x04;
      case ABS_DT(_) => base := base + 0x05;
      case IX_PRG(_) => base := base + 0x06;
      case IX_DT(_) => base := base + 0x07;
    }
    assert base == MalOpcode(instr.inst, a.value, b.value);
    var payload := Payload(b.value);
    if payload.None? {
      assert MalBytes(instr) == Ok([base]);
      HexLineOne(base);
      r := Ok(Hex2Space(base) + "\n");
    } else {
      assert MalBytes(instr) == Ok([base, payload.value]);
      HexLineTwo(base, payload.value);
      r := Ok(Hex2(base) + " " + Hex2(payload.value) + "\n");
    }
  }

  // ---------------------------------------------------------------- Ctrl

  /** `form_ctrl`: the table value as one byte, or the panic of a
      mnemonic missing from the table. */
  function FormCtrl(i: Instruction): (r: Result<string>)
    ensures r.Ok? <==> i.inst in CodeCtrl
    ensures r.Ok? ==> r.value == HexLine([CodeCtrl[i.inst]])
    ensures r.Fail? ==> r.error == MissingKey(i.inst)
  {
    if i.inst in CodeCtrl then Ok(Hex2(CodeCtrl[i.inst]) + "\n") else Fail(MissingKey(i.inst))
  }

  // ---------------------------------------------------------------- Shift

  /** The opcode `form_shift` computes: 0x40, plus 4 for a rotate (first
      letter `R`), plus the mode code of letters 1 and 2, plus 8 for IX.
      A mnemonic of fewer than three letters is the panic of `nth(0)` or
      of the slice `[1..3]`. */
  function ShiftOpcode(i: Instruction): (r: Result<Byte>)
    ensures r.Ok? <==> |i.inst| >= 3 && i.inst[1..3] in ShiftMode && i.oprA.Some? && IsRegisterA(i.oprA.value)
    ensures r.Ok? ==> 0x40 <= r.value <= 0x4F
    ensures r.Ok? ==> r.value % 16 == (if i.inst[0] == 'R' then 4 else 0) + ShiftMode[i.inst[1..3]] + RegisterDelta(i.oprA.value)
  {
    if |i.inst| < 3 then Fail(BadMnemonic(i.inst))
    else if i.inst[1..3] !in ShiftMode then Fail(MissingKey(i.inst[1..3]))
    else if i.oprA.None? || !IsRegisterA(i.oprA.value) then Fail(InvalidOperandA)
    else
      var mode := ShiftMode[i.inst[1..3]];
      ShiftModes(i.inst[1..3], i.inst[1..3]);
      Ok(0x40 + (if i.inst[0] == 'R' then 4 else 0) + mode + RegisterDelta(i.oprA.value))
  }

  /** Every shift the parser accepts encodes, and distinct shifts (mnemonic
      and register) get distinct opcodes. */
  lemma ShiftOpcodeInjective(i1: Instruction, i2: Instruction)
    requires IsShiftMnemonic(i1.inst) && i1.oprA.Some? && IsRegisterA(i1.oprA.value)
    requires IsShiftMnemonic(i2.inst) && i2.oprA.Some? && IsRegisterA(i2.oprA.value)
    ensures ShiftOpcode(i1).Ok? && ShiftOpcode(i2).Ok?
    ensures ShiftOpcode(i1).value == ShiftOpcode(i2).value <==> i1.inst == i2.inst && i1.oprA == i2.oprA
  {
    var m1, m2 := i1.inst, i2.inst;
    assert m1[1..3] == m1[1..] && m2[1..3] == m2[1..];
    ShiftModes(m1[1..3], m2[1..3]);
    if ShiftOpcode(i1).value == ShiftOpcode(i2).value {
      assert m1[0] == m2[0];
      assert m1[1..3] == m2[1..3];
      assert m1 == [m1[0]] + m1[1..3] && m2 == [m2[0]] + m2[1..3];
    }
  }

  /** `form_shift`: builds the opcode in `base` step by step. */
  method FormShift(instr: Instruction) returns (r: Result<string>)
    ensures r == match ShiftOpcode(instr) case Fail(e) => Fail(e) case Ok(op) => Ok(HexLine([op]))
  {
    var base: Byte := 0x40;
    if |instr.inst| == 0 {
      return Fail(BadMnemonic(instr.inst));
    }
    var init := instr.inst[0];
    if init == 'R' {
      base := base + 0x04;
    }
    if |instr.inst| < 3 {
      return Fail(BadMnemonic(instr.inst));
    }
    var mode := instr.inst[1..3];
    if mode !in ShiftMode {
      return Fail(MissingKey(mode));
    }
    ShiftModes(mode, mode);
    base := base + ShiftMode[mode];
    var a := instr.oprA;
    if a.None? || !IsRegisterA(a.value) {
      return Fail(InvalidOperandA);
    }
    if a.value.IX? {
      base := base + 0x08;
    }
    HexLineOne(base);
    r := Ok(Hex2(base) + "\n");
  }

  // ---------------------------------------------------------------- Branch

  /** The branch opcode: 0x30 plus the code of the condition named by the
      mnemonic without its leading `B`. An empty mnemonic is the panic of
      the slice `[1..]`. */
  function BranchOpcode(i: Instruction): (r: Result<Byte>)
    ensures r.Ok? <==> |i.inst| >= 1 && i.inst[1..] in BranchCond
    ensures r.Ok? ==> 0x30 <= r.value <= 0x3F && r.value - 0x30 == BranchCond[i.inst[1..]]
  {
    if |i.inst| == 0 then Fail(BadMnemonic(i.inst))
    else if i.inst[1..] !in BranchCond then Fail(MissingKey(i.inst[1..]))
    else
      BranchConds(i.inst[1..], i.inst[1..]);
      Ok(0x30 + BranchCond[i.inst[1..]])
  }

  /** Distinct conditions give distinct branch opcodes. */
  lemma BranchOpcodeInjective(i1: Instruction, i2: Instruction)
    requires BranchOpcode(i1).Ok? && BranchOpcode(i2).Ok?
    ensures BranchOpcode(i1).value == BranchOpcode(i2).value <==> i1.inst[1..] == i2.inst[1..]
  {
    BranchConds(i1.inst[1..], i2.inst[1..]);
  }

  /** The text of a branch target as the encoder prints it: an address as
      two upper-case digits, a label by its name, a register by its name. */
  function TargetText(a: OperandA): (t: string)
    ensures a.Dest? ==> |t| == 2 && IsHex12(t) && HexValue(t) == a.addr
    ensures a.Symbol? ==> t == a.name
    ensures !a.Symbol? ==> |t| >= 2
  {
    match a
    case ACC => "ACC"
    case IX => "IX"
    case Dest(v) => Hex2RoundTrip(v); Hex2(v)
    case Symbol(name) => name
  }

  /** A target shorter than two characters gets one leading `0`. */
  function PadTarget(t: string): (r: string)
    ensures |r| == if |t| < 2 then |t| + 1 else |t|
    ensures r[|r| - |t|..] == t
    ensures forall k :: 0 <= k < |r| - |t| ==> r[k] == '0'
  {
    if |t| < 2 then "0" + t else t
  }

  /** Padding twice is padding once, except for the empty text, which
      grows to "0" and then to "00". */
  lemma PadTargetIdempotent(t: string)
    ensures PadTarget(PadTarget(t)) == PadTarget(t) <==> |t| >= 1
  {
    if |t| == 0 {
      assert |PadTarget(PadTarget(t))| == 2;
    }
  }

  /** For an address written with upper-case digits, padding gives the
      same text as printing its value with `{:02X}`. */
  lemma PadTargetIsHex2(t: string)
    requires IsHex12(t) && forall k :: 0 <= k < |t| ==> IsUpperHexDigit(t[k])
    ensures PadTarget(t) == Hex2(HexValue(t))
  {
    var v := HexValue(t);
    var c0 := t[0];
    assert IsUpperHexDigit(c0);
    UpperDigitRoundTrip(c0);
    if |t| == 2 {
      var c1 := t[1];
      assert IsUpperHexDigit(c1);
      UpperDigitRoundTrip(c1);
      assert v / 16 == DigitValue(c0) && v % 16 == DigitValue(c1);
      assert Hex2(v) == [c0, c1];
      assert t == [c0, c1];
    } else {
      assert v / 16 == 0 && v % 16 == DigitValue(c0);
      assert HexChar(0) == '0';
      assert Hex2(v) == ['0', c0];
      assert t == [c0];
    }
  }

  /** The operand after `form_branch` has padded its text in place: only a
      one-letter label is short enough to change. */
  function PadOperand(a: OperandA): (r: OperandA)
    ensures TargetText(r) == PadTarget(TargetText(a))
  {
    match a
    case Symbol(name) => Symbol(PadTarget(name))
    case _ => a
  }

  /** The instruction as `form_branch` leaves it. */
  function PadInstruction(i: Instruction): (r: Instruction)
    ensures r.kind == i.kind && r.inst == i.inst && r.oprB == i.oprB
    ensures r.oprA.Some? <==> i.oprA.Some?
    ensures r.oprA.Some? ==> TargetText(r.oprA.value) == PadTarget(TargetText(i.oprA.value))
  {
    if i.oprA.Some? then i.(oprA := Some(PadOperand(i.oprA.value))) else i
  }

  /** The branch line: the opcode, a space, the padded target text. */
  function BranchLine(i: Instruction): (r: Result<string>)
    ensures r.Ok? <==> BranchOpcode(i).Ok? && i.oprA.Some?
    ensures r.Ok? ==> r.value == Hex2(BranchOpcode(i).value) + " " + PadTarget(TargetText(i.oprA.value)) + "\n"
    ensures BranchOpcode(i).Fail? ==> r.error == BranchOpcode(i).error
  {
    match BranchOpcode(i)
    case Fail(e) => Fail(e)
    case Ok(op) =>
      if i.oprA.None? then Fail(InvalidOperandA)
      else Ok(Hex2(op) + " " + PadTarget(TargetText(i.oprA.value)) + "\n")
  }

  /** `form_branch`: computes the opcode, pads the target text in place
      (the second result is the instruction afterwards) and prints both. */
  method FormBranch(instr: Instruction) returns (r: Result<string>, padded: Instruction)
    ensures r == BranchLine(instr)
    ensures padded == if r.Ok? then PadInstruction(instr) else instr
  {
    padded := instr;
    var base: Byte := 0x30;
    if |instr.inst| == 0 {
      return Fail(BadMnemonic(instr.inst)), padded;
    }
    var cond := instr.inst[1..];
    if cond !in BranchCond {
      return Fail(MissingKey(cond)), padded;
    }
    BranchConds(cond, cond);
    base := base + BranchCond[cond];
    if instr.oprA.None? {
      return Fail(InvalidOperandA), padded;
    }
    var target := instr.oprA.value;
    if |TargetText(target)| < 2 {
      // only a one-letter label is that short
      target := Symbol("0" + TargetText(target));
    }
    assert target == PadOperand(instr.oprA.value);
    assert base == BranchOpcode(instr).value;
    padded := instr.(oprA := Some(target));
    r := Ok(Hex2(base) + " " + TargetText(target) + "\n");
    assert r == BranchLine(instr) by {
      assert TargetText(target) == PadTarget(TargetText(instr.oprA.value));
    }
  }

  // ---------------------------------------------------------------- the pass

  /** The output line of one instruction, by kind; `Unknown` is the
      "Unknown Instruction" panic. */
  function EncodeLine(i: Instruction): (r: Result<string>)
    ensures i.kind.Unknown? ==> r == Fail(UnknownInstruction(i.inst))
    ensures r.Ok? ==> OutputLine(r.value)
  {
    match i.kind
    case Mal =>
      var bs := MalBytes(i);
      if bs.Ok? then HexLineShape(bs.value); AsLine(bs) else AsLine(bs)
    case Ctrl =>
      if i.inst in CodeCtrl then HexLineShape([CodeCtrl[i.inst]]); FormCtrl(i) else FormCtrl(i)
    case Shift =>
      (match ShiftOpcode(i) case Fail(e) => Fail(e) case Ok(op) => HexLineShape([op]); Ok(HexLine([op])))
    case Branch =>
      if BranchLine(i).Ok? then BranchLineShape(i); BranchLine(i) else BranchLine(i)
    case Unknown => Fail(UnknownInstruction(i.inst))
  }

  /** Every line the encoder writes starts with the two hex digits of an
      opcode and ends with a newline. */
  predicate OutputLine(s: string) {
    |s| >= 3 && IsHexDigit(s[0]) && IsHexDigit(s[1]) && s[|s| - 1] == '\n'
  }

  lemma HexLineShape(bytes: seq<Byte>)
    requires |bytes| >= 1
    ensures OutputLine(HexLine(bytes))
  {
    var s := HexLine(bytes);
    assert s[0] == s[..2][0] && s[1] == s[..2][1];
  }

  lemma BranchLineShape(i: Instruction)
    requires BranchLine(i).Ok?
    ensures OutputLine(BranchLine(i).value)
  {
    var h := Hex2(BranchOpcode(i).value);
    var s := BranchLine(i).value;
    assert s == h + " " + PadTarget(TargetText(i.oprA.value)) + "\n";
    assert s[0] == h[0] && s[1] == h[1];
  }

  lemma EncodeBranch(i: Instruction)
    requires i.kind.Branch?
    ensures EncodeLine(i) == BranchLine(i)
  {
  }

  /** The lines of a whole program, in order, or the first failure. */
  function EncodeAll(prog: seq<Instruction>): (r: Result<seq<string>>)
    ensures r.Ok? ==> |r.value| == |prog|
    ensures r.Ok? ==> forall k :: 0 <= k < |prog| ==> EncodeLine(prog[k]) == Ok(r.value[k])
    decreases |prog|
  {
    if prog == [] then Ok([])
    else
      match EncodeAll(prog[..|prog| - 1])
      case Fail(e) => Fail(e)
      case Ok(out) =>
        match EncodeLine(prog[|prog| - 1])
        case Fail(e) => Fail(e)
        case Ok(line) =>
          EncodedSnoc(prog, out, line);
          Ok(out + [line])
  }

  lemma EncodedSnoc(prog: seq<Instruction>, out: seq<string>, line: string)
    requires |prog| == |out| + 1 && EncodeLine(prog[|prog| - 1]) == Ok(line)
    requires forall k :: 0 <= k < |out| ==> EncodeLine(prog[..|prog| - 1][k]) == Ok(out[k])
    ensures forall k :: 0 <= k < |prog| ==> EncodeLine(prog[k]) == Ok((out + [line])[k])
  {
    forall k | 0 <= k < |prog|
      ensures EncodeLine(prog[k]) == Ok((out + [line])[k])
    {
      if k < |out| {
        assert prog[k] == prog[..|prog| - 1][k];
        assert (out + [line])[k] == out[k];
      } else {
        assert k == |prog| - 1 && (out + [line])[k] == line;
      }
    }
  }

  lemma {:induction false} EncodeAllStopsAtFailure(xs: seq<Instruction>, ys: seq<Instruction>)
    requires EncodeAll(xs).Fail?
    ensures EncodeAll(xs + ys) == EncodeAll(xs)
    decreases |ys|
  {
    if ys != [] {
      assert (xs + ys)[..|xs + ys| - 1] == xs + ys[..|ys| - 1];
      EncodeAllStopsAtFailure(xs, ys[..|ys| - 1]);
    } else {
      assert xs + ys == xs;
    }
  }

  /** An instruction as `assemble` leaves it in the vector: branches padded. */
  function Padded(i: Instruction): Instruction {
    if i.kind.Branch? then PadInstruction(i) else i
  }

  /** One pass of the loop body in `assemble`: the line for `instr` and
      the instruction as left in the vector (only a branch that formats
      is padded). */
  method FormLine(instr: Instruction) returns (line: Result<string>, after: Instruction)
    ensures line == EncodeLine(instr)
    ensures after == if line.Ok? then Padded(instr) else instr
  {
    after := instr;
    match instr.kind {
      case Mal => line := FormMal(instr);
      case Ctrl => line := FormCtrl(instr);
      case Shift => line := FormShift(instr);
      case Branch => line, after := FormBranch(instr);
      case Unknown => line := Fail(UnknownInstruction(instr.inst));
    }
  }

  lemma EncodeAllStep(xs: seq<Instruction>, x: Instruction, out: seq<string>)
    requires EncodeAll(xs) == Ok(out)
    ensures EncodeLine(x).Ok? ==> EncodeAll(xs + [x]) == Ok(out + [EncodeLine(x).value])
    ensures EncodeLine(x).Fail? ==> EncodeAll(xs + [x]) == Fail(EncodeLine(x).error)
  {
    assert (xs + [x])[..|xs|] == xs;
  }

  /** The first line that fails decides the result of the whole pass. */
  lemma {:induction false} EncodeAllFailsAt(prog: seq<Instruction>, k: nat, out: seq<string>)
    requires k < |prog| && EncodeAll(prog[..k]) == Ok(out) && EncodeLine(prog[k]).Fail?
    ensures EncodeAll(prog) == Fail(EncodeLine(prog[k]).error)
    decreases |prog|
  {
    var init := prog[..|prog| - 1];
    if k == |prog| - 1 {
      assert init == prog[..k];
    } else {
      assert init[..k] == prog[..k] && init[k] == prog[k];
      EncodeAllFailsAt(init, k, out);
    }
  }

  /** The pass succeeds exactly when every instruction has a line. */
  lemma {:induction false} EncodeAllOk(prog: seq<Instruction>)
    ensures EncodeAll(prog).Ok? <==> forall k :: 0 <= k < |prog| ==> EncodeLine(prog[k]).Ok?
    decreases |prog|
  {
    if prog != [] && forall k :: 0 <= k < |prog| ==> EncodeLine(prog[k]).Ok? {
      var init := prog[..|prog| - 1];
      forall k | 0 <= k < |init| ensures EncodeLine(init[k]).Ok? {
        assert init[k] == prog[k];
      }
      EncodeAllOk(init);
      assert EncodeLine(prog[|prog| - 1]).Ok?;
    }
  }

  /** The table entries an instruction needs: its mnemonic (MAL, Ctrl),
      the mode in letters 1 and 2 (Shift) or the condition after the `B`
      (Branch). */
  predicate InTables(i: Instruction) {
    match i.kind
    case Mal => i.inst in CodeMal
    case Ctrl => i.inst in CodeCtrl
    case Shift => |i.inst| >= 3 && i.inst[1..3] in ShiftMode
    case Branch => |i.inst| >= 1 && i.inst[1..] in BranchCond
    case Unknown => false
  }

  /** An instruction of the shape the parser builds encodes exactly when
      the tables hold its entries: every other panic of the `form_*`
      functions is out of the parser's reach. */
  lemma EncodesIffInTables(i: Instruction)
    requires WellShaped(i)
    ensures EncodeLine(i).Ok? <==> InTables(i)
  {
  }

  /** A program of such instructions encodes exactly when every one of
      them finds its table entries. */
  lemma ProgramEncodes(prog: seq<Instruction>)
    requires forall k :: 0 <= k < |prog| ==> WellShaped(prog[k])
    ensures EncodeAll(prog).Ok? <==> forall k :: 0 <= k < |prog| ==> InTables(prog[k])
  {
    EncodeAllOk(prog);
    forall k | 0 <= k < |prog| ensures EncodeLine(prog[k]).Ok? <==> InTables(prog[k]) {
      EncodesIffInTables(prog[k]);
    }
  }

  /** The vector once `assemble` has visited its first `k` instructions:
      those padded, the rest untouched. */
  function PadPrefix(s: seq<Instruction>, k: nat): (r: seq<Instruction>)
    requires k <= |s|
    ensures |r| == |s|
    ensures forall j :: 0 <= j < |s| ==> r[j] == if j < k then Padded(s[j]) else s[j]
  {
    if k == 0 then s else PadPrefix(s, k - 1)[k - 1 := Padded(s[k - 1])]
  }

  /** `assemble`: visits the instructions in place, in order, formatting
      each; a branch's target is padded in the vector itself. The lines
      are returned instead of written to the output file. On a failure
      the instructions before the failing one are padded and the rest
      are untouched. */
  method Assemble(prog: array<Instruction>) returns (r: Result<seq<string>>)
    modifies prog
    ensures r == EncodeAll(old(prog[..]))
    ensures r.Ok? ==> prog[..] == PadPrefix(old(prog[..]), prog.Length)
    ensures r.Fail? ==>
      exists n :: (0 <= n < prog.Length && prog[..] == PadPrefix(old(prog[..]), n)
                   && EncodeAll(old(prog[..])[..n]).Ok? && EncodeLine(old(prog[..])[n]).Fail?)
  {
    ghost var orig := prog[..];
    var out: seq<string> := [];
    var k := 0;
    while k < prog.Length
      invariant 0 <= k <= prog.Length
      invariant EncodeAll(orig[..k]) == Ok(out)
      invariant prog[..] == PadPrefix(orig, k)
    {
      assert prog[k] == orig[k];
      var line, after := FormLine(prog[k]);
      prog[k] := after;
      if line.Fail? {
        assert prog[..] == PadPrefix(orig, k);
        EncodeAllFailsAt(orig, k, out);
        return Fail(line.error);
      }
      assert prog[..] == PadPrefix(orig, k)[k := Padded(orig[k])] == PadPrefix(orig, k + 1);
      EncodeAllStep(orig[..k], orig[k], out);
      assert orig[..k + 1] == orig[..k] + [orig[k]];
      out := out + [line.value];
      k := k + 1;
    }
    assert orig[..k] == orig;
    r := Ok(out);
  }

  // ---------------------------------------------------------------- the encoder's own operand classifiers

  /** `discern_opr_a` of src/code.rs: only the two registers. */
  function DiscernOperandA(opr: string): (r: Result<OperandA>)
    ensures r.Ok? <==> IsRegisterText(opr)
    ensures r.Ok? ==> IsRegisterA(r.value) && TargetText(r.value) == opr
    ensures r.Fail? ==> r.error == InvalidOperandA
  {
    if opr == "ACC" then Ok(OperandA.ACC)
    else if opr == "IX" then Ok(OperandA.IX)
    else Fail(InvalidOperandA)
  }

  /** `open`, one or two hex digits, `close` at the very start of `s`; two
      digits are tried first, as the greedy `{1,2}` does. The digits are
      returned. */
  function EnclosedAtStart(s: string, open: string, close: char): (r: Option<string>)
    ensures r.Some? ==>
      && IsHex12(r.value) && |s| > |open| + |r.value|
      && s[..|open|] == open && s[|open|..|open| + |r.value|] == r.value && s[|open| + |r.value|] == close
  {
    var n := |open|;
    if |s| >= n + 3 && s[..n] == open && IsHexDigit(s[n]) && IsHexDigit(s[n + 1]) && s[n + 2] == close
    then Some(s[n..n + 2])
    else if |s| >= n + 2 && s[..n] == open && IsHexDigit(s[n]) && s[n + 1] == close
    then Some(s[n..n + 1])
    else None
  }

  /** Conversely, a text that starts with `open`, one or two digits and
      the closing bracket is matched at its start, with exactly those
      digits, whatever follows. */
  lemma EnclosedAtStartComplete(s: string, open: string, d: string, close: char, rest: string)
    requires IsHex12(d) && !IsHexDigit(close)
    requires s == open + d + [close] + rest
    ensures EnclosedAtStart(s, open, close) == Some(d)
  {
    var n := |open|;
    assert s[..n] == open && s[n..n + |d|] == d && s[n + |d|] == close;
    if |d| == 1 {
      assert s[n] == d[0] && !IsHexDigit(s[n + 1]);
    } else {
      assert s[n] == d[0] && s[n + 1] == d[1];
    }
  }

  /** Unanchored, leftmost-first search for `open hh close` anywhere in
      `s`: the encoder's bracket patterns carry no `^` and `$`. It finds
      the match that starts first, and nothing when no position starts one. */
  function FindEnclosed(s: string, open: string, close: char): (r: Option<string>)
    ensures r.None? <==> forall q :: 0 <= q <= |s| ==> EnclosedAtStart(s[q..], open, close).None?
    ensures r.Some? ==> exists p :: EnclosedFoundAt(s, open, close, p, r.value)
    ensures r.Some? ==> IsHex12(r.value) && HasHexDigit(s)
    decreases |s|
  {
    match EnclosedAtStart(s, open, close)
    case Some(d) =>
      assert IsHexDigit(s[|open|]);
      assert s[0..] == s && EnclosedFoundAt(s, open, close, 0, d);
      Some(d)
    case None =>
      if s == [] then
        assert forall q :: 0 <= q <= |s| ==> s[q..] == s;
        None
      else
        var r := FindEnclosed(s[1..], open, close);
        HasHexDigitTail(s);
        EnclosedShift(s, open, close, r);
        r
  }

  /** A text without the first character of `open` holds no match. */
  lemma FindEnclosedAbsent(s: string, open: string, close: char)
    requires |open| >= 1 && forall k :: 0 <= k < |s| ==> s[k] != open[0]
    ensures FindEnclosed(s, open, close).None?
  {
    forall q | 0 <= q <= |s| ensures EnclosedAtStart(s[q..], open, close).None? {
      if q < |s| {
        assert s[q..][0] == s[q];
      }
    }
  }

  /** The leftmost match of `open hh close` in `s` starts at `p` and holds the digits `d`. */
  predicate EnclosedFoundAt(s: string, open: string, close: char, p: int, d: string) {
    && 0 <= p <= |s| && EnclosedAtStart(s[p..], open, close) == Some(d)
    && forall q :: 0 <= q < p ==> EnclosedAtStart(s[q..], open, close).None?
  }

  /** Searching past a first character that starts no match: positions
      in `s[1..]` are positions in `s` moved by one. */
  lemma EnclosedShift(s: string, open: string, close: char, r: Option<string>)
    requires s != [] && EnclosedAtStart(s, open, close).None?
    requires r.None? <==> forall q :: 0 <= q <= |s| - 1 ==> EnclosedAtStart(s[1..][q..], open, close).None?
    requires r.Some? ==> exists p :: EnclosedFoundAt(s[1..], open, close, p, r.value)
    ensures r.None? <==> forall q :: 0 <= q <= |s| ==> EnclosedAtStart(s[q..], open, close).None?
    ensures r.Some? ==> exists p :: EnclosedFoundAt(s, open, close, p, r.value)
  {
    forall q | 1 <= q <= |s| ensures s[1..][q - 1..] == s[q..] {
    }
    if r.None? {
      forall q | 0 <= q <= |s| ensures EnclosedAtStart(s[q..], open, close).None? {
        if q == 0 {
          assert s[0..] == s;
        } else {
          assert s[1..][q - 1..] == s[q..];
        }
      }
    } else {
      var p :| EnclosedFoundAt(s[1..], open, close, p, r.value);
      assert s[1..][p..] == s[p + 1..];
      forall q | 0 <= q < p + 1 ensures EnclosedAtStart(s[q..], open, close).None? {
        if q == 0 {
          assert s[0..] == s;
        } else {
          assert s[1..][q - 1..] == s[q..];
        }
      }
      assert EnclosedFoundAt(s, open, close, p + 1, r.value);
      assert !forall q :: 0 <= q <= |s| ==> EnclosedAtStart(s[q..], open, close).None?;
    }
  }

  predicate HasHexDigit(s: string) {
    exists k :: 0 <= k < |s| && IsHexDigit(s[k])
  }

  /** A hex digit after the first character is a hex digit of the text. */
  lemma HasHexDigitTail(s: string)
    requires s != []
    ensures HasHexDigit(s) <==> IsHexDigit(s[0]) || HasHexDigit(s[1..])
  {
    if HasHexDigit(s[1..]) {
      var k :| 0 <= k < |s| - 1 && IsHexDigit(s[1..][k]);
      assert IsHexDigit(s[k + 1]);
    }
    if HasHexDigit(s) && !IsHexDigit(s[0]) {
      var k :| 0 <= k < |s| && IsHexDigit(s[k]);
      assert k != 0 && s[1..][k - 1] == s[k];
    }
  }

  /** Unanchored, leftmost-first search for `[0-9a-fA-F]{1,2}`: the first
      hex digit and, greedily, the one after it if it is a hex digit too. */
  function FindHex(s: string): (r: Option<string>)
    ensures r.Some? <==> HasHexDigit(s)
    ensures r.Some? ==> IsHex12(r.value) && exists p :: HexFoundAt(s, p, r.value)
    decreases |s|
  {
    if s == [] then None
    else if IsHexDigit(s[0]) then
      assert HasHexDigit(s) by { assert IsHexDigit(s[0]); }
      if |s| >= 2 && IsHexDigit(s[1]) then
        assert HexFoundAt(s, 0, s[..2]);
        Some(s[..2])
      else
        assert HexFoundAt(s, 0, s[..1]);
        Some(s[..1])
    else
      var r := FindHex(s[1..]);
      HasHexDigitTail(s);
      if r.Some? then HexShift(s, r.value); r else r
  }

  /** `d` is the text the leftmost-first search finds in `s`, at `p`:
      no hex digit comes before `p`, and a single digit is not followed
      by another. */
  predicate HexFoundAt(s: string, p: int, d: string) {
    && 0 <= p && p + |d| <= |s| && s[p..p + |d|] == d
    && (forall q :: 0 <= q < p ==> !IsHexDigit(s[q]))
    && (|d| == 1 ==> p + 1 == |s| || !IsHexDigit(s[p + 1]))
  }

  /** A match in `s[1..]` is a match in `s` one position later, when `s[0]` is no hex digit. */
  lemma HexShift(s: string, d: string)
    requires s != [] && !IsHexDigit(s[0])
    requires exists p :: HexFoundAt(s[1..], p, d)
    ensures exists p :: HexFoundAt(s, p, d)
  {
    var p :| HexFoundAt(s[1..], p, d);
    assert s[1..][p..p + |d|] == s[p + 1..p + 1 + |d|];
    forall q | 0 <= q < p + 1 ensures !IsHexDigit(s[q]) {
      if q > 0 {
        assert s[q] == s[1..][q - 1];
      }
    }
    if |d| == 1 && p + 2 != |s| {
      assert s[p + 2] == s[1..][p + 1];
    }
    assert HexFoundAt(s, p + 1, d);
  }

  /** `discern_opr_b` of src/code.rs: `ACC`, `IX`, then the first of
      `[IX+hh]`, `(IX+hh)`, `[hh]`, `(hh)`, `hh` found ANYWHERE in the
      text. It fails only on a text with no hex digit at all. */
  function DiscernOperandB(opr: string): (r: Result<OperandB>)
    ensures r.Fail? <==> !IsRegisterText(opr) && !HasHexDigit(opr)
    ensures r.Fail? ==> r.error == InvalidOperandB
  {
    if opr == "ACC" then Ok(OperandB.ACC)
    else if opr == "IX" then Ok(OperandB.IX)
    else match FindEnclosed(opr, "[IX+", ']')
    case Some(d) => Ok(IX_PRG(HexValue(d)))
    case None => match FindEnclosed(opr, "(IX+", ')')
    case Some(d) => Ok(IX_DT(HexValue(d)))
    case None => match FindEnclosed(opr, "[", ']')
    case Some(d) => Ok(ABS_PRG(HexValue(d)))
    case None => match FindEnclosed(opr, "(", ')')
    case Some(d) => Ok(ABS_DT(HexValue(d)))
    case None => match FindHex(opr)
    case Some(d) => Ok(IMMD(HexValue(d)))
    case None => Fail(InvalidOperandB)
  }
}

/** Source text for an instruction, and the proof that the parser reads
    it back: `Recognize` is a left inverse of `Render` on the instructions
    the parser can produce, and it produces no others. */
module Syntax {
  import opened Outcomes
  import opened Hex
  import opened Instructions
  import opened Patterns
  import opened Parser
  import Code
  import Assembly
  import Tables

  /** Operand B written the way the MAL pattern expects it, with two
      upper-case digits. */
  function OperandBText(b: OperandB): (t: string)
    ensures IsOperandBText(t)
  {
    match b
    case ACC => "ACC"
    case IX => "IX"
    case IMMD(d) => Hex2(d)
    case ABS_PRG(d) => Enclose("[", d, ']')
    case ABS_DT(d) => Enclose("(", d, ')')
    case IX_PRG(d) => Enclose("[IX+", d, ']')
    case IX_DT(d) => Enclose("(IX+", d, ')')
  }

  function Enclose(open: string, d: Byte, close: char): (t: string)
    ensures IsEnclosed(t, open, close) && Inner(t, open) == Hex2(d)
  {
    var t := open + Hex2(d) + [close];
    assert t[..|open|] == open && t[|open|..|t| - 1] == Hex2(d);
    t
  }

  /** The parser's operand-B classifier reads every rendered operand back. */
  lemma OperandBRoundTrip(b: OperandB)
    ensures ClassifyOperandB(OperandBText(b)) == Ok(b)
  {
    var t := OperandBText(b);
    match b
    case ACC =>
    case IX =>
    case IMMD(d) =>
      Hex2RoundTrip(d);
      assert t[0] != '[' && t[0] != '(';
    case ABS_PRG(d) =>
      Hex2RoundTrip(d);
      assert t[1] != 'I';
    case ABS_DT(d) =>
      Hex2RoundTrip(d);
      assert t[1] != 'I';
    case IX_PRG(d) => Hex2RoundTrip(d);
    case IX_DT(d) => Hex2RoundTrip(d);
  }

  /** Every operand-B form holding one or two digits of either case is
      read as that form with the digits' value, not only the two
      upper-case digits `OperandBText` writes. */
  lemma DigitOperandsClassified(h: string)
    requires IsHex12(h)
    ensures ClassifyOperandB(h) == Ok(IMMD(HexValue(h)))
    ensures ClassifyOperandB("[" + h + "]") == Ok(ABS_PRG(HexValue(h)))
    ensures ClassifyOperandB("(" + h + ")") == Ok(ABS_DT(HexValue(h)))
    ensures ClassifyOperandB("[IX+" + h + "]") == Ok(IX_PRG(HexValue(h)))
    ensures ClassifyOperandB("(IX+" + h + ")") == Ok(IX_DT(HexValue(h)))
  {
    ImmediateClassified(h);
    AbsoluteClassified(h, "[", ']');
    AbsoluteClassified(h, "(", ')');
    IndexedClassified(h, "[IX+", ']');
    IndexedClassified(h, "(IX+", ')');
  }

  lemma ImmediateClassified(h: string)
    requires IsHex12(h)
    ensures ClassifyOperandB(h) == Ok(IMMD(HexValue(h)))
  {
    assert h[0] != '[' && h[0] != '(' && h != "ACC" && h != "IX";
  }

  lemma AbsoluteClassified(h: string, open: string, close: char)
    requires IsHex12(h) && (open, close) in {("[", ']'), ("(", ')')}
    ensures ClassifyOperandB(open + h + [close]) ==
      Ok(if open == "[" then ABS_PRG(HexValue(h)) else ABS_DT(HexValue(h)))
  {
    var t := open + h + [close];
    EnclosedComplete(h, open, close);
    assert t[0] == open[0] && t[1] == h[0] && h[0] != 'I';
    assert !IsIxPrgText(t) && !IsIxDtText(t);
    assert !IsRegisterText(t);
  }

  lemma IndexedClassified(h: string, open: string, close: char)
    requires IsHex12(h) && (open, close) in {("[IX+", ']'), ("(IX+", ')')}
    ensures ClassifyOperandB(open + h + [close]) ==
      Ok(if open == "[IX+" then IX_PRG(HexValue(h)) else IX_DT(HexValue(h)))
  {
    var t := open + h + [close];
    EnclosedComplete(h, open, close);
    assert t[0] == open[0] && !IsRegisterText(t);
  }

  /** The encoder's unanchored classifier reads them the same way. */
  lemma EncoderDigitOperands(h: string)
    requires IsHex12(h)
    ensures Code.DiscernOperandB(h) == Ok(IMMD(HexValue(h)))
    ensures Code.DiscernOperandB("[" + h + "]") == Ok(ABS_PRG(HexValue(h)))
    ensures Code.DiscernOperandB("(" + h + ")") == Ok(ABS_DT(HexValue(h)))
    ensures Code.DiscernOperandB("[IX+" + h + "]") == Ok(IX_PRG(HexValue(h)))
    ensures Code.DiscernOperandB("(IX+" + h + ")") == Ok(IX_DT(HexValue(h)))
  {
    DigitOperandsClassified(h);
    Assembly.OperandBAgreement(h);
    Assembly.OperandBAgreement("[" + h + "]");
    Assembly.OperandBAgreement("(" + h + ")");
    Assembly.OperandBAgreement("[IX+" + h + "]");
    Assembly.OperandBAgreement("(IX+" + h + ")");
  }

  /** The instructions the parser can produce: the mnemonic fits its
      pattern, operands of the expected forms, and a label target that is
      neither a register name nor readable as hex (those would be read as
      the register or as an address). */
  predicate Parseable(i: Instruction) {
    match i.kind
    case Mal => IsMnemonic23(i.inst) && i.oprA.Some? && IsRegisterA(i.oprA.value) && i.oprB.Some?
    case Branch =>
      IsBranchMnemonic(i.inst) && i.oprA.Some? && i.oprB.None?
      && (i.oprA.value.Symbol? ==>
            IsUpperWord(i.oprA.value.name) && !IsHex12(i.oprA.value.name) && !IsRegisterText(i.oprA.value.name))
    case Shift => IsShiftMnemonic(i.inst) && i.oprA.Some? && IsRegisterA(i.oprA.value) && i.oprB.None?
    case Ctrl => IsCtrlLine(i.inst) && i.oprA.None? && i.oprB.None?
    case Unknown => false
  }

  /** One source line for an instruction. */
  function Render(i: Instruction): string
    requires Parseable(i)
  {
    match i.kind
    case Mal => i.inst + " " + Code.TargetText(i.oprA.value) + " " + OperandBText(i.oprB.value)
    case Branch => i.inst + " " + Code.TargetText(i.oprA.value)
    case Shift => i.inst + " " + Code.TargetText(i.oprA.value)
    case Ctrl => i.inst
  }

  /** The parser's operand-A classifier reads a rendered operand back. */
  lemma OperandARoundTrip(a: OperandA)
    requires a.Symbol? ==> IsUpperWord(a.name) && !IsHex12(a.name) && !IsRegisterText(a.name)
    ensures DiscernOperandA(Code.TargetText(a)) == Ok(a)
    ensures IsTargetText(Code.TargetText(a))
  {
    if a.Dest? {
      Hex2RoundTrip(a.addr);
    }
  }

  lemma RenderedNoLabel(i: Instruction)
    requires Parseable(i)
    ensures MatchLabel(Render(i)).None?
  {
    var line := Render(i);
    if i.kind.Ctrl? {
      assert line[|line| - 1] != ':';
    } else {
      var k := |i.inst|;
      assert k < |line| - 1 && line[..|line| - 1][k] == ' ';
      assert !IsUpperWord(line[..|line| - 1]);
    }
  }

  /** Reading a rendered instruction gives the instruction back, and the
      line is not taken for a label. */
  lemma RenderRoundTrip(i: Instruction)
    requires Parseable(i)
    ensures Recognize(Render(i)) == Ok(i)
    ensures MatchLabel(Render(i)).None?
  {
    var line := Render(i);
    RenderedNoLabel(i);
    PatternsDisjoint(line);
    match i.kind
    case Mal =>
      var a, b := Code.TargetText(i.oprA.value), OperandBText(i.oprB.value);
      MalComplete(i.inst, a, b);
      OperandARoundTrip(i.oprA.value);
      OperandBRoundTrip(i.oprB.value);
    case Branch =>
      var a := Code.TargetText(i.oprA.value);
      OperandARoundTrip(i.oprA.value);
      BranchComplete(i.inst, a);
    case Shift =>
      var a := Code.TargetText(i.oprA.value);
      OperandARoundTrip(i.oprA.value);
      ShiftComplete(i.inst, a);
    case Ctrl =>
  }

  /** Conversely, everything the parser recognizes is parseable. */
  lemma RecognizedParseable(line: string)
    requires Recognize(line).Ok?
    ensures Parseable(Recognize(line).value)
  {
    RecognizeKinds(line);
    var i := Recognize(line).value;
    if i.kind.Branch? {
      var p := MatchBranch(line).value;
      assert i.oprA == Some(DiscernOperandA(p.target).value);
    }
  }

  /** The encoder's own, unanchored classifier reads every rendered
      operand back too. */
  lemma EncoderOperandBRoundTrip(b: OperandB)
    ensures Code.DiscernOperandB(OperandBText(b)) == Ok(b)
  {
    OperandBRoundTrip(b);
    Assembly.OperandBAgreement(OperandBText(b));
  }

  // ---------------------------------------------------------------- examples

  /** `LD ACC 3F` is a load of the accumulator with an immediate. */
  lemma LoadImmediateParsed()
    ensures Recognize("LD ACC 3F") == Ok(Instruction(Mal, "LD", Some(OperandA.ACC), Some(IMMD(0x3F))))
  {
    var i := Instruction(Mal, "LD", Some(OperandA.ACC), Some(IMMD(0x3F)));
    assert Hex2(0x3F) == "3F";
    assert Render(i) == "LD ACC 3F";
    RenderRoundTrip(i);
  }

  /** An immediate operand adds 2 to the base: `LD ACC 3F` is `62 3F`. */
  lemma LoadImmediateEncoded()
    ensures Code.EncodeLine(Instruction(Mal, "LD", Some(OperandA.ACC), Some(IMMD(0x3F)))) == Ok("62 3F\n")
  {
    var i := Instruction(Mal, "LD", Some(OperandA.ACC), Some(IMMD(0x3F)));
    assert Hex2(0x3F) == "3F";
    assert Hex2(0x62) == "62";
    assert Code.MalOpcode("LD", OperandA.ACC, IMMD(0x3F)) == 0x62;
    assert Code.MalBytes(i) == Ok([0x62, 0x3F]);
    Code.HexLineTwo(0x62, 0x3F);
    assert Code.EncodeLine(i) == Ok(HexLine([0x62, 0x3F]));
    var x := "62" + " " + "3F" + "\n";
    assert |x| == 6 && x[0] == '6' && x[1] == '2' && x[2] == ' ' && x[3] == '3' && x[4] == 'F' && x[5] == '\n';
    assert x == "62 3F\n";
  }

  /** The parser accepts any one- or two-letter condition after `B`, so
      `BX 05` passes pass 1 ... */
  lemma UnknownConditionParsed()
    ensures Recognize("BX 05") == Ok(Instruction(Branch, "BX", Some(Dest(5)), None))
  {
    var i := Instruction(Branch, "BX", Some(Dest(5)), None);
    assert Hex2(5) == "05";
    assert Render(i) == "BX 05";
    RenderRoundTrip(i);
  }

  /** ... and then fails in the encoder's table lookup. */
  lemma UnknownConditionEncoded()
    ensures Code.EncodeLine(Instruction(Branch, "BX", Some(Dest(5)), None)) == Fail(MissingKey("X"))
  {
    var i := Instruction(Branch, "BX", Some(Dest(5)), None);
    assert i.inst[1..] == "X" && "X" !in Tables.BranchCond;
    assert Code.BranchOpcode(i) == Fail(MissingKey("X"));
  }

  /** A label made of hex letters is read as an address: `BA AB` jumps to
      0xAB, never to a label `AB`. */
  lemma HexLookingLabelExample()
    ensures Recognize("BA AB") == Ok(Instruction(Branch, "BA", Some(Dest(0xAB)), None))
  {
    var i := Instruction(Branch, "BA", Some(Dest(0xAB)), None);
    assert Hex2(0xAB) == "AB";
    assert Render(i) == "BA AB";
    RenderRoundTrip(i);
  }

  /** A branch to a label prints the label's name, not an address, and a
      one-letter label is padded with a `0`: `BA X` becomes `30 0X`. */
  lemma ShortLabelParsed()
    ensures Recognize("BA X") == Ok(Instruction(Branch, "BA", Some(Symbol("X")), None))
  {
    var i := Instruction(Branch, "BA", Some(Symbol("X")), None);
    assert "X"[0] == 'X' && !IsHexDigit('X') && IsUpper('X');
    assert IsUpperWord("X") && !IsHex12("X");
    assert Render(i) == "BA X";
    RenderRoundTrip(i);
  }

  lemma ShortLabelEncoded()
    ensures Code.EncodeLine(Instruction(Branch, "BA", Some(Symbol("X")), None)) == Ok("30 0X\n")
  {
    ShortLabelText();
    ShortLabelShape();
    BranchAlwaysEncoded(Symbol("X"), "0X", "30 0X\n");
  }

  lemma ShortLabelShape()
    ensures SpelledLine("0X", "30 0X\n")
  {
  }

  lemma ShortLabelText()
    ensures Code.PadTarget(Code.TargetText(Symbol("X"))) == "0X"
  {
    assert Code.TargetText(Symbol("X")) == "X";
    assert "0" + "X" == "0X";
  }

  /** A one-digit address is read by its value: `BA 5` branches to 0x05 ... */
  lemma OneDigitTargetParsed()
    ensures Recognize("BA 5") == Ok(Instruction(Branch, "BA", Some(Dest(5)), None))
  {
    var line := "BA 5";
    assert line == "BA" + " " + "5";
    assert IsBranchMnemonic("BA") && IsHex12("5") && IsTargetText("5");
    BranchComplete("BA", "5");
    PatternsDisjoint(line);
    assert HexValue("5") == 5;
  }

  /** ... and the encoder writes that address back with two digits: `30 05`. */
  lemma OneDigitTargetEncoded()
    ensures Code.EncodeLine(Instruction(Branch, "BA", Some(Dest(5)), None)) == Ok("30 05\n")
  {
    AddressFiveText();
    AddressFiveShape();
    BranchAlwaysEncoded(Dest(5), "05", "30 05\n");
  }

  lemma AddressFiveShape()
    ensures SpelledLine("05", "30 05\n")
  {
  }

  lemma AddressFiveText()
    ensures Code.PadTarget(Code.TargetText(Dest(5))) == "05"
  {
    assert HexChar(0) == '0' && HexChar(5) == '5';
    assert Hex2(5) == "05";
  }

  /** `BA` to `target` is written as `line`, when `line` is the opcode 30,
      a space, the padded target and a newline. */
  lemma BranchAlwaysEncoded(target: OperandA, operand: string, line: string)
    requires Code.PadTarget(Code.TargetText(target)) == operand
    requires SpelledLine(operand, line)
    ensures Code.EncodeLine(Instruction(Branch, "BA", Some(target), None)) == Ok(line)
  {
    BranchAlwaysLine(target, operand);
    SpellLine(operand, line);
  }

  /** `line` is `30`, a space, `operand` and a newline. */
  predicate SpelledLine(operand: string, line: string) {
    |line| == |operand| + 4 && line[..3] == "30 " && line[|line| - 1] == '\n' && line[3..|line| - 1] == operand
  }

  /** The opcode 30 followed by an operand, spelled as one literal. */
  lemma SpellLine(operand: string, line: string)
    requires SpelledLine(operand, line)
    ensures Hex2(0x30) + " " + operand + "\n" == line
  {
    assert Hex2(0x30) == "30";
    var x := Hex2(0x30) + " " + operand + "\n";
    assert x[..3] == line[..3] && x[3..|x| - 1] == line[3..|line| - 1];
    assert x == x[..3] + x[3..|x| - 1] + [x[|x| - 1]];
    assert line == line[..3] + line[3..|line| - 1] + [line[|line| - 1]];
  }

  /** An unconditional branch: its line before the digits of the opcode
      are spelled out. */
  lemma BranchAlwaysLine(target: OperandA, padded: string)
    requires Code.PadTarget(Code.TargetText(target)) == padded
    ensures Code.EncodeLine(Instruction(Branch, "BA", Some(target), None)) == Ok(Hex2(0x30) + " " + padded + "\n")
  {
    var i := Instruction(Branch, "BA", Some(target), None);
    BranchAlwaysOpcode(i);
    Code.EncodeBranch(i);
    assert Code.BranchLine(i).Ok?;
  }

  lemma BranchAlwaysOpcode(i: Instruction)
    requires i.inst == "BA"
    ensures Code.BranchOpcode(i) == Ok(0x30)
  {
    assert i.inst[1..] == "A" && Tables.BranchCond["A"] == 0;
  }

  /** The line written for a branch to a label holds the label's name
      (`BA LOOP` is written `30 LOOP`), so it does not read back as bytes. */
  lemma LabelLineNotHex()
    ensures DecodeHexLine("30 LOOP\n") == None
  {
    var line := "30 LOOP\n";
    var body := line[..|line| - 1];
    assert body == "30 LOOP";
    assert body[3..] == "LOOP" && !IsUpperHexDigit('L');
    assert DecodeHexBytes("LOOP") == None;
    assert DecodeHexBytes(body) == None;
  }

  /** The encoder's bracket patterns are not anchored at the end: `(5)x`
      is read as the absolute data address 5. */
  lemma TrailingTextExample()
    ensures Code.FindEnclosed("(5)x", "(", ')') == Some("5")
    ensures Code.DiscernOperandB("(5)x") == Ok(ABS_DT(5))
  {
    TrailingTextFound();
    TrailingTextOtherForms();
    assert HexValue("5") == 5;
  }

  lemma TrailingTextFound()
    ensures Code.FindEnclosed("(5)x", "(", ')') == Some("5")
  {
    var s := "(5)x";
    assert s == "(" + "5" + [')'] + "x";
    Code.EnclosedAtStartComplete(s, "(", "5", ')', "x");
  }

  lemma TrailingTextOtherForms()
    ensures Code.FindEnclosed("(5)x", "[IX+", ']').None?
    ensures Code.FindEnclosed("(5)x", "(IX+", ')').None?
    ensures Code.FindEnclosed("(5)x", "[", ']').None?
  {
    var s := "(5)x";
    assert forall k :: 0 <= k < |s| ==> s[k] != '[';
    Code.FindEnclosedAbsent(s, "[IX+", ']');
    Code.FindEnclosedAbsent(s, "[", ']');
    assert s[..4] != "(IX+";
    assert Code.EnclosedAtStart(s, "(IX+", ')').None?;
    assert forall k :: 0 <= k < |s[1..]| ==> s[1..][k] != '(';
    Code.FindEnclosedAbsent(s[1..], "(IX+", ')');
  }

  /** A target of three hex digits matches no pattern at all, so it is
      rejected rather than cut to two digits. */
  lemma ThreeDigitTargetExample()
    ensures Recognize("BA 123") == Fail(UnknownInstruction("BA 123"))
  {
    var line := "BA 123";
    ThreeDigitNotBranch();
    ThreeDigitNotMal();
    assert line[..3] == "BA " && !IsShiftMnemonic(line[..3]);
    assert MatchShift(line) == None;
    assert !IsUpper(line[2]) && !IsCtrlLine(line);
  }

  lemma ThreeDigitNotBranch()
    ensures MatchBranch("BA 123") == None
  {
    var line := "BA 123";
    assert line[3..] == "123" && !IsUpper(line[3..][0]);
    assert !IsHex12(line[3..]) && !IsUpperWord(line[3..]);
  }

  lemma ThreeDigitNotMal()
    ensures MatchMal("BA 123") == None
  {
    var line := "BA 123";
    MalSpaces(line);
    SpaceCountAppend("BA", " 123");
    NoSpaceCount("BA");
    SpaceCountAppend(" ", "123");
    NoSpaceCount("123");
    assert " 123" == " " + "123" && line == "BA" + " 123";
  }
}

/** The two passes together: the encoder's classifiers agree with the
    parser's on every text the parser accepts, each encoded line has as
    many fields as the parser counted bytes for it, and so a label's value
    is the number of bytes written before it. */
module Assembly {
  import opened Outcomes
  import opened Hex
  import opened Instructions
  import opened Patterns
  import opened Parser
  import Code
  import Tables

  // ---------------------------------------------------------------- the two classifiers

  /** On every operand text the parser's MAL pattern accepts, the
      encoder's unanchored classifier finds the same operand as the
      parser's anchored one, so encoding the typed operand loses nothing. */
  lemma OperandBAgreement(t: string)
    requires IsOperandBText(t)
    ensures Code.DiscernOperandB(t) == ClassifyOperandB(t)
  {
    if IsRegisterText(t) {
    } else if IsIxPrgText(t) {
      FoundAtStart(t, "[IX+", ']');
    } else if IsIxDtText(t) {
      EnclosedLacks(t, "(IX+", ')', '[');
      NotFound(t, "[IX+", ']', '[');
      FoundAtStart(t, "(IX+", ')');
    } else if IsAbsPrgText(t) {
      EnclosedLacks(t, "[", ']', '(');
      NotFoundAfterFirst(t, "[IX+", ']');
      NotFound(t, "(IX+", ')', '(');
      FoundAtStart(t, "[", ']');
    } else if IsAbsDtText(t) {
      EnclosedLacks(t, "(", ')', '[');
      NotFound(t, "[IX+", ']', '[');
      NotFoundAfterFirst(t, "(IX+", ')');
      NotFound(t, "[", ']', '[');
      FoundAtStart(t, "(", ')');
    } else {
      HexAgreement(t);
    }
  }

  /** A bare one- or two-digit operand holds no bracket, so only the
      immediate search finds something. */
  lemma HexAgreement(t: string)
    requires IsHex12(t) && !IsRegisterText(t)
    ensures Code.DiscernOperandB(t) == ClassifyOperandB(t)
  {
    EnclosedNotInDigits(t, "[IX+", ']');
    EnclosedNotInDigits(t, "(IX+", ')');
    EnclosedNotInDigits(t, "[", ']');
    EnclosedNotInDigits(t, "(", ')');
  }

  /** An enclosed text holds no character that is neither in its opening
      part, nor its closing bracket, nor a hex digit. */
  lemma EnclosedLacks(t: string, open: string, close: char, c: char)
    requires IsEnclosed(t, open, close)
    requires forall k :: 0 <= k < |open| ==> open[k] != c
    requires c != close && !IsHexDigit(c)
    ensures forall k :: 0 <= k < |t| ==> t[k] != c
  {
    var d := Inner(t, open);
    forall k | 0 <= k < |t|
      ensures t[k] != c
    {
      if k < |open| {
        assert t[k] == t[..|open|][k];
      } else if k < |t| - 1 {
        assert t[k] == d[k - |open|];
      }
    }
  }

  /** The encoder's operand-A classifier agrees with the parser's on the
      register texts, the only ones a MAL or shift line carries. */
  lemma OperandAAgreement(t: string)
    requires IsRegisterText(t)
    ensures Code.DiscernOperandA(t) == DiscernOperandA(t)
    ensures Code.DiscernOperandA(t).Ok? && IsRegisterA(Code.DiscernOperandA(t).value)
  {
  }

  /** The encoder's classifier is more lenient than the parser's: it
      finds a digit anywhere in the text. */
  lemma EncoderAcceptsMore()
    ensures Code.DiscernOperandB("G5") == Ok(IMMD(5))
    ensures ClassifyOperandB("G5") == Fail(InvalidOperandB)
  {
    assert !IsHexDigit('G') && IsHexDigit('5');
    assert Code.FindHex("G5") == Code.FindHex("5") by { assert "G5"[1..] == "5"; }
    assert Code.FindHex("5") == Some("5") by { assert "5"[..1] == "5"; }
    assert !Code.HasHexDigit([]) && !Code.HasHexDigit("G");
    EnclosedNotInDigits("G5", "[IX+", ']');
    EnclosedNotInDigits("G5", "(IX+", ')');
    EnclosedNotInDigits("G5", "[", ']');
    EnclosedNotInDigits("G5", "(", ')');
    assert !IsHex12("G5");
  }

  lemma FoundAtStart(t: string, open: string, close: char)
    requires IsEnclosed(t, open, close)
    ensures Code.FindEnclosed(t, open, close) == Some(Inner(t, open))
  {
    var n := |open|;
    var d := Inner(t, open);
    assert t == open + d + [close];
    if |d| == 2 {
      assert t[n] == d[0] && t[n + 1] == d[1] && t[n + 2] == close;
    } else {
      assert t[n] == d[0] && t[n + 1] == close;
    }
  }

  /** No match can start where `open`'s first character is absent. */
  lemma {:induction false} NotFound(t: string, open: string, close: char, first: char)
    requires |open| >= 1 && open[0] == first
    requires forall k :: 0 <= k < |t| ==> t[k] != first
    ensures Code.FindEnclosed(t, open, close) == None
    decreases |t|
  {
    if |t| > 0 {
      NotFound(t[1..], open, close, first);
    }
  }

  /** A bracketed address has its only opening bracket in front, and no
      `IX+` follows it. */
  lemma NotFoundAfterFirst(t: string, open: string, close: char)
    requires |open| == 4 && open[1..] == "IX+"
    requires IsEnclosed(t, open[..1], close) && close != open[0] && !IsHexDigit(open[0])
    ensures Code.FindEnclosed(t, open, close) == None
  {
    var d := Inner(t, open[..1]);
    assert t[1] == d[0] && IsHexDigit(t[1]) && t[1] != 'I';
    assert Code.EnclosedAtStart(t, open, close) == None;
    forall k | 0 <= k < |t[1..]|
      ensures t[1..][k] != open[0]
    {
      if k < |t| - 2 {
        assert t[1..][k] == d[k];
      }
    }
    NotFound(t[1..], open, close, open[0]);
  }

  /** Text made of letters and digits holds no bracket. */
  lemma EnclosedNotInDigits(t: string, open: string, close: char)
    requires |open| >= 1 && (open[0] == '[' || open[0] == '(')
    requires forall k :: 0 <= k < |t| ==> IsHexDigit(t[k]) || IsUpper(t[k])
    ensures Code.FindEnclosed(t, open, close) == None
  {
    NotFound(t, open, close, open[0]);
  }

  // ---------------------------------------------------------------- widths

  /** The instructions the parser builds: well shaped, and a label
      target is an upper-case word. */
  predicate Parsed(i: Instruction) {
    WellShaped(i) && (i.oprA.Some? && i.oprA.value.Symbol? ==> IsUpperWord(i.oprA.value.name))
  }

  lemma RecognizedParsed(line: string)
    requires Recognize(line).Ok?
    ensures Parsed(Recognize(line).value)
  {
    RecognizeKinds(line);
  }

  predicate Spaceless(s: string) {
    forall k :: 0 <= k < |s| ==> s[k] != ' '
  }

  /** Fields of an output line: the texts its single spaces separate. */
  function Fields(line: string): nat {
    SpaceCount(line) + 1
  }

  lemma Hex2Spaceless(b: Byte)
    ensures Spaceless(Hex2(b)) && SpaceCount(Hex2(b)) == 0
  {
    NoSpaceCount(Hex2(b));
  }

  /** An output line of n bytes has n fields. */
  lemma {:induction false} HexBytesFields(bytes: seq<Byte>)
    requires |bytes| >= 1
    ensures SpaceCount(HexBytes(bytes)) == |bytes| - 1
    decreases |bytes|
  {
    Hex2Spaceless(bytes[0]);
    if |bytes| > 1 {
      HexBytesFields(bytes[1..]);
      SpaceCountAppend(Hex2(bytes[0]) + " ", HexBytes(bytes[1..]));
      SpaceCountAppend(Hex2(bytes[0]), " ");
    }
  }

  lemma HexLineFields(bytes: seq<Byte>)
    requires |bytes| >= 1
    ensures Fields(HexLine(bytes)) == |bytes|
  {
    HexBytesFields(bytes);
    SpaceCountAppend(HexBytes(bytes), "\n");
  }

  /** A branch line has two fields: the opcode and the target, which
      holds no space whether it is an address, a register or a label. */
  lemma TargetSpaceless(a: OperandA)
    requires a.Symbol? ==> IsUpperWord(a.name)
    ensures Spaceless(Code.PadTarget(Code.TargetText(a)))
  {
    var t := Code.TargetText(a);
    if a.Symbol? {
      assert forall k :: 0 <= k < |a.name| ==> IsUpper(a.name[k]);
    } else if a.Dest? {
      Hex2Spaceless(a.addr);
    }
    assert Spaceless(t);
  }

  lemma BranchFields(op: Byte, a: OperandA)
    requires a.Symbol? ==> IsUpperWord(a.name)
    ensures Fields(Hex2(op) + " " + Code.PadTarget(Code.TargetText(a)) + "\n") == 2
  {
    var t := Code.PadTarget(Code.TargetText(a));
    TargetSpaceless(a);
    Hex2Spaceless(op);
    WordSpaceWord(Hex2(op), t);
    SpaceCountAppend(Hex2(op) + " " + t, "\n");
  }

  /** The line the encoder writes for an instruction has as many fields as
      the parser added to the program counter for it: MAL 1 or 2, control
      1, shift 1, branch 2. */
  lemma EncodedFields(i: Instruction)
    requires Parsed(i) && Code.EncodeLine(i).Ok?
    ensures Fields(Code.EncodeLine(i).value) == Width(i)
  {
    match i.kind
    case Mal =>
      assert Code.EncodeLine(i) == Code.AsLine(Code.MalBytes(i));
      HexLineFields(Code.MalBytes(i).value);
    case Ctrl =>
      assert Code.EncodeLine(i) == Code.FormCtrl(i);
      HexLineFields([Tables.CodeCtrl[i.inst]]);
    case Shift =>
      assert Code.EncodeLine(i) == Ok(HexLine([Code.ShiftOpcode(i).value]));
      HexLineFields([Code.ShiftOpcode(i).value]);
    case Branch =>
      assert Code.EncodeLine(i) == Code.BranchLine(i);
      BranchFields(Code.BranchOpcode(i).value, i.oprA.value);
  }

  /** When a branch target is an address, every line is plain bytes:
      reading it back gives exactly as many bytes as the instruction's width. */
  lemma EncodedBytes(i: Instruction)
    requires WellShaped(i) && Code.EncodeLine(i).Ok?
    requires i.kind.Branch? ==> i.oprA.value.Dest?
    ensures var bytes := DecodeHexLine(Code.EncodeLine(i).value);
      bytes.Some? && |bytes.value| == Width(i)
  {
    var line := Code.EncodeLine(i).value;
    var bs: seq<Byte>;
    match i.kind {
      case Mal =>
        assert Code.EncodeLine(i) == Code.AsLine(Code.MalBytes(i));
        bs := Code.MalBytes(i).value;
      case Ctrl =>
        assert Code.EncodeLine(i) == Code.FormCtrl(i);
        bs := [Tables.CodeCtrl[i.inst]];
      case Shift =>
        assert Code.EncodeLine(i) == Ok(HexLine([Code.ShiftOpcode(i).value]));
        bs := [Code.ShiftOpcode(i).value];
      case Branch =>
        assert Code.EncodeLine(i) == Code.BranchLine(i);
        var v := i.oprA.value.addr;
        bs := [Code.BranchOpcode(i).value, v];
        Code.HexLineTwo(bs[0], v);
    }
    assert |bs| == Width(i);
    assert line == HexLine(bs);
    HexLineRoundTrip(bs, line);
  }

  // ---------------------------------------------------------------- whole programs

  /** Fields written for a run of output lines. */
  function TotalFields(out: seq<string>): nat
    decreases |out|
  {
    if out == [] then 0 else TotalFields(out[..|out| - 1]) + Fields(out[|out| - 1])
  }

  predicate AllParsed(prog: seq<Instruction>) {
    forall k :: 0 <= k < |prog| ==> Parsed(prog[k])
  }

  /** The encoder writes as many fields for a program as the parser
      counted bytes for it. */
  lemma {:induction false} ProgramFields(prog: seq<Instruction>)
    requires AllParsed(prog) && Code.EncodeAll(prog).Ok?
    ensures AllWellShaped(prog) && TotalFields(Code.EncodeAll(prog).value) == SumWidths(prog)
    decreases |prog|
  {
    if prog != [] {
      var init := prog[..|prog| - 1];
      assert AllParsed(init) by {
        forall k | 0 <= k < |init| ensures Parsed(init[k]) {
          assert init[k] == prog[k];
        }
      }
      ProgramFields(init);
      var out := Code.EncodeAll(prog).value;
      assert out[..|out| - 1] == Code.EncodeAll(init).value;
      EncodedFields(prog[|prog| - 1]);
    }
  }

  lemma {:induction false} EncodeAllPrefix(prog: seq<Instruction>, n: nat)
    requires Code.EncodeAll(prog).Ok? && n <= |prog|
    ensures Code.EncodeAll(prog[..n]) == Ok(Code.EncodeAll(prog).value[..n])
    decreases |prog|
  {
    if n < |prog| {
      var init := prog[..|prog| - 1];
      var out := Code.EncodeAll(prog).value;
      assert Code.EncodeAll(init).Ok?;
      var before := Code.EncodeAll(init).value;
      assert out == before + [Code.EncodeLine(prog[|prog| - 1]).value];
      assert out[..|prog| - 1] == before;
      EncodeAllPrefix(init, n);
      assert init[..n] == prog[..n];
      assert before[..n] == out[..n];
    } else {
      assert prog[..n] == prog;
      assert Code.EncodeAll(prog).value[..n] == Code.EncodeAll(prog).value;
    }
  }

  lemma {:induction false} RecognizeAllPrefix(lines: seq<string>, n: nat)
    requires RecognizeAll(lines).Ok? && n <= |lines|
    ensures RecognizeAll(lines[..n]) == Ok(RecognizeAll(lines).value[..n])
    decreases |lines|
  {
    if n < |lines| {
      var init := lines[..|lines| - 1];
      var all := RecognizeAll(lines).value;
      assert RecognizeAll(init).Ok?;
      var before := RecognizeAll(init).value;
      assert all == before + [Recognize(lines[|lines| - 1]).value];
      assert all[..|lines| - 1] == before;
      RecognizeAllPrefix(init, n);
      assert init[..n] == lines[..n];
      assert before[..n] == all[..n];
    } else {
      assert lines[..n] == lines;
      assert RecognizeAll(lines).value[..n] == RecognizeAll(lines).value;
    }
  }

  lemma {:induction false} NonLabelAppend(xs: seq<string>, ys: seq<string>)
    ensures NonLabel(xs + ys) == NonLabel(xs) + NonLabel(ys)
    decreases |ys|
  {
    if ys == [] {
      assert xs + ys == xs;
    } else {
      var init := ys[..|ys| - 1];
      assert (xs + ys)[..|xs + ys| - 1] == xs + init;
      NonLabelAppend(xs, init);
    }
  }

  /** The non-label lines above line j come first among all non-label lines. */
  lemma NonLabelPrefix(lines: seq<string>, j: nat)
    requires j <= |lines|
    ensures var n := |NonLabel(lines[..j])|;
      n <= |NonLabel(lines)| && NonLabel(lines)[..n] == NonLabel(lines[..j])
  {
    assert lines == lines[..j] + lines[j..];
    NonLabelAppend(lines[..j], lines[j..]);
  }

  /** Every program the parser builds from text is made of parsed instructions. */
  lemma RecognizeAllParsed(lines: seq<string>)
    requires RecognizeAll(lines).Ok?
    ensures AllParsed(RecognizeAll(lines).value)
  {
    forall k | 0 <= k < |lines|
      ensures Parsed(RecognizeAll(lines).value[k])
    {
      RecognizedParsed(lines[k]);
    }
  }

  /** End to end: after both passes over a source file, the address the
      symbol table holds for a label is the number of output fields
      (bytes, a label target counting as one) written for the
      instructions above its last declaration. */
  lemma LabelIsOffset(lines: seq<string>, symbolTable: map<string, Byte>, j: nat)
    requires ParseLines(Pass1([], symbolTable, 0), lines).Ok?
    requires Code.EncodeAll(ParseLines(Pass1([], symbolTable, 0), lines).value.prog).Ok?
    requires j < |lines| && MatchLabel(lines[j]).Some?
    requires forall k :: j < k < |lines| ==> MatchLabel(lines[k]) != MatchLabel(lines[j])
    ensures var s := ParseLines(Pass1([], symbolTable, 0), lines).value;
      var out := Code.EncodeAll(s.prog).value;
      var n := |NonLabel(lines[..j])|;
      && n <= |out| && MatchLabel(lines[j]).value in s.symbols
      && s.symbols[MatchLabel(lines[j]).value] == TotalFields(out[..n])
  {
    var st := Pass1([], symbolTable, 0);
    var s := ParseLines(st, lines).value;
    var out := Code.EncodeAll(s.prog).value;
    var n := |NonLabel(lines[..j])|;
    ParseLinesResult(st, lines);
    LabelAddress(st, lines, j);
    var all := NonLabel(lines);
    assert s.prog == RecognizeAll(all).value;
    NonLabelPrefix(lines, j);
    RecognizeAllPrefix(all, n);
    EncodeAllPrefix(s.prog, n);
    RecognizeAllParsed(NonLabel(lines[..j]));
    ProgramFields(s.prog[..n]);
  }

  // ---------------------------------------------------------------- label resolution (an addition)

  /** An addition, not in the source: a branch encoder that looks a label
      target up in the table pass 1 built and prints its address, and
      fails on an undeclared label. (`form_branch` prints the label's name
      instead.) A register is not an address, so it fails too. */
  function ResolvedBranchBytes(i: Instruction, symbols: map<string, Byte>): (r: Result<seq<Byte>>)
    ensures r.Ok? ==> |r.value| == 2 && Code.BranchOpcode(i) == Ok(r.value[0]) && i.oprA.Some?
    ensures r.Ok? && i.oprA.value.Symbol? ==>
      i.oprA.value.name in symbols && r.value[1] == symbols[i.oprA.value.name]
    ensures r.Ok? && i.oprA.value.Dest? ==> r.value[1] == i.oprA.value.addr
    ensures Code.BranchOpcode(i).Ok? && i.oprA.Some? && i.oprA.value.Symbol? && i.oprA.value.name !in symbols
      ==> r == Fail(MissingSymbol(i.oprA.value.name))
  {
    match Code.BranchOpcode(i)
    case Fail(e) => Fail(e)
    case Ok(op) =>
      if i.oprA.None? then Fail(InvalidOperandA)
      else match i.oprA.value
        case Dest(v) => Ok([op, v])
        case Symbol(name) => if name in symbols then Ok([op, symbols[name]]) else Fail(MissingSymbol(name))
        case ACC => Fail(InvalidOperandA)
        case IX => Fail(InvalidOperandA)
  }

  /** Where the source prints bytes (an address target), the resolving
      encoder prints the same line. */
  lemma ResolvedAgreesOnAddresses(i: Instruction, symbols: map<string, Byte>)
    requires i.oprA.Some? && i.oprA.value.Dest?
    ensures Code.BranchLine(i) == Code.AsLine(ResolvedBranchBytes(i, symbols))
  {
    if Code.BranchOpcode(i).Ok? {
      var v := i.oprA.value.addr;
      Code.HexLineTwo(Code.BranchOpcode(i).value, v);
      assert Code.PadTarget(Code.TargetText(i.oprA.value)) == Hex2(v);
    }
  }

  /** With resolution, a branch to a label carries the number of bytes
      the encoder writes before the label: the byte the program counter
      holds when the labelled instruction runs. */
  lemma ResolvedTargetIsOffset(lines: seq<string>, symbolTable: map<string, Byte>, j: nat, i: Instruction)
    requires ParseLines(Pass1([], symbolTable, 0), lines).Ok?
    requires Code.EncodeAll(ParseLines(Pass1([], symbolTable, 0), lines).value.prog).Ok?
    requires j < |lines| && MatchLabel(lines[j]).Some?
    requires forall k :: j < k < |lines| ==> MatchLabel(lines[k]) != MatchLabel(lines[j])
    requires Code.BranchOpcode(i).Ok? && i.oprA == Some(Symbol(MatchLabel(lines[j]).value))
    ensures var s := ParseLines(Pass1([], symbolTable, 0), lines).value;
      var out := Code.EncodeAll(s.prog).value;
      var n := |NonLabel(lines[..j])|;
      && ResolvedBranchBytes(i, s.symbols).Ok? && n <= |out|
      && ResolvedBranchBytes(i, s.symbols).value[1] == TotalFields(out[..n])
  {
    LabelIsOffset(lines, symbolTable, j);
    var s := ParseLines(Pass1([], symbolTable, 0), lines).value;
    var name := MatchLabel(lines[j]).value;
    assert name in s.symbols;
    assert ResolvedBranchBytes(i, s.symbols) == Ok([Code.BranchOpcode(i).value, s.symbols[name]]);
  }
}

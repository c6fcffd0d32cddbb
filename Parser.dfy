/** Pass 1 (src/parser.rs): classify every line, keep the `u8` program
    counter, and build the label -> address symbol table. */
module Parser {
  import opened Outcomes
  import opened Hex
  import opened Instructions
  import opened Patterns

  // ---------------------------------------------------------------- operands

  /** `discern_opr_a`: the registers by exact text first, then a one- or
      two-digit address, then an upper-case label. Because the address
      test comes first, a label that looks like hex (`AB`, `C`) is read
      as an address. */
  function DiscernOperandA(opr: string): (r: Result<OperandA>)
    ensures r.Ok? <==> IsRegisterText(opr) || IsTargetText(opr)
    ensures r.Fail? ==> r.error == InvalidOperandA
    ensures r.Ok? && IsRegisterText(opr) ==> IsRegisterA(r.value)
    ensures r.Ok? && r.value.Dest? ==> IsHex12(opr) && r.value.addr == HexValue(opr)
    ensures r.Ok? && r.value.Symbol? ==> r.value.name == opr && IsUpperWord(opr) && !IsHex12(opr)
    ensures opr == "ACC" ==> r == Ok(OperandA.ACC)
    ensures opr == "IX" ==> r == Ok(OperandA.IX)
    ensures IsHex12(opr) ==> r == Ok(Dest(HexValue(opr)))
    ensures !IsRegisterText(opr) && !IsHex12(opr) && IsUpperWord(opr) ==> r == Ok(Symbol(opr))
  {
    if opr == "ACC" then Ok(OperandA.ACC)
    else if opr == "IX" then Ok(OperandA.IX)
    else if IsHex12(opr) then Ok(Dest(HexValue(opr)))
    else if IsUpperWord(opr) then Ok(Symbol(opr))
    else Fail(InvalidOperandA)
  }

  /** What `discern_opr_b` returns, apart from its effect on the counter:
      `ACC`, `IX`, then `[IX+hh]`, `(IX+hh)`, `[hh]`, `(hh)`, bare `hh`. */
  function ClassifyOperandB(opr: string): (r: Result<OperandB>)
    ensures r.Ok? <==> IsOperandBText(opr)
    ensures r.Fail? ==> r.error == InvalidOperandB
  {
    if opr == "ACC" then Ok(OperandB.ACC)
    else if opr == "IX" then Ok(OperandB.IX)
    else if IsIxPrgText(opr) then Ok(IX_PRG(HexValue(Inner(opr, "[IX+"))))
    else if IsIxDtText(opr) then Ok(IX_DT(HexValue(Inner(opr, "(IX+"))))
    else if IsAbsPrgText(opr) then Ok(ABS_PRG(HexValue(Inner(opr, "["))))
    else if IsAbsDtText(opr) then Ok(ABS_DT(HexValue(Inner(opr, "("))))
    else if IsHex12(opr) then Ok(IMMD(HexValue(opr)))
    else Fail(InvalidOperandB)
  }

  /** `*pc += n` on the `u8` counter; the overflow a debug build panics on is a failure. */
  function AdvancePc(pc: Byte, n: nat): (r: Result<Byte>)
    ensures r.Ok? <==> pc + n <= 255
    ensures r.Ok? ==> r.value == pc + n
    ensures r.Fail? ==> r.error == PcOverflow
  {
    if pc + n <= 255 then Ok(pc + n) else Fail(PcOverflow)
  }

  /** `discern_opr_b`: classifies operand B and advances the counter by
      one for a register, by two for a form that carries a byte. */
  method DiscernOperandB(opr: string, pc: Byte) returns (r: Result<OperandB>, pc': Byte)
    ensures ClassifyOperandB(opr).Fail? ==> r == ClassifyOperandB(opr)
    ensures ClassifyOperandB(opr).Ok? ==>
      var b := ClassifyOperandB(opr).value;
      r == (if pc + OperandBWidth(b) <= 255 then Ok(b) else Fail(PcOverflow))
    ensures r.Ok? ==> pc' == pc + OperandBWidth(r.value)
  {
    var w: nat;
    if opr == "ACC" {
      w, r := 1, Ok(OperandB.ACC);
    } else if opr == "IX" {
      w, r := 1, Ok(OperandB.IX);
    } else if IsIxPrgText(opr) {
      w, r := 2, Ok(IX_PRG(HexValue(Inner(opr, "[IX+"))));
    } else if IsIxDtText(opr) {
      w, r := 2, Ok(IX_DT(HexValue(Inner(opr, "(IX+"))));
    } else if IsAbsPrgText(opr) {
      w, r := 2, Ok(ABS_PRG(HexValue(Inner(opr, "["))));
    } else if IsAbsDtText(opr) {
      w, r := 2, Ok(ABS_DT(HexValue(Inner(opr, "("))));
    } else if IsHex12(opr) {
      w, r := 2, Ok(IMMD(HexValue(opr)));
    } else {
      return Fail(InvalidOperandB), pc;
    }
    var next := AdvancePc(pc, w);
    if next.Fail? {
      return Fail(PcOverflow), pc;
    }
    pc' := next.value;
  }

  // ---------------------------------------------------------------- one line

  /** What `discern` builds from a line, apart from its effect on the
      counter: the first of MAL, Branch, Shift, Ctrl whose pattern matches
      decides the kind, and a line matching none is the
      "Unknown Instruction" panic. */
  function Recognize(line: string): (r: Result<Instruction>)
    ensures r.Fail? ==> r.error == UnknownInstruction(line)
    ensures r.Ok? ==> WellShaped(r.value)
  {
    match MatchMal(line)
    case Some(p) =>
      Ok(New(Mal, p.mnemonic, Some(DiscernOperandA(p.oprA).value), Some(ClassifyOperandB(p.oprB).value)))
    case None =>
      match MatchBranch(line)
      case Some(p) => Ok(New(Branch, p.mnemonic, Some(DiscernOperandA(p.target).value), None))
      case None =>
        match MatchShift(line)
        case Some(p) => Ok(New(Shift, p.mnemonic, Some(DiscernOperandA(p.register).value), None))
        case None =>
          if IsCtrlLine(line) then Ok(New(Ctrl, line, None, None))
          else Fail(UnknownInstruction(line))
  }

  /** A line is an instruction exactly when one of the four patterns
      matches it, and the pattern that matches gives the kind and the
      mnemonic. */
  lemma RecognizeKinds(line: string)
    ensures Recognize(line).Ok? <==>
      MatchMal(line).Some? || MatchBranch(line).Some? || MatchShift(line).Some? || IsCtrlLine(line)
    ensures MatchMal(line).Some? ==>
      Recognize(line).value.kind == Mal && Recognize(line).value.inst == MatchMal(line).value.mnemonic
    ensures MatchBranch(line).Some? ==>
      Recognize(line).value.kind == Branch && Recognize(line).value.inst == MatchBranch(line).value.mnemonic
    ensures MatchShift(line).Some? ==>
      Recognize(line).value.kind == Shift && Recognize(line).value.inst == MatchShift(line).value.mnemonic
    ensures IsCtrlLine(line) ==> Recognize(line).value.kind == Ctrl && Recognize(line).value.inst == line
  {
    PatternsDisjoint(line);
  }

  /** A recognized instruction placed at `pc`: fails if the counter would pass 255. */
  function Place(res: Result<Instruction>, pc: Byte): (r: Result<Instruction>)
    requires res.Ok? ==> WellShaped(res.value)
    ensures r.Ok? <==> res.Ok? && pc + Width(res.value) <= 255
    ensures r.Ok? ==> r.value == res.value
    ensures res.Fail? ==> r == res
    ensures res.Ok? && r.Fail? ==> r.error == PcOverflow
  {
    match res
    case Fail(e) => Fail(e)
    case Ok(i) => if pc + Width(i) <= 255 then Ok(i) else Fail(PcOverflow)
  }

  /** `discern`: classifies one non-label line and advances the counter by
      the instruction's width (Branch 2, Shift 1, Ctrl 1, MAL through
      `discern_opr_b`). */
  method Discern(line: string, pc: Byte) returns (r: Result<Instruction>, pc': Byte)
    ensures r == Place(Recognize(line), pc)
    ensures r.Ok? ==> WellShaped(r.value) && pc' == pc + Width(r.value)
  {
    var mal := MatchMal(line);
    if mal.Some? {
      // operand A is ACC or IX here, so `discern_opr_a` cannot reach its `unreachable!`
      var a := DiscernOperandA(mal.value.oprA).value;
      var b;
      b, pc' := DiscernOperandB(mal.value.oprB, pc);
      if b.Fail? {
        return Fail(b.error), pc;
      }
      return Ok(New(Mal, mal.value.mnemonic, Some(a), Some(b.value))), pc';
    }
    var branch := MatchBranch(line);
    if branch.Some? {
      var next := AdvancePc(pc, 2);
      if next.Fail? {
        return Fail(PcOverflow), pc;
      }
      var a := DiscernOperandA(branch.value.target).value;
      return Ok(New(Branch, branch.value.mnemonic, Some(a), None)), next.value;
    }
    var shift := MatchShift(line);
    if shift.Some? {
      var next := AdvancePc(pc, 1);
      if next.Fail? {
        return Fail(PcOverflow), pc;
      }
      var a := DiscernOperandA(shift.value.register).value;
      return Ok(New(Shift, shift.value.mnemonic, Some(a), None)), next.value;
    }
    if IsCtrlLine(line) {
      var next := AdvancePc(pc, 1);
      if next.Fail? {
        return Fail(PcOverflow), pc;
      }
      return Ok(New(Ctrl, line, None, None)), next.value;
    }
    return Fail(UnknownInstruction(line)), pc;
  }

  // ---------------------------------------------------------------- the pass

  predicate AllWellShaped(prog: seq<Instruction>) {
    forall k :: 0 <= k < |prog| ==> WellShaped(prog[k])
  }

  /** Total width of a run of instructions. */
  function SumWidths(prog: seq<Instruction>): nat
    requires AllWellShaped(prog)
    decreases |prog|
  {
    if prog == [] then 0 else SumWidths(prog[..|prog| - 1]) + Width(prog[|prog| - 1])
  }

  /** The state `parse` keeps between lines: the instruction vector, the
      symbol table, the program counter. */
  datatype Pass1 = Pass1(prog: seq<Instruction>, symbols: map<string, Byte>, pc: Byte)

  /** The counter is the total width of the instructions built so far. */
  predicate Consistent(st: Pass1) {
    AllWellShaped(st.prog) && st.pc == SumWidths(st.prog)
  }

  /** One iteration of the loop in `parse`. A label line records the
      current counter under the label and touches nothing else; any other
      line appends exactly one instruction and advances the counter by its
      width. */
  function ParseLine(st: Pass1, line: string): (r: Result<Pass1>)
    ensures MatchLabel(line).Some? ==>
      r == Ok(Pass1(st.prog, st.symbols[MatchLabel(line).value := st.pc], st.pc))
    ensures MatchLabel(line).None? ==>
      (r.Ok? <==> Recognize(line).Ok? && st.pc + Width(Recognize(line).value) <= 255)
    ensures MatchLabel(line).None? && r.Ok? ==>
      r.value == Pass1(st.prog + [Recognize(line).value], st.symbols, st.pc + Width(Recognize(line).value))
    ensures MatchLabel(line).None? && r.Fail? ==> r.error == Place(Recognize(line), st.pc).error
  {
    match MatchLabel(line)
    case Some(name) => Ok(st.(symbols := st.symbols[name := st.pc]))
    case None =>
      match Place(Recognize(line), st.pc)
      case Fail(e) => Fail(e)
      case Ok(i) => Ok(Pass1(st.prog + [i], st.symbols, st.pc + Width(i)))
  }

  /** The loop of `parse` over a sequence of lines, stopping at the first failure. */
  function ParseLines(st: Pass1, lines: seq<string>): (r: Result<Pass1>)
    ensures r.Fail? ==> r.error == PcOverflow || r.error.UnknownInstruction?
    decreases |lines|
  {
    if lines == [] then Ok(st)
    else
      match ParseLines(st, lines[..|lines| - 1])
      case Fail(e) => Fail(e)
      case Ok(s) => ParseLine(s, lines[|lines| - 1])
  }

  /** The pass only adds: the instructions built so far stay a prefix, no
      label is forgotten (a redefinition only moves it) and the counter
      does not go back. */
  lemma {:induction false} ParseLinesGrows(st: Pass1, lines: seq<string>)
    requires ParseLines(st, lines).Ok?
    ensures var s := ParseLines(st, lines).value;
      st.prog <= s.prog && st.symbols.Keys <= s.symbols.Keys && st.pc <= s.pc
    decreases |lines|
  {
    if lines != [] {
      var xs := lines[..|lines| - 1];
      ParseLinesGrows(st, xs);
      var s0 := ParseLines(st, xs).value;
      var s := ParseLines(st, lines).value;
      assert s == ParseLine(s0, lines[|lines| - 1]).value;
      assert s0.prog <= s.prog && s0.symbols.Keys <= s.symbols.Keys && s0.pc <= s.pc;
    }
  }

  /** The lines that are not label declarations, in order. */
  function NonLabel(lines: seq<string>): seq<string>
    decreases |lines|
  {
    if lines == [] then []
    else
      var last := lines[|lines| - 1];
      NonLabel(lines[..|lines| - 1]) + (if MatchLabel(last).Some? then [] else [last])
  }

  /** Every line recognized, in order, or the first failure. */
  function RecognizeAll(lines: seq<string>): (r: Result<seq<Instruction>>)
    ensures r.Ok? ==> |r.value| == |lines| && AllWellShaped(r.value)
    ensures r.Ok? ==> forall k :: 0 <= k < |lines| ==> Recognize(lines[k]) == Ok(r.value[k])
    decreases |lines|
  {
    if lines == [] then Ok([])
    else
      match RecognizeAll(lines[..|lines| - 1])
      case Fail(e) => Fail(e)
      case Ok(prog) =>
        match Recognize(lines[|lines| - 1])
        case Fail(e) => Fail(e)
        case Ok(i) =>
          RecognizedSnoc(lines[..|lines| - 1], lines[|lines| - 1], prog, i);
          assert lines[..|lines| - 1] + [lines[|lines| - 1]] == lines;
          Ok(prog + [i])
  }

  lemma RecognizedSnoc(xs: seq<string>, l: string, prog: seq<Instruction>, i: Instruction)
    requires |prog| == |xs| && AllWellShaped(prog) && WellShaped(i)
    requires forall k :: 0 <= k < |xs| ==> Recognize(xs[k]) == Ok(prog[k])
    requires Recognize(l) == Ok(i)
    ensures AllWellShaped(prog + [i])
    ensures forall k :: 0 <= k < |xs| + 1 ==> Recognize((xs + [l])[k]) == Ok((prog + [i])[k])
  {
    forall k | 0 <= k < |xs| + 1
      ensures Recognize((xs + [l])[k]) == Ok((prog + [i])[k])
    {
      if k < |xs| {
        assert (xs + [l])[k] == xs[k] && (prog + [i])[k] == prog[k];
      }
    }
  }

  /** `parse` over the lines of its file, `symbolTable` being the map the
      caller passes by `&mut`; the second result is that map afterwards. */
  method Parse(lines: seq<string>, symbolTable: map<string, Byte>)
    returns (r: Result<seq<Instruction>>, symbols: map<string, Byte>)
    ensures var s := ParseLines(Pass1([], symbolTable, 0), lines);
      (r.Ok? <==> s.Ok?)
      && (s.Ok? ==> r.value == s.value.prog && symbols == s.value.symbols)
      && (s.Fail? ==> r.error == s.error)
  {
    var prog: seq<Instruction> := [];
    var pc: Byte := 0;
    symbols := symbolTable;
    ghost var init := Pass1([], symbolTable, 0);
    var i := 0;
    while i < |lines|
      invariant 0 <= i <= |lines|
      invariant ParseLines(init, lines[..i]) == Ok(Pass1(prog, symbols, pc))
    {
      var line := lines[i];
      ghost var st := Pass1(prog, symbols, pc);
      ParseLinesStep(init, lines, i);
      var declared := MatchLabel(line);
      if declared.Some? {
        symbols := symbols[declared.value := pc];
      } else {
        var inst;
        inst, pc := Discern(line, pc);
        if inst.Fail? {
          ParseLinesFailsAt(init, lines, i);
          return Fail(inst.error), symbols;
        }
        prog := prog + [inst.value];
      }
      ParseLinesAdvance(init, lines, i, st, Pass1(prog, symbols, pc));
      i := i + 1;
    }
    assert lines[..i] == lines;
    r := Ok(prog);
  }

  /** One more line of the loop: the pass over `i + 1` lines is the pass
      over `i` lines followed by `ParseLine`. */
  lemma ParseLinesAdvance(st0: Pass1, lines: seq<string>, i: nat, st: Pass1, next: Pass1)
    requires i < |lines| && ParseLines(st0, lines[..i]) == Ok(st)
    requires ParseLine(st, lines[i]) == Ok(next)
    ensures ParseLines(st0, lines[..i + 1]) == Ok(next)
  {
    ParseLinesStep(st0, lines, i);
  }

  // ---------------------------------------------------------------- properties of the pass

  lemma {:induction false} ParseLinesStopsAtFailure(st: Pass1, xs: seq<string>, ys: seq<string>)
    requires ParseLines(st, xs).Fail?
    ensures ParseLines(st, xs + ys) == ParseLines(st, xs)
    decreases |ys|
  {
    if ys != [] {
      var zs := xs + ys[..|ys| - 1];
      assert (xs + ys)[..|xs + ys| - 1] == zs;
      ParseLinesStopsAtFailure(st, xs, ys[..|ys| - 1]);
    } else {
      assert xs + ys == xs;
    }
  }

  lemma ParseLinesStep(st: Pass1, lines: seq<string>, i: nat)
    requires i < |lines| && ParseLines(st, lines[..i]).Ok?
    ensures ParseLines(st, lines[..i + 1]) == ParseLine(ParseLines(st, lines[..i]).value, lines[i])
  {
    assert lines[..i + 1][..i] == lines[..i];
  }

  /** The first line that fails decides the result of the whole pass. */
  lemma {:induction false} ParseLinesFailsAt(st: Pass1, lines: seq<string>, i: nat)
    requires i < |lines| && ParseLines(st, lines[..i + 1]).Fail?
    ensures ParseLines(st, lines) == ParseLines(st, lines[..i + 1])
    decreases |lines|
  {
    if i + 1 == |lines| {
      assert lines[..i + 1] == lines;
    } else {
      var init := lines[..|lines| - 1];
      assert init[..i + 1] == lines[..i + 1];
      ParseLinesFailsAt(st, init, i);
    }
  }

  lemma {:induction false} SumWidthsAppend(prog: seq<Instruction>, i: Instruction)
    requires AllWellShaped(prog) && WellShaped(i)
    ensures AllWellShaped(prog + [i]) && SumWidths(prog + [i]) == SumWidths(prog) + Width(i)
  {
    assert (prog + [i])[..|prog|] == prog;
  }

  /** Parsing keeps the counter equal to the total width of the
      instructions so far: one increment per instruction line. */
  lemma ParseLineConsistent(st: Pass1, line: string)
    requires Consistent(st) && ParseLine(st, line).Ok?
    ensures Consistent(ParseLine(st, line).value)
  {
    if MatchLabel(line).None? {
      SumWidthsAppend(st.prog, Recognize(line).value);
    }
  }

  /** Pass 1 as a whole: it succeeds exactly when every non-label line is
      recognized and the instructions fit below the counter's limit of
      255; the instructions are those lines' instructions, in source
      order; and the counter has advanced by their total width. */
  lemma {:induction false} ParseLinesResult(st: Pass1, lines: seq<string>)
    requires AllWellShaped(st.prog)
    ensures var all := RecognizeAll(NonLabel(lines));
      ParseLines(st, lines).Ok? <==> all.Ok? && st.pc + SumWidths(all.value) <= 255
    ensures ParseLines(st, lines).Ok? ==>
      var s, all := ParseLines(st, lines).value, RecognizeAll(NonLabel(lines)).value;
      s.prog == st.prog + all && s.pc == st.pc + SumWidths(all)
    decreases |lines|
  {
    if lines == [] {
      assert NonLabel(lines) == [];
      assert st.prog + [] == st.prog;
    } else {
      var xs, l := lines[..|lines| - 1], lines[|lines| - 1];
      ParseLinesResult(st, xs);
      if MatchLabel(l).None? {
        NonLabelInstruction(xs, l, lines);
        ParseLinesResultStep(st, xs, l, lines);
      } else {
        assert NonLabel(lines) == NonLabel(xs);
      }
    }
  }

  lemma NonLabelInstruction(xs: seq<string>, l: string, lines: seq<string>)
    requires lines == xs + [l] && MatchLabel(l).None?
    ensures NonLabel(lines) == NonLabel(xs) + [l]
    ensures RecognizeAll(NonLabel(lines)) ==
      match RecognizeAll(NonLabel(xs))
      case Fail(e) => Fail(e)
      case Ok(p) => (match Recognize(l) case Fail(e) => Fail(e) case Ok(i) => Ok(p + [i]))
  {
    assert lines[..|lines| - 1] == xs;
    var nl := NonLabel(lines);
    assert nl[..|nl| - 1] == NonLabel(xs) && nl[|nl| - 1] == l;
  }

  /** The inductive step of `ParseLinesResult` for an instruction line. */
  lemma ParseLinesResultStep(st: Pass1, xs: seq<string>, l: string, lines: seq<string>)
    requires AllWellShaped(st.prog) && lines == xs + [l] && MatchLabel(l).None?
    requires var before := RecognizeAll(NonLabel(xs));
      && (ParseLines(st, xs).Ok? <==> before.Ok? && st.pc + SumWidths(before.value) <= 255)
      && (ParseLines(st, xs).Ok? ==>
            ParseLines(st, xs).value.prog == st.prog + before.value
            && ParseLines(st, xs).value.pc == st.pc + SumWidths(before.value))
    requires NonLabel(lines) == NonLabel(xs) + [l]
    requires RecognizeAll(NonLabel(lines)) ==
      match RecognizeAll(NonLabel(xs))
      case Fail(e) => Fail(e)
      case Ok(p) => (match Recognize(l) case Fail(e) => Fail(e) case Ok(i) => Ok(p + [i]))
    ensures var all := RecognizeAll(NonLabel(lines));
      ParseLines(st, lines).Ok? <==> all.Ok? && st.pc + SumWidths(all.value) <= 255
    ensures ParseLines(st, lines).Ok? ==>
      var s, all := ParseLines(st, lines).value, RecognizeAll(NonLabel(lines)).value;
      s.prog == st.prog + all && s.pc == st.pc + SumWidths(all)
  {
    assert lines[..|lines| - 1] == xs && lines[|lines| - 1] == l;
    var before, rl := RecognizeAll(NonLabel(xs)), Recognize(l);
    var all := RecognizeAll(NonLabel(lines));
    var px := ParseLines(st, xs);
    if px.Fail? {
      assert ParseLines(st, lines) == Fail(px.error);
      if all.Ok? {
        SumWidthsAppend(before.value, rl.value);
      }
    } else {
      assert ParseLines(st, lines) == ParseLine(px.value, l);
      ParseLineAfter(st, px.value, before, l, all);
    }
  }

  /** One instruction line after a successful prefix. */
  lemma ParseLineAfter(st: Pass1, s: Pass1, before: Result<seq<Instruction>>, l: string, all: Result<seq<Instruction>>)
    requires AllWellShaped(st.prog) && MatchLabel(l).None? && before.Ok?
    requires AllWellShaped(before.value)
    requires s.prog == st.prog + before.value && s.pc == st.pc + SumWidths(before.value)
    requires all == (match Recognize(l) case Fail(e) => Fail(e) case Ok(i) => Ok(before.value + [i]))
    ensures ParseLine(s, l).Ok? <==> all.Ok? && st.pc + SumWidths(all.value) <= 255
    ensures ParseLine(s, l).Ok? ==>
      ParseLine(s, l).value.prog == st.prog + all.value && ParseLine(s, l).value.pc == st.pc + SumWidths(all.value)
  {
    var rl := Recognize(l);
    if rl.Ok? {
      SumWidthsAppend(before.value, rl.value);
      assert s.prog + [rl.value] == st.prog + all.value;
    }
  }

  /** The counter equals the total width of the instructions after any
      number of lines. */
  lemma {:induction false} ParseLinesConsistent(st: Pass1, lines: seq<string>)
    requires Consistent(st) && ParseLines(st, lines).Ok?
    ensures Consistent(ParseLines(st, lines).value)
    decreases |lines|
  {
    if lines != [] {
      var xs, l := lines[..|lines| - 1], lines[|lines| - 1];
      ParseLinesConsistent(st, xs);
      ParseLineConsistent(ParseLines(st, xs).value, l);
    }
  }

  /** The last line's effect on a successful pass, in the terms the
      label lemmas need. */
  lemma ParseLinesLast(st: Pass1, lines: seq<string>)
    requires lines != [] && ParseLines(st, lines).Ok?
    ensures ParseLines(st, lines[..|lines| - 1]).Ok?
    ensures var s0, s, l := ParseLines(st, lines[..|lines| - 1]).value, ParseLines(st, lines).value, lines[|lines| - 1];
      if MatchLabel(l).Some? then s == s0.(symbols := s0.symbols[MatchLabel(l).value := s0.pc])
      else s.symbols == s0.symbols && s.prog == s0.prog + [Recognize(l).value]
  {
  }

  /** A label's value is the counter at the start plus the total width
      of the instructions on the lines before its last declaration (an
      earlier declaration of the same label is overwritten). */
  lemma {:induction false} LabelAddress(st: Pass1, lines: seq<string>, j: nat)
    requires AllWellShaped(st.prog) && ParseLines(st, lines).Ok?
    requires j < |lines| && MatchLabel(lines[j]).Some?
    requires forall k :: j < k < |lines| ==> MatchLabel(lines[k]) != MatchLabel(lines[j])
    ensures RecognizeAll(NonLabel(lines[..j])).Ok?
    ensures var s := ParseLines(st, lines).value;
      MatchLabel(lines[j]).value in s.symbols
      && s.symbols[MatchLabel(lines[j]).value] == st.pc + SumWidths(RecognizeAll(NonLabel(lines[..j])).value)
    decreases |lines|
  {
    var xs, l := lines[..|lines| - 1], lines[|lines| - 1];
    ParseLinesLast(st, lines);
    var name := MatchLabel(lines[j]).value;
    var s0, s := ParseLines(st, xs).value, ParseLines(st, lines).value;
    if j == |lines| - 1 {
      assert lines[..j] == xs;
      ParseLinesResult(st, xs);
      assert s.symbols[name] == s0.pc;
    } else {
      assert lines[j] == xs[j] && xs[..j] == lines[..j];
      forall k | j < k < |xs| ensures MatchLabel(xs[k]) != MatchLabel(xs[j]) {
        assert xs[k] == lines[k];
      }
      LabelAddress(st, xs, j);
      assert MatchLabel(l) != Some(name) by { assert l == lines[|lines| - 1]; }
      assert s.symbols[name] == s0.symbols[name];
    }
  }

  /** A label is in the table after pass 1 exactly when the caller's table
      had it or some line declares it. */
  lemma {:induction false} LabelsDeclared(st: Pass1, lines: seq<string>, name: string)
    requires ParseLines(st, lines).Ok?
    ensures name in ParseLines(st, lines).value.symbols <==> name in st.symbols || Declares(lines, name)
    decreases |lines|
  {
    if lines != [] {
      var xs, l := lines[..|lines| - 1], lines[|lines| - 1];
      ParseLinesLast(st, lines);
      LabelsDeclared(st, xs, name);
      var s0, s := ParseLines(st, xs).value, ParseLines(st, lines).value;
      assert name in s.symbols <==> name in s0.symbols || MatchLabel(l) == Some(name);
      DeclaresSnoc(lines, name);
    }
  }

  /** Some line of `lines` declares the label `name`. */
  predicate Declares(lines: seq<string>, name: string) {
    exists j :: 0 <= j < |lines| && MatchLabel(lines[j]) == Some(name)
  }

  lemma DeclaresSnoc(lines: seq<string>, name: string)
    requires lines != []
    ensures Declares(lines, name) <==>
      Declares(lines[..|lines| - 1], name) || MatchLabel(lines[|lines| - 1]) == Some(name)
  {
    var xs := lines[..|lines| - 1];
    if Declares(xs, name) {
      var j :| 0 <= j < |xs| && MatchLabel(xs[j]) == Some(name);
      assert lines[j] == xs[j];
      assert Declares(lines, name);
    }
    if Declares(lines, name) {
      var j :| 0 <= j < |lines| && MatchLabel(lines[j]) == Some(name);
      if j < |xs| {
        assert xs[j] == lines[j];
        assert Declares(xs, name);
      } else {
        assert j == |lines| - 1;
      }
    }
    if MatchLabel(lines[|lines| - 1]) == Some(name) {
      assert Declares(lines, name);
    }
  }
}

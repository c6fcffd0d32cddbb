/** The regular expressions of src/parser.rs, each written out as a
    predicate or a matcher over the text of one line. Every pattern is
    anchored (`^...$`), so a matcher either takes the whole line apart or
    returns None. */
module Patterns {
  import opened Outcomes
  import opened Hex

  predicate IsUpper(c: char) {
    'A' <= c <= 'Z'
  }

  /** `[A-Z]+` */
  predicate IsUpperWord(s: string) {
    |s| >= 1 && forall i :: 0 <= i < |s| ==> IsUpper(s[i])
  }

  /** `[A-Z]{2,3}`: the mnemonic of a MAL or Ctrl instruction. */
  predicate IsMnemonic23(s: string) {
    2 <= |s| <= 3 && IsUpperWord(s)
  }

  /** `(ACC|IX)` */
  predicate IsRegisterText(s: string) {
    s == "ACC" || s == "IX"
  }

  /** `open`, then `[0-9a-fA-F]{1,2}`, then `close`: the shape of the four
      bracketed operand-B forms. */
  predicate IsEnclosed(s: string, open: string, close: char) {
    |s| > |open| + 1 && s[..|open|] == open && s[|s| - 1] == close && IsHex12(s[|open|..|s| - 1])
  }

  /** The digits captured between `open` and the closing bracket. */
  function Inner(s: string, open: string): string
    requires |s| > |open|
  {
    s[|open|..|s| - 1]
  }

  /** `^\[IX\+([0-9a-fA-F]{1,2})\]$` */
  predicate IsIxPrgText(s: string) { IsEnclosed(s, "[IX+", ']') }
  /** `^\(IX\+([0-9a-fA-F]{1,2})\)$` */
  predicate IsIxDtText(s: string) { IsEnclosed(s, "(IX+", ')') }
  /** `^\[([0-9a-fA-F]{1,2})\]$` */
  predicate IsAbsPrgText(s: string) { IsEnclosed(s, "[", ']') }
  /** `^\(([0-9a-fA-F]{1,2})\)$` */
  predicate IsAbsDtText(s: string) { IsEnclosed(s, "(", ')') }

  /** The operand-B group of the MAL pattern:
      `ACC|IX|[0-9a-fA-F]{1,2}|\((IX\+)?[0-9a-fA-F]{1,2}\)|\[(IX\+)?[0-9a-fA-F]{1,2}\]` */
  predicate IsOperandBText(s: string) {
    IsRegisterText(s) || IsHex12(s) || IsIxPrgText(s) || IsIxDtText(s) || IsAbsPrgText(s) || IsAbsDtText(s)
  }

  /** Writing `open + digits + close` gives an enclosed text whose inner part is the digits. */
  lemma EnclosedComplete(h: string, open: string, close: char)
    requires IsHex12(h)
    ensures IsEnclosed(open + h + [close], open, close)
    ensures Inner(open + h + [close], open) == h
  {
    var s := open + h + [close];
    assert s[..|open|] == open;
    assert s[|open|..|s| - 1] == h;
  }

  // ---------------------------------------------------------------- label

  /** `^([A-Z]+):$`, returning the captured label. */
  function MatchLabel(line: string): (r: Option<string>)
    ensures r.Some? ==> line == r.value + ":" && IsUpperWord(r.value)
  {
    if |line| >= 2 && line[|line| - 1] == ':' && IsUpperWord(line[..|line| - 1])
    then Some(line[..|line| - 1])
    else None
  }

  lemma LabelComplete(name: string)
    requires IsUpperWord(name)
    ensures MatchLabel(name + ":") == Some(name)
  {
    assert (name + ":")[..|name|] == name;
  }

  // ---------------------------------------------------------------- MAL

  datatype MalParts = MalParts(mnemonic: string, oprA: string, oprB: string)

  /** The MAL pattern with the mnemonic taken to be `line[..k]`. */
  function SplitMal(line: string, k: nat): (r: Option<MalParts>)
    requires k < |line|
    ensures r.Some? ==> line == r.value.mnemonic + " " + r.value.oprA + " " + r.value.oprB
    ensures r.Some? ==> IsMnemonic23(r.value.mnemonic) && IsRegisterText(r.value.oprA) && IsOperandBText(r.value.oprB)
  {
    var m, rest := line[..k], line[k + 1..];
    if line[k] != ' ' || !IsMnemonic23(m) then None
    else
      assert line == m + " " + rest;
      if |rest| >= 4 && rest[..4] == "ACC " && IsOperandBText(rest[4..]) then
      assert rest == "ACC" + " " + rest[4..];
      Some(MalParts(m, "ACC", rest[4..]))
      else if |rest| >= 3 && rest[..3] == "IX " && IsOperandBText(rest[3..]) then
      assert rest == "IX" + " " + rest[3..];
      Some(MalParts(m, "IX", rest[3..]))
      else None
  }

  /** `^([A-Z]{2,3}) (ACC|IX) (<operand B>)$`, returning the three captures. */
  function MatchMal(line: string): (r: Option<MalParts>)
    ensures r.Some? ==> line == r.value.mnemonic + " " + r.value.oprA + " " + r.value.oprB
    ensures r.Some? ==> IsMnemonic23(r.value.mnemonic) && IsRegisterText(r.value.oprA) && IsOperandBText(r.value.oprB)
  {
    if |line| > 2 && SplitMal(line, 2).Some? then SplitMal(line, 2)
    else if |line| > 3 then SplitMal(line, 3)
    else None
  }

  lemma MalComplete(m: string, a: string, b: string)
    requires IsMnemonic23(m) && IsRegisterText(a) && IsOperandBText(b)
    ensures MatchMal(m + " " + a + " " + b) == Some(MalParts(m, a, b))
  {
    var line := m + " " + a + " " + b;
    SplitMalComplete(m, a, b);
    if |m| == 3 {
      assert IsUpper(m[2]) && line[2] == m[2];
    }
  }

  /** Split after the mnemonic, a MAL line gives back its three parts. */
  lemma SplitMalComplete(m: string, a: string, b: string)
    requires IsMnemonic23(m) && IsRegisterText(a) && IsOperandBText(b)
    ensures |m| < |m + " " + a + " " + b|
    ensures SplitMal(m + " " + a + " " + b, |m|) == Some(MalParts(m, a, b))
  {
    var line := m + " " + a + " " + b;
    var k := |m|;
    assert line[..k] == m && line[k] == ' ';
    assert line[k + 1..] == a + " " + b;
    RegisterRest(a, b);
  }

  /** The text after the mnemonic's space: the register, a space and operand B. */
  lemma RegisterRest(a: string, b: string)
    requires IsRegisterText(a)
    ensures var rest := a + " " + b;
      if a == "ACC" then |rest| >= 4 && rest[..4] == "ACC " && rest[4..] == b
      else rest[0] == 'I' && |rest| >= 3 && rest[..3] == "IX " && rest[3..] == b
  {
  }

  // ---------------------------------------------------------------- Branch

  datatype BranchParts = BranchParts(mnemonic: string, target: string)

  /** `B[A-Z]{1,2}` */
  predicate IsBranchMnemonic(m: string) {
    IsMnemonic23(m) && m[0] == 'B'
  }

  /** `[0-9a-fA-F]{1,2}|[A-Z]+`: an address literal or a label. */
  predicate IsTargetText(t: string) {
    IsHex12(t) || IsUpperWord(t)
  }

  function SplitBranch(line: string, k: nat): (r: Option<BranchParts>)
    requires k < |line|
    ensures r.Some? ==> line == r.value.mnemonic + " " + r.value.target
    ensures r.Some? ==> IsBranchMnemonic(r.value.mnemonic) && IsTargetText(r.value.target)
  {
    assert line == line[..k] + " " + line[k + 1..] || line[k] != ' ';
    if line[k] == ' ' && IsBranchMnemonic(line[..k]) && IsTargetText(line[k + 1..])
    then Some(BranchParts(line[..k], line[k + 1..]))
    else None
  }

  /** `^(B[A-Z]{1,2}) ([0-9a-fA-F]{1,2}|[A-Z]+)$`, returning the two captures. */
  function MatchBranch(line: string): (r: Option<BranchParts>)
    ensures r.Some? ==> line == r.value.mnemonic + " " + r.value.target
    ensures r.Some? ==> IsBranchMnemonic(r.value.mnemonic) && IsTargetText(r.value.target)
  {
    if |line| > 2 && SplitBranch(line, 2).Some? then SplitBranch(line, 2)
    else if |line| > 3 then SplitBranch(line, 3)
    else None
  }

  lemma BranchComplete(m: string, t: string)
    requires IsBranchMnemonic(m) && IsTargetText(t)
    ensures MatchBranch(m + " " + t) == Some(BranchParts(m, t))
  {
    var line := m + " " + t;
    var k := |m|;
    assert line[..k] == m && line[k + 1..] == t;
    if k == 3 {
      assert IsUpper(m[2]) && line[2] == m[2];
    }
  }

  // ---------------------------------------------------------------- Shift

  datatype ShiftParts = ShiftParts(mnemonic: string, register: string)

  /** `(S|R)(RA|LA|RL|LL)` */
  predicate IsShiftMnemonic(m: string) {
    |m| == 3 && (m[0] == 'S' || m[0] == 'R') && m[1..] in {"RA", "LA", "RL", "LL"}
  }

  /** `^((S|R)(RA|LA|RL|LL)) (ACC|IX)$`, returning captures 1 and 4. */
  function MatchShift(line: string): (r: Option<ShiftParts>)
    ensures r.Some? ==> line == r.value.mnemonic + " " + r.value.register
    ensures r.Some? ==> IsShiftMnemonic(r.value.mnemonic) && IsRegisterText(r.value.register)
  {
    if |line| > 3 && line[3] == ' ' && IsShiftMnemonic(line[..3]) && IsRegisterText(line[4..]) then
      assert line == line[..3] + " " + line[4..];
      Some(ShiftParts(line[..3], line[4..]))
    else None
  }

  lemma ShiftComplete(m: string, reg: string)
    requires IsShiftMnemonic(m) && IsRegisterText(reg)
    ensures MatchShift(m + " " + reg) == Some(ShiftParts(m, reg))
  {
    var line := m + " " + reg;
    assert line[..3] == m && line[4..] == reg;
  }

  // ---------------------------------------------------------------- Ctrl

  /** `^[A-Z]{2,3}$`: the whole line is the mnemonic. */
  predicate IsCtrlLine(line: string)
    ensures IsCtrlLine(line) ==> 2 <= |line| <= 3 && MatchLabel(line).None?
    ensures IsCtrlLine(line) ==> forall k :: 0 <= k < |line| ==> line[k] != ' '
  {
    IsMnemonic23(line)
  }

  // ---------------------------------------------------------------- disjointness

  function SpaceCount(s: string): nat
  {
    if s == [] then 0 else (if s[0] == ' ' then 1 else 0) + SpaceCount(s[1..])
  }

  lemma {:induction false} SpaceCountAppend(a: string, b: string)
    ensures SpaceCount(a + b) == SpaceCount(a) + SpaceCount(b)
  {
    if a == [] {
      assert a + b == b;
    } else {
      assert (a + b)[1..] == a[1..] + b;
      SpaceCountAppend(a[1..], b);
    }
  }

  lemma {:induction false} NoSpaceCount(s: string)
    requires forall i :: 0 <= i < |s| ==> s[i] != ' '
    ensures SpaceCount(s) == 0
  {
    if s != [] {
      NoSpaceCount(s[1..]);
    }
  }

  lemma WordSpaceWord(x: string, y: string)
    requires forall i :: 0 <= i < |x| ==> x[i] != ' '
    requires forall i :: 0 <= i < |y| ==> y[i] != ' '
    ensures SpaceCount(x + " " + y) == 1
  {
    NoSpaceCount(x);
    NoSpaceCount(y);
    SpaceCountAppend(x + " ", y);
    SpaceCountAppend(x, " ");
  }

  lemma EnclosedNoSpace(s: string, open: string, close: char)
    requires IsEnclosed(s, open, close) && close != ' '
    requires forall i :: 0 <= i < |open| ==> open[i] != ' '
    ensures forall i :: 0 <= i < |s| ==> s[i] != ' '
  {
    var h := s[|open|..|s| - 1];
    forall i | 0 <= i < |s|
      ensures s[i] != ' '
    {
      if i < |open| {
        assert s[i] == s[..|open|][i];
      } else if i < |s| - 1 {
        assert s[i] == h[i - |open|];
      }
    }
  }

  lemma OperandBNoSpace(b: string)
    requires IsOperandBText(b)
    ensures forall i :: 0 <= i < |b| ==> b[i] != ' '
  {
    if IsIxPrgText(b) {
      EnclosedNoSpace(b, "[IX+", ']');
    } else if IsIxDtText(b) {
      EnclosedNoSpace(b, "(IX+", ')');
    } else if IsAbsPrgText(b) {
      EnclosedNoSpace(b, "[", ']');
    } else if IsAbsDtText(b) {
      EnclosedNoSpace(b, "(", ')');
    }
  }

  lemma MalSpaces(line: string)
    ensures MatchMal(line).Some? ==> SpaceCount(line) == 2
  {
    if MatchMal(line).Some? {
      var p := MatchMal(line).value;
      WordSpaceWord(p.mnemonic, p.oprA);
      OperandBNoSpace(p.oprB);
      NoSpaceCount(p.oprB);
      SpaceCountAppend(p.mnemonic + " " + p.oprA + " ", p.oprB);
      SpaceCountAppend(p.mnemonic + " " + p.oprA, " ");
    }
  }

  lemma BranchSpaces(line: string)
    ensures MatchBranch(line).Some? ==> SpaceCount(line) == 1
  {
    if MatchBranch(line).Some? {
      var p := MatchBranch(line).value;
      WordSpaceWord(p.mnemonic, p.target);
    }
  }

  lemma ShiftSpaces(line: string)
    ensures MatchShift(line).Some? ==> SpaceCount(line) == 1
  {
    if MatchShift(line).Some? {
      var p := MatchShift(line).value;
      WordSpaceWord(p.mnemonic, p.register);
    }
  }

  lemma WordSpaces(line: string)
    ensures MatchLabel(line).Some? || IsCtrlLine(line) ==> SpaceCount(line) == 0
  {
    if MatchLabel(line).Some? || IsCtrlLine(line) {
      NoSpaceCount(line);
    }
  }

  /** No line matches two of the patterns, so the order in which the
      parser tries them (label first, then MAL, Branch, Shift, Ctrl)
      never changes the outcome. Labels and Ctrl lines have no space,
      Branch and Shift lines one, MAL lines two; Branch and Shift differ
      in their first letter, and a label ends in ':'. */
  lemma PatternsDisjoint(line: string)
    ensures MatchLabel(line).Some? ==>
      MatchMal(line).None? && MatchBranch(line).None? && MatchShift(line).None? && !IsCtrlLine(line)
    ensures MatchMal(line).Some? ==> MatchBranch(line).None? && MatchShift(line).None? && !IsCtrlLine(line)
    ensures MatchBranch(line).Some? ==> MatchShift(line).None? && !IsCtrlLine(line)
    ensures MatchShift(line).Some? ==> !IsCtrlLine(line)
  {
    MalSpaces(line);
    BranchSpaces(line);
    ShiftSpaces(line);
    WordSpaces(line);
    if MatchBranch(line).Some? {
      assert line[0] == 'B';
    }
    if MatchLabel(line).Some? {
      assert line[|line| - 1] == ':';
    }
  }
}

# A verified model of the PJ1 CPU assembler

The PJ1 assembler turns a text file of assembly for an 8-bit teaching CPU
into a text file of machine code in hexadecimal. It works in two passes.

- **Pass 1** (`src/parser.rs`, `parse`): reads the file line by line.
  - A line `NAME:` declares a label. The label gets the current value of a
    `u8` program counter.
  - Any other line is classified by four anchored regular expressions:
    MAL (data transfer, arithmetic and logic), Branch, Shift and Ctrl.
  - The line becomes an `Instruction` (`src/instruction.rs`), and the
    counter advances by the instruction's size in bytes.
- **Pass 2** (`src/code.rs`, `assemble`): visits the instructions in place.
  - Four tables give the opcodes.
  - Each instruction becomes one output line: its opcode as two upper-case
    hex digits, then either its operand byte in the same form or the text
    of its branch target as the parser kept it (a label's name, or the
    address as written).
  - A branch target shorter than two characters is padded with a leading
    `0` in the instruction itself.

This project models both passes in Dafny:

- pure logic (regular expressions, tables, operand classification,
  opcode arithmetic) as functions;
- code that updates a counter or a vector step by step as methods with
  loops, proved against those functions;
- the properties that link the two passes as lemmas.

Every `unwrap` on the program's text, every `unreachable!` and every `u8`
overflow that the Rust code panics on is an `Error` value here. The
`unwrap` of `File::create` and of the `Regex::new` calls is outside the
model (see "## Left out").

Modules, one file each:

- `Outcomes`: `Option`, `Result` and the panics as errors.
- `Hex`: the `u8` hex parsing and formatting.
- `Instructions`: `src/instruction.rs`.
- `Patterns`: the regular expressions of `src/parser.rs`.
- `Parser`: pass 1.
- `Tables` and `Code`: pass 2.
- `Assembly`: the two passes together.
- `Syntax`: rendering instructions back to source text, and worked examples.

Two behaviours of the code differ from what a reader of the instruction set might expect, and the model follows the code:

- One might expect surrounding blanks to be trimmed from each line. They are not: lines are matched exactly as read, so a blank or indented line is an "Unknown Instruction".
- One might expect `LD ACC 3F` to assemble to `64 3F`. It assembles to `62 3F`, because an immediate operand adds 2 to the base 0x60 (`Syntax.LoadImmediateEncoded`).

## Model

| member | source | states |
|---|---|---|
| Hex.HexValue | src/parser.rs:124-125 | parsing one or two hex digits (`from_str_radix(_, 16)`) gives a byte, and a single digit gives a value below 16 |
| Hex.Hex2 | src/code.rs:156 | `{:02X}` prints exactly two hex digits |
| Hex.Hex2Space | src/code.rs:149 | `{:2X}` prints two characters, and they are the `{:02X}` digits exactly when the byte is at least 16 |
| Hex.Hex2RoundTrip | src/code.rs:156 | reading back the two digits printed for a byte gives that byte |
| Hex.DigitValueCaseless | src/parser.rs:125 | a hex letter has the same value in lower and upper case, and that value prints as the upper-case letter |
| Hex.HexValueCanonical | src/parser.rs:124-125 | the value read from one or two digits of either case is the byte that prints as those digits upper-cased and zero padded; with `Hex2RoundTrip` this fixes the value of every such text |
| Hex.HexLine | src/code.rs:149-157 | an output line for n bytes is 3n characters long, starts with the two digits of its first byte and ends with a newline |
| Hex.HexBytesRoundTrip | src/code.rs:156 | decoding the space-separated upper-case digits printed for a run of bytes gives the bytes back |
| Hex.HexBytesUnique | src/code.rs:156 | a text that decodes to some bytes is exactly the text printed for them, so the printed form is unique |
| Hex.HexLineRoundTrip | src/code.rs:147-158 | an output line decodes to its bytes, and the printed line is the only line that decodes to them |
| Instructions.New | src/instruction.rs:27-39 | `Instruction::new` keeps the kind, mnemonic and both operands it is given |
| Instructions.Payload | src/instruction.rs:73-82 | only the five addressing forms other than `ACC` and `IX` carry a byte |
| Instructions.OperandBDeterminedByModeAndPayload | src/instruction.rs:73-82 | two operand-B values are equal exactly when they have the same addressing form and the same byte |
| Instructions.OperandBWidth | src/parser.rs:153-194 | an operand B takes two bytes when it carries one, one byte otherwise |
| Instructions.Width | src/parser.rs:67-108 | an instruction is one or two bytes, and two exactly for a branch or a MAL whose operand B carries a byte |
| Patterns.MatchLabel | src/parser.rs:18 | a captured label is a non-empty upper-case word, and the line is that word followed by `:` |
| Patterns.LabelComplete | src/parser.rs:18 | every upper-case word followed by `:` is matched, and its capture is the word |
| Patterns.EnclosedComplete | src/parser.rs:143-149 | each bracketed form, written with one or two digits, matches its pattern and captures the digits |
| Patterns.MatchMal | src/parser.rs:57-63 | a MAL match splits the line into a 2-3 letter mnemonic, a register and an operand-B text, joined by single spaces |
| Patterns.MalComplete | src/parser.rs:57-63 | every such mnemonic, register and operand-B text joined by spaces is matched and gives back those three captures |
| Patterns.MatchBranch | src/parser.rs:55 | a branch match splits the line into `B` plus one or two letters and a target, which is one or two hex digits or an upper-case word |
| Patterns.BranchComplete | src/parser.rs:55 | every such mnemonic and target joined by a space is matched and gives back both captures |
| Patterns.MatchShift | src/parser.rs:53 | a shift match splits the line into `S` or `R` plus a mode, and a register |
| Patterns.ShiftComplete | src/parser.rs:53 | every such mnemonic and register joined by a space is matched and gives back both captures |
| Patterns.IsCtrlLine | src/parser.rs:51 | a control line is the mnemonic alone: two or three characters, no space, and never a label declaration |
| Patterns.PatternsDisjoint | src/parser.rs:68-105 | no line matches two of the label, MAL, Branch, Shift and Ctrl patterns, so the order in which `discern` tries them does not matter |
| Tables.MalBases | src/code.rs:62-73 | every MAL base is a multiple of 16 between 0x60 and 0xF0, so the increments never carry |
| Tables.MalInjective | src/code.rs:62-73 | distinct MAL mnemonics have distinct bases |
| Tables.CtrlInjective | src/code.rs:76-83 | distinct control mnemonics have distinct opcodes |
| Tables.ShiftModes | src/code.rs:86-91 | the four shift modes take the values 0 to 3, one each |
| Tables.BranchConds | src/code.rs:94-111 | the sixteen conditions take sixteen distinct values below 16 |
| Tables.BranchCondsOnto | src/code.rs:94-111 | every value below 16 is the code of some condition |
| Code.OperandBDelta | src/code.rs:124-145 | operand B adds 0, 1, 2, 4, 5, 6 or 7 to the opcode, never 3 |
| Code.DeltaIdentifiesMode | src/code.rs:124-145 | two operand-B values add the same increment exactly when they have the same addressing form |
| Code.MalOpcode | src/code.rs:115-145 | a MAL opcode keeps its table base as the high nibble, and the register and operand-B increments make up the low nibble |
| Code.MalOpcodeInjective | src/code.rs:115-145 | two MAL opcodes are equal exactly when the mnemonic, the register and the addressing form are all equal |
| Code.MalBytes | src/code.rs:115-159 | a MAL instruction encodes exactly when its mnemonic is in the table and it has a register A and an operand B; then it gives the opcode and, for a form that carries a byte, that byte; a mnemonic missing from the table is the `unwrap` panic |
| Code.FormMal | src/code.rs:115-159 | `form_mal` builds the opcode by adding increments one at a time, and its line is the line of `MalBytes` |
| Code.FormCtrl | src/code.rs:162-164 | a control instruction encodes exactly when its mnemonic is in the table, as the one-byte line of its opcode; otherwise it fails with the missing key |
| Code.ShiftOpcode | src/code.rs:167-185 | a shift encodes exactly when its mnemonic has at least three letters, letters 1 and 2 are a mode and it has a register; the opcode lies in 0x40..0x4F and its low nibble is 4 for a rotate plus the mode plus 8 for `IX` |
| Code.ShiftOpcodeInjective | src/code.rs:167-185 | every shift the parser accepts encodes, and two of them share an opcode exactly when they have the same mnemonic and register |
| Code.FormShift | src/code.rs:167-185 | `form_shift`, building the opcode step by step, writes the one-byte line of `ShiftOpcode` or fails as it does |
| Code.BranchOpcode | src/code.rs:188-192 | a branch encodes exactly when the mnemonic without its `B` is a condition, and the opcode is 0x30 plus that condition's code |
| Code.BranchOpcodeInjective | src/code.rs:188-192 | two branch opcodes are equal exactly when their conditions are equal |
| Code.TargetText | src/code.rs:199 | an address target prints as two digits that read back as the address, and a label prints as its name |
| Code.PadTarget | src/code.rs:195-197 | a target shorter than two characters gets exactly one leading `0`, and a longer one is unchanged |
| Code.PadTargetIdempotent | src/code.rs:195-197 | padding a non-empty target twice gives the same result as padding it once |
| Code.PadTargetIsHex2 | src/code.rs:195-199 | for an address written in upper-case digits, padding gives the same text as printing its value with `{:02X}` |
| Code.PadOperand | src/code.rs:195-197 | the target's printed text after padding in place is the padded text |
| Code.PadInstruction | src/code.rs:188-197 | `form_branch` changes only operand A, to its padded form |
| Code.BranchLine | src/code.rs:188-200 | a branch line exists exactly when the opcode exists and there is a target; it is the opcode's two digits, a space and the padded target; a bad condition fails as the opcode does |
| Code.FormBranch | src/code.rs:188-200 | `form_branch` writes `BranchLine` and leaves the instruction padded when it succeeds, and untouched when it fails |
| Code.FormLine | src/code.rs:30-46 | one step of the `assemble` loop writes the line of the instruction's kind, fails on `Unknown`, and leaves the instruction padded only when it is a branch that formats |
| Code.EncodeLine | src/code.rs:30-46 | an instruction of kind `Unknown` is the `Unknown Instruction` panic, and every line written starts with the two hex digits of an opcode and ends with a newline |
| Code.EncodeAll | src/code.rs:29-47 | a successful pass gives one line per instruction, in order, each the line of its instruction |
| Code.EncodeAllOk | src/code.rs:29-47 | the pass succeeds exactly when every instruction has a line |
| Code.EncodesIffInTables | src/code.rs:115-200 | an instruction of the shape the parser builds encodes exactly when the tables hold its mnemonic, shift mode or branch condition |
| Code.ProgramEncodes | src/code.rs:25-50 | a program of such instructions encodes exactly when every instruction finds its table entries |
| Code.EncodeAllStopsAtFailure | src/code.rs:29-47 | once a prefix of the program fails, the whole program fails with the same error |
| Code.EncodeAllFailsAt | src/code.rs:29-47 | the first instruction that fails decides the error of the whole pass |
| Code.PadPrefix | src/code.rs:29-47 | after the first k instructions are visited, exactly those k are padded and the rest are untouched |
| Code.Assemble | src/code.rs:25-50 | `assemble` over the vector in place returns the lines of `EncodeAll`; on success every instruction is left padded; on failure the ones before the failing instruction are padded and the rest are untouched |
| Code.DiscernOperandA | src/code.rs:203-209 | the encoder's operand-A classifier accepts exactly `ACC` and `IX`, and gives back the register whose name is the text |
| Code.EnclosedAtStart | src/code.rs:216-222 | a match at the start of the text is the opening text, one or two hex digits and the closing bracket |
| Code.EnclosedAtStartComplete | src/code.rs:216-222 | every text that starts with the opening text, one or two hex digits and the closing bracket is matched at its start with exactly those digits, whatever text follows |
| Code.FindEnclosedAbsent | src/code.rs:216-222 | a text that never contains the first character of the opening text holds no match |
| Code.FindEnclosed | src/code.rs:216-222 | the unanchored bracket search finds nothing exactly when no position of the text starts a match; otherwise it returns the digits of the match that starts first |
| Code.FindHex | src/code.rs:214 | the unanchored `[0-9a-fA-F]{1,2}` search finds something exactly when the text holds a hex digit; what it finds is the text at the first hex digit, two digits when the next character is one too, else one |
| Code.DiscernOperandB | src/code.rs:212-253 | the encoder's operand-B classifier fails (`Invalid Operand B`) exactly on a text that is neither register and holds no hex digit |
| Parser.DiscernOperandA | src/parser.rs:119-137 | operand A is accepted exactly when it is a register or a target, and otherwise is the `Invalid Operand A` panic; `ACC` and `IX` give those registers, any one or two hex digits give `Dest` of their value, and any other upper-case word gives `Symbol` of that word |
| Parser.ClassifyOperandB | src/parser.rs:153-194 | operand B is accepted exactly when it has one of the seven forms of the MAL pattern; anything else is the `Invalid Operand B` panic |
| Parser.AdvancePc | src/parser.rs:81 | advancing the `u8` counter succeeds exactly when the sum stays at most 255, and then gives the sum; otherwise it is an overflow |
| Parser.DiscernOperandB | src/parser.rs:153-194 | `discern_opr_b` returns the classified operand and advances the counter by its width, or fails with overflow or an invalid operand |
| Parser.Recognize | src/parser.rs:67-108 | a line that matches no pattern is the `Unknown Instruction` panic, and a recognized instruction is well shaped |
| Parser.RecognizeKinds | src/parser.rs:67-108 | a line is an instruction exactly when one of the four patterns matches it, and that pattern fixes the kind and the mnemonic |
| Parser.Discern | src/parser.rs:67-108 | `discern` returns the recognized instruction if it fits under the counter limit, and advances the counter by the instruction's width |
| Parser.Place | src/parser.rs:67-108 | an instruction is placed exactly when it was recognized and its width still fits under the counter limit of 255; it is then unchanged, a recognition failure passes through, and otherwise the result is the counter overflow |
| Parser.ParseLines | src/parser.rs:25-38 | the loop over the lines fails only with the `Unknown Instruction` panic or the counter overflow |
| Parser.ParseLinesGrows | src/parser.rs:25-38 | the loop only adds: the instructions so far stay a prefix of the program, no label name is lost from the symbol table, and the counter never goes back |
| Parser.ParseLine | src/parser.rs:28-33 | a label line records the counter under its name and changes nothing else; any other line appends exactly one instruction and advances the counter by its width, or fails |
| Parser.RecognizeAll | src/parser.rs:25-33 | recognizing all lines gives one well-shaped instruction per line, in order |
| Parser.Parse | src/parser.rs:14-45 | the loop of `parse` returns the instructions and the symbol table of `ParseLines`, or the first failure |
| Parser.ParseLinesStopsAtFailure | src/parser.rs:25-38 | once a prefix of the file fails, the whole file fails with the same error |
| Parser.ParseLinesFailsAt | src/parser.rs:25-38 | the first line that fails decides the result of the whole pass |
| Parser.ParseLineConsistent | src/parser.rs:28-33 | one line keeps the counter equal to the total width of the instructions so far |
| Parser.ParseLinesResult | src/parser.rs:14-45 | pass 1 succeeds exactly when every non-label line is recognized and their total width fits under 256; the program is then those instructions in order, and the counter is the start value plus their total width |
| Parser.ParseLinesConsistent | src/parser.rs:20-33 | the counter equals the total width of the instructions after any number of lines |
| Parser.LabelAddress | src/parser.rs:28-30 | a label's value is the counter at the start plus the total width of the instructions on the lines before its last declaration |
| Parser.LabelsDeclared | src/parser.rs:28-30 | a name is in the symbol table after pass 1 exactly when it was there before or some line declares it |
| Assembly.OperandBAgreement | src/code.rs:212-253 | on every operand text the parser accepts, the encoder's unanchored classifier finds the same operand as the parser's anchored one |
| Assembly.OperandAAgreement | src/code.rs:203-209 | on a register, the encoder's operand-A classifier agrees with the parser's |
| Assembly.EncoderAcceptsMore | src/code.rs:214 | the encoder reads `G5` as the immediate 5, where the parser rejects it |
| Assembly.EncodedFields | src/code.rs:115-200 | the line written for a parsed instruction has as many fields as the parser counted bytes for it |
| Assembly.EncodedBytes | src/code.rs:188-200 | when a branch target is an address, every line decodes to exactly as many bytes as the instruction's width |
| Assembly.ProgramFields | src/code.rs:25-50 | the encoder writes as many fields for a whole program as the parser's counter advanced over it |
| Assembly.LabelIsOffset | src/parser.rs:28-32 | after both passes, a label's value is the number of fields written for the instructions above its last declaration |
| Assembly.ResolvedBranchBytes | src/code.rs:188-200 | a branch encoder that resolves labels (an addition, not in the source) writes the opcode and the label's address; it fails when the label is missing from the table |
| Assembly.ResolvedAgreesOnAddresses | src/code.rs:188-200 | for an address target, the resolving encoder writes the same line as `form_branch` |
| Assembly.ResolvedTargetIsOffset | src/parser.rs:28-30 | with resolution, a branch to a label carries the number of bytes written before the label |
| Syntax.OperandBText | src/parser.rs:57-63 | every operand B can be written in a form that the MAL pattern accepts |
| Syntax.OperandBRoundTrip | src/parser.rs:153-194 | the parser's operand-B classifier reads every written operand back |
| Syntax.DigitOperandsClassified | src/parser.rs:153-194 | for any one or two hex digits `h` of either case, `h`, `[h]`, `(h)`, `[IX+h]` and `(IX+h)` are read as the immediate, absolute and indexed forms, each holding the value of `h` |
| Syntax.EncoderDigitOperands | src/code.rs:212-253 | the encoder's own classifier reads those five forms the same way |
| Syntax.OperandARoundTrip | src/parser.rs:119-137 | the parser's operand-A classifier reads back every written register, address and non-hex label |
| Syntax.RenderRoundTrip | src/parser.rs:67-108 | reading a rendered instruction gives the instruction back, and the line is not a label |
| Syntax.RecognizedParseable | src/parser.rs:67-108 | everything the parser recognizes is an instruction that can be rendered |
| Syntax.EncoderOperandBRoundTrip | src/code.rs:212-253 | the encoder's own classifier also reads every written operand back |
| Syntax.LoadImmediateParsed | src/parser.rs:57-79 | `LD ACC 3F` is a load of the accumulator with the immediate 0x3F |
| Syntax.LoadImmediateEncoded | src/code.rs:115-159 | that load is written as `62 3F` |
| Syntax.UnknownConditionParsed | src/parser.rs:55 | the parser accepts `BX 05` although `X` is no condition |
| Syntax.UnknownConditionEncoded | src/code.rs:192 | the encoder then fails on the table lookup of `X` |
| Syntax.HexLookingLabelExample | src/parser.rs:119-131 | `BA AB` jumps to address 0xAB: a label made of hex letters is read as an address |
| Syntax.ShortLabelParsed | src/parser.rs:119-131 | in `BA X`, the target `X` is a label |
| Syntax.ShortLabelEncoded | src/code.rs:195-199 | that one-letter label is padded and written as `30 0X` |
| Syntax.OneDigitTargetParsed | src/parser.rs:119-125 | in `BA 5`, the one-digit target is the address 0x05 |
| Syntax.OneDigitTargetEncoded | src/code.rs:195-199 | that address is written with two digits, as `30 05` |
| Syntax.LabelLineNotHex | src/code.rs:199 | the line written for a branch to a label, `30 LOOP`, does not decode as hex bytes |
| Syntax.TrailingTextExample | src/code.rs:218-249 | the encoder's bracket patterns are not anchored at the end: `(5)x` is found as `(5)` and read as the absolute data address 5 |
| Syntax.ThreeDigitTargetExample | src/parser.rs:80-90 | a three-digit target such as `BA 123` matches no pattern and is an unknown instruction; it is not cut to two digits |

## Left out

- File I/O is not modelled. `parse` takes the lines as a sequence, and `assemble` returns its lines instead of writing a file. I/O errors are left out: failing to open or read a file (src/parser.rs:22-41), and failing to create or write one (src/code.rs:26-27, 32-41).
- `src/main.rs` is not part of this model. It handles the command line and calls the two passes.
- The `Display` implementation of `Instruction` (src/instruction.rs:42-58) is left out. It only prints debugging text.
- A release build lets the `u8` counter wrap around silently. The model follows the debug build, where the overflow is a failure (`PcOverflow`). A program whose instructions take 256 bytes or more therefore fails.
- A panic is modelled as a failed result. The model does not produce the lines written to the output file before the panic.
- Code.TargetText: an address target is printed as two upper-case digits. The source prints the target's own text, so an address written in lower case (`BA 0f`) prints `0f` in the source and `0F` here. `Code.PadTargetIsHex2` shows that the two agree on upper-case text.
- Code.Assemble: the encoder works on the typed `Instruction`. In `src/code.rs`, `form_*` treat `opr_a` and `opr_b` as strings and classify them again with their own `OperandA` and `OperandB` types, which do not type-check against `src/instruction.rs`. Those string classifiers are modelled separately (`Code.DiscernOperandA`, `Code.DiscernOperandB`), and `Assembly.OperandBAgreement` and `Assembly.OperandAAgreement` show they agree with the parser on every text the parser accepts.
- Strings are sequences of characters. The byte-versus-character slicing of Rust's `str` (`inst[1..3]` on non-ASCII text) is not modelled.
- The regular-expression engine and `lazy_static` are not modelled, so neither is the `unwrap` of each `Regex::new`; the patterns are constants that compile. Each pattern is a hand-written matcher, with lemmas showing that it is sound and complete.
- Labels are not resolved, as in the source: a branch to a label writes the label's name. `Assembly.ResolvedBranchBytes` is an addition that shows what resolution would write.

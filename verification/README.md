# RISC-O toolchain in Dafny

A model of the RISC-O toolchain and proofs about it. RISC-O is a small
16-bit, word-addressed instruction set with 16 registers, where R14 is the
stack pointer and R15 the program counter. It has two flags, Z and C, and
0x2000 words of memory, with console ports mapped at 0xF000-0xF003. The
toolchain has three parts:

- **The assembler** (`CompiladorDeAssembly.py`) works in two passes. The
  first strips comments and peels `label:` prefixes, numbering the
  instruction lines 0, 1, 2, .... The second packs each line's operands
  into the bit fields of its mnemonic. It prints one `AAAA WWWW` line per
  instruction.
- **The Python simulator** (`projetoFinal.py`) runs a fetch-decode-execute
  loop over a staged next program counter.
- **The C simulator** (`projetoFinal.c`) runs the same loop, except that
  it advances R15 before the handler runs.

The Dafny modules follow that structure:

| module | what it holds |
|---|---|
| `Words` | 16-bit words, truncation, two's-complement reading, shifts |
| `Results` | `Option` and `Result` |
| `Isa` | the opcode numbers, the instruction fields, and an `Instr` datatype with its `Encode`/`Decode` |
| `AsmText` | the text functions the assembler uses: `strip`, `upper`, `split`, the comment substitution, the label regex and the tokenising regex, written as scanners |
| `Literals` | `int(s)` and `int(s, 0)`, and the `%04X` formatting |
| `Assembler` | the `opcodes` table, `get_val`, `parse_reg` and `encode` |
| `Passes` | `assemble`, that is pass 1 and pass 2 |
| `Machine` | the processor state, the dumped cells and the memory image |
| `PySim` | the Python handlers, cycle, image load and start-up |
| `CSim` | the C handlers, cycle, image load and start-up |
| `Agreement` | where the two simulators agree and where they part ways |
| `Toolchain` | the assembler's output fed to either simulator |

Each operation is a pure function on an immutable state. Failures the
source reaches by raising are values of `Result` or `Status`.

The main results:

- Decoding an encoded instruction gives it back, for every form.
- A JMP or conditional branch aimed at a label within reach of its
  offset field makes both simulators continue at that label.
- A listing whose first word is 0, for instance one that starts with a
  JMP to the next line, prints `0000 0000` first. Both loaders read that
  line as the end of the image, so nothing is loaded
  (`Toolchain.ZeroFirstWordLoadsNothing`).
- A label is bound to the address of the instruction that follows it.
- The listing has exactly one line per instruction, in address order.
- The C and Python handlers agree whenever the instruction neither reads
  R15 nor moves a negative immediate nor leaves backed memory
  (`Agreement.ExecuteAgrees`). The exceptions are stated as follows:
  - R15, in general: after C's fetch, the C handler computes exactly what
    the Python handler computes on Python's state with R15 reading
    pc + 1 (`Agreement.SeesNextPc`). `Agreement.AddOfR15Differs` works
    one instance through.
  - MOV: the two agree exactly when the immediate is below 0x80
    (`Agreement.MovAgreement`).
  - The console ports: `Agreement.PortReadAgreement` and
    `Agreement.PortWriteAgreement`. Reads are compared over one shared
    sequence of console values, which the same console text yields only
    for non-whitespace ASCII characters and single-token integer lines.
  - Other addresses past memory: C reads 0 and drops writes (`CSim.Ldr`,
    `CSim.Str`, `CSim.Push`, `CSim.Pop`), where Python raises.

## Model

| member | source | states |
|---|---|---|
| Words.Trunc16 | projetoFinal.py:60 | `& 0xFFFF` gives the one word congruent to x modulo 2^16, and leaves a word unchanged |
| Words.TruncKeeps | projetoFinal.py:299 | truncation fixes exactly the values in 0..0xFFFF and moves any other value by a multiple of 2^16 |
| Words.Signed16 | projetoFinal.py:92 | `c_int16(w).value` lies in [-0x8000, 0x8000) and truncates back to w |
| Words.SignExtend | projetoFinal.c:90-96 | a width-bit field read in two's complement: either the field itself or the field minus 2^width, inside the signed range |
| Words.SignExtendTruncate | projetoFinal.c:74-88 | masking a value representable in `width` signed bits and sign-extending it gives the value back |
| Words.ShrSplit | projetoFinal.py:203-204 | a shift right by k > 0 splits the operand into the result, bit k-1 (the carry) and the bits below it |
| Words.Shr | projetoFinal.py:203-204 | a right shift never grows the operand; characterised by `Words.ShrSplit` |
| Words.Shl | projetoFinal.py:216-218 | no contract; characterised by `PySim.ShlOp` |
| Words.And16 | projetoFinal.py:315 | no contract; characterised by `PySim.And` |
| Words.Or16 | projetoFinal.py:192 | no contract; characterised by `PySim.Or` |
| Isa.OpcodeFor | projetoFinal.c:20-35 | the opcode class whose `OP_*` number is n |
| Isa.OpcodeOf | projetoFinal.py:384-389 | the dispatch finds a handler exactly for 0 <= n < 16, and that handler's opcode number is n |
| Isa.OpcodeNumberInjective | projetoFinal.py:321-338 | no two handlers share an opcode number |
| Isa.Offset12 | projetoFinal.c:74-80 | the JMP offset lies in [-2048, 2047] |
| Isa.Offset10 | projetoFinal.c:82-88 | the conditional-branch offset lies in [-512, 511] |
| Isa.BodyKeepsFields | projetoFinal.py:379-380 | `ir & 0xFFF0` clears the opcode and keeps every register, immediate, condition and offset field |
| Isa.CondFor | projetoFinal.py:79-88 | the condition selected by bits 15:14 is the one numbered n |
| Isa.Pack | CompiladorDeAssembly.py:129 | the word `a<<12 \| b<<8 \| c<<4 \| d` gives back a, b, c and d from the rd, rm, rn and opcode fields |
| Isa.DecodeEncode | CompiladorDeAssembly.py:90-142 | every well-formed instruction decodes back to itself from the word it encodes to |
| Isa.DecodeEncodeJump | CompiladorDeAssembly.py:98-101 | a JMP offset in [-2048, 2047] survives encoding and decoding |
| Isa.DecodeEncodeBranch | CompiladorDeAssembly.py:91-96 | a conditional-branch offset in [-512, 511] survives with its condition |
| Isa.DecodeEncodeMove | CompiladorDeAssembly.py:118-121 | MOV's register and 8-bit immediate survive |
| Isa.DecodeEncodePacked | CompiladorDeAssembly.py:103-142 | LDR, STR, the ALU forms, CMP, PUSH and POP survive |
| Isa.BranchFields | CompiladorDeAssembly.py:96 | the branch layout puts the condition at bits 15:14, the offset at bits 13:4 and 1 in the opcode nibble |
| Isa.Encode | CompiladorDeAssembly.py:90-142 | no contract; characterised by `Isa.DecodeEncode` |
| Isa.Decode | projetoFinal.py:379-380 | no contract; characterised by `Isa.DecodeEncode` |
| Isa.Taken | projetoFinal.py:97-122 | no contract; characterised by `PySim.TakenAfterCmp` and `Assembler.TableAgrees` |
| AsmText.LStrip | CompiladorDeAssembly.py:37 | leading whitespace removed: a suffix whose dropped part is all whitespace and which does not start with whitespace |
| AsmText.RStrip | CompiladorDeAssembly.py:41 | trailing whitespace removed: a prefix whose dropped part is all whitespace and which does not end in whitespace |
| AsmText.Strip | CompiladorDeAssembly.py:55 | `strip()` is the slice of the line between an all-whitespace prefix and an all-whitespace suffix, with no whitespace left at either end |
| AsmText.StripTrimmed | CompiladorDeAssembly.py:55 | `strip()` changes nothing on text with no whitespace at either end |
| AsmText.StripBlank | CompiladorDeAssembly.py:42-43 | a line is skipped as blank exactly when all its characters are whitespace |
| AsmText.StripChar | CompiladorDeAssembly.py:81 | `strip("'")` is a slice of the token with only quotes around it, and has no quote left at either end |
| AsmText.Replace | CompiladorDeAssembly.py:84 | `replace(",", " ")` keeps the length and changes exactly the commas |
| AsmText.Remove | CompiladorDeAssembly.py:68 | `replace(c, "")` removes every c and keeps every other character as often as before |
| AsmText.RemoveAppend | CompiladorDeAssembly.py:68 | removal works piece by piece, so the characters kept stay in their original order |
| AsmText.RemoveAbsent | CompiladorDeAssembly.py:71 | removing a character that does not occur changes nothing |
| AsmText.Upper | CompiladorDeAssembly.py:85 | `upper()` upper-cases each character in place |
| AsmText.UpperIdle | CompiladorDeAssembly.py:85 | text without lower-case letters is its own upper case |
| AsmText.SplitLines | CompiladorDeAssembly.py:33 | `split("\n")` gives at least one line, none holding a newline, and the lines joined with newlines are the text |
| AsmText.SplitJoin | CompiladorDeAssembly.py:33 | splitting lines joined with newlines gives the same lines back |
| AsmText.StripComment | CompiladorDeAssembly.py:41 | `re.sub(r";.*\|//.*", "", line)` keeps the text before the first `;` or `//` and nothing after it |
| AsmText.StripCommentFree | CompiladorDeAssembly.py:41 | no comment marker survives the substitution |
| AsmText.MatchLabel | CompiladorDeAssembly.py:37 | a label match yields an identifier and a strictly shorter tail of the line that does not start with whitespace |
| AsmText.MatchLabelComplete | CompiladorDeAssembly.py:37 | every line shaped `ws name ws : rest` matches, with that name and `rest` without its leading whitespace |
| AsmText.PeelLabels | CompiladorDeAssembly.py:47-54 | the label loop yields only identifiers and stops at text that is not itself a label line |
| AsmText.PeelLabelsSuffix | CompiladorDeAssembly.py:47-54 | what the label loop leaves is a suffix of the line |
| AsmText.Tokens | CompiladorDeAssembly.py:84 | `re.findall` yields non-empty tokens made only of characters of its two classes |
| AsmText.TokensCoverKept | CompiladorDeAssembly.py:84 | the tokens, run together, are exactly the line's characters of either class, in order |
| Literals.ParseInt | CompiladorDeAssembly.py:68 | `int(s)` succeeds exactly on optional whitespace, an optional sign and well-grouped decimal digits |
| Literals.PrefixBase | CompiladorDeAssembly.py:75 | a `0x`, `0o` or `0b` prefix picks base 16, 8 or 2 |
| Literals.Digits | CompiladorDeAssembly.py:64 | a number printed in a base: digits of that base, no leading zero except for 0 itself |
| Literals.Hex4 | CompiladorDeAssembly.py:64 | `{:04X}` prints at least four hexadecimal digits |
| Literals.DigitsValue | CompiladorDeAssembly.py:64 | printed digits read back as the number printed |
| Literals.HexValue | CompiladorDeAssembly.py:64 | the four-digit hexadecimal the listing prints spells the word |
| Literals.DecimalRoundTrip | CompiladorDeAssembly.py:75 | a decimal without leading zeros reads back under `int(s, 0)` with either sign, and under `int(s)` |
| Literals.ReadDecimal | CompiladorDeAssembly.py:75 | well-grouped decimal digits with no leading zero read back as their value, negated behind `-` |
| Literals.ReadHex | CompiladorDeAssembly.py:75 | well-grouped hexadecimal digits behind `0x` read back as their value |
| Literals.HexRoundTrip | CompiladorDeAssembly.py:75 | a listing word written as a `0x` literal reads back as that word |
| Literals.LeadingZeroRule | CompiladorDeAssembly.py:68 | a leading zero is accepted by `int` (registers) but rejected by `int(s, 0)` (values) |
| Literals.ZeroPrefixed | CompiladorDeAssembly.py:75 | the same for any well-grouped decimal that does not start with zero |
| Literals.LeadingZeroRejected | CompiladorDeAssembly.py:75 | `int(s, 0)` rejects a decimal with a leading zero unless it is all zeros |
| Literals.ParseLiteral | CompiladorDeAssembly.py:75 | no contract; characterised by `Literals.DecimalRoundTrip`, `Literals.ReadHex` and `Literals.LeadingZeroRejected` |
| Literals.FormatLine | CompiladorDeAssembly.py:64 | no contract; characterised by `Passes.Listing` and `Literals.HexValue` |
| Assembler.MnemonicOfSpelling | CompiladorDeAssembly.py:7-29 | a token is found in the `opcodes` table exactly when it spells that mnemonic |
| Assembler.FoundSpelling | CompiladorDeAssembly.py:89 | whatever the lookup finds is spelled by the token looked up |
| Assembler.SpellingFound | CompiladorDeAssembly.py:7-29 | every mnemonic's spelling is found as that mnemonic |
| Assembler.CondCode | CompiladorDeAssembly.py:92 | the branch condition code fits in two bits |
| Assembler.TableAgrees | CompiladorDeAssembly.py:7-29 | the table's opcode values are the simulators' opcode numbers, HALT is 0xFFFF, opcode 1 belongs exactly to the branches, and each condition code names the condition the simulators test |
| Assembler.TableValue | CompiladorDeAssembly.py:7-29 | no contract; characterised by `Assembler.TableAgrees` |
| Assembler.MnemonicOf | CompiladorDeAssembly.py:7-29 | the lookup of a token in the `opcodes` table; characterised by `Assembler.MnemonicOfSpelling` |
| Assembler.Fields | CompiladorDeAssembly.py:123-129 | a missing operand gives 0; otherwise the word fits in 16 bits with the mnemonic's opcode in the low nibble |
| Assembler.LowNibble | CompiladorDeAssembly.py:129 | OR-ing the opcode below fields shifted by 4 keeps the opcode as the low nibble |
| Assembler.MovFields | CompiladorDeAssembly.py:118-121 | the MOV word: 0 for a missing operand, otherwise 16 bits with opcode 4 in the low nibble |
| Assembler.JumpWord | CompiladorDeAssembly.py:98-101 | the JMP word fits in 16 bits and has opcode 0 |
| Assembler.BranchWord | CompiladorDeAssembly.py:91-96 | the conditional-branch word fits in 16 bits and has opcode 1 |
| Assembler.EncodeTokens | CompiladorDeAssembly.py:84-145 | no tokens raises; an unknown mnemonic gives 0; HALT gives 0xFFFF; any other non-zero word has the table's opcode |
| Assembler.EncodeArgs | CompiladorDeAssembly.py:89-145 | a word of 16 bits with the table's low nibble, or rejection for an oversized register |
| Assembler.PackedWord | CompiladorDeAssembly.py:103-142 | the four-nibble forms fit in 16 bits with the table's low nibble |
| Assembler.Regs | CompiladorDeAssembly.py:124-128 | three operands are registers exactly when all three parsed and lie in 0..15 |
| Assembler.ParseReg | CompiladorDeAssembly.py:67-68 | no contract; characterised by `Assembler.Regs` and `Literals.LeadingZeroRule` |
| Assembler.GetVal | CompiladorDeAssembly.py:70-77 | no contract; characterised by `Assembler.IdentifierValue` and `Assembler.LabelOperand` |
| Assembler.ReadArgs | CompiladorDeAssembly.py:90-142 | no contract; characterised by `Assembler.ArgsDenoted` |
| Assembler.EncodeLine | CompiladorDeAssembly.py:79-82 | the result of one listing line; characterised by `Assembler.CharConstants`, `Assembler.Dispatches` and `Assembler.EncodesDenoted` |
| Assembler.Denotes | CompiladorDeAssembly.py:79-145 | the instruction a tokenised line stands for is well formed |
| Assembler.Meaning | CompiladorDeAssembly.py:89-142 | the instruction a mnemonic and its read operands stand for is well formed |
| Assembler.PackedMeaning | CompiladorDeAssembly.py:103-142 | the instruction of a four-nibble form is well formed |
| Assembler.Form | CompiladorDeAssembly.py:103-142 | the four-nibble forms built from fields in 0..15 are well formed |
| Assembler.SignedField | CompiladorDeAssembly.py:95 | the offset a signed field of m values can hold lies in [-m/2, m/2) |
| Assembler.SignedFieldAgrees | CompiladorDeAssembly.py:95-100 | that offset is congruent to the distance modulo m, and equals it when it fits |
| Assembler.EncodesDenoted | CompiladorDeAssembly.py:79-145 | a line that stands for an instruction encodes to exactly that instruction's word; any other line gives 0 or is rejected |
| Assembler.ArgsDenoted | CompiladorDeAssembly.py:89-142 | for every mnemonic but HALT, the word from the read operands is the encoding of what they mean |
| Assembler.TargetArgsDenoted | CompiladorDeAssembly.py:91-101 | the same for JMP and the conditional branches |
| Assembler.JumpDenoted | CompiladorDeAssembly.py:98-101 | the JMP word is the encoding of a jump by the distance truncated to a signed 12-bit offset |
| Assembler.BranchDenoted | CompiladorDeAssembly.py:91-96 | the branch word is the encoding of the mnemonic's condition with a signed 10-bit offset |
| Assembler.MovDenoted | CompiladorDeAssembly.py:118-121 | the MOV word is the encoding of a move of the immediate modulo 256 |
| Assembler.PackedDenoted | CompiladorDeAssembly.py:103-142 | the four-nibble forms encode the instruction their operands mean, or give 0, or are rejected |
| Assembler.PushPopFields | CompiladorDeAssembly.py:139-142 | PUSH fills only bits 7:4 and POP only bits 15:12 |
| Assembler.FieldsDenoted | CompiladorDeAssembly.py:103-142 | packing read registers is encoding the form they fill |
| Assembler.FormPacks | CompiladorDeAssembly.py:103-142 | each four-nibble form is encoded as its fields packed in order |
| Assembler.FieldsPack | CompiladorDeAssembly.py:129 | the shifted and OR-ed fields are the instruction layout's packing |
| Assembler.AssembledDecodes | CompiladorDeAssembly.py:79-145 | what the simulators decode from an assembled line is the instruction the line stands for |
| Assembler.IdentifierValue | CompiladorDeAssembly.py:70-73 | a label used as an operand reads as its address |
| Assembler.LabelOperand | CompiladorDeAssembly.py:93 | a label as first operand is read as the label's address |
| Assembler.JumpToLabel | CompiladorDeAssembly.py:90-101 | `JMP label` and `Jcc label` aim at the label's address, defined before or after the jump |
| Assembler.JmpToLabel | CompiladorDeAssembly.py:98-101 | `JMP label` encodes the label's address |
| Assembler.BranchToLabel | CompiladorDeAssembly.py:91-96 | `Jcc label` encodes the label's address with the mnemonic's condition |
| Assembler.UpperSpelling | CompiladorDeAssembly.py:85 | the table's spellings are already upper case |
| Assembler.Dispatches | CompiladorDeAssembly.py:85-89 | a first token spelling a mnemonic, in any case, selects that mnemonic's encoding |
| Assembler.BranchEncodes | CompiladorDeAssembly.py:91-96 | a conditional branch reads one operand, its target |
| Assembler.JgtIsJge | CompiladorDeAssembly.py:92 | JGT assembles exactly as JGE |
| Assembler.MissingOperand | CompiladorDeAssembly.py:123-145 | a register form short of an operand fails soft to 0, as `CMP R1, R2` does |
| Assembler.CharConstants | CompiladorDeAssembly.py:80-82 | `'c'` assembles to the character's code, `'\0'` to 0, and `''` is rejected |
| Passes.LineItems | CompiladorDeAssembly.py:41-55 | pass 1 reads a line as identifiers followed by text trimmed at both ends |
| Passes.Define | CompiladorDeAssembly.py:52 | binding labels adds exactly those names, maps each to the address, and keeps every other binding |
| Passes.Scan | CompiladorDeAssembly.py:40-58 | every label is bound to an address at most the number of instructions kept |
| Passes.Collect | CompiladorDeAssembly.py:62-64 | all words in order when every line encodes; otherwise the failure of the first line that raises |
| Passes.FirstFailureExtends | CompiladorDeAssembly.py:62-63 | the first line that raises in a prefix is the first one that raises overall |
| Passes.Listing | CompiladorDeAssembly.py:64 | line i of the listing prints address i and word i |
| Passes.ScanProgram | CompiladorDeAssembly.py:55-58 | pass 1 keeps exactly the lines with instruction text, in source order |
| Passes.CodeAppend | CompiladorDeAssembly.py:56-58 | the instructions of one more line are appended after the others |
| Passes.ScanSymbols | CompiladorDeAssembly.py:52 | the symbol table holds exactly the names some line labels |
| Passes.ScanLabel | CompiladorDeAssembly.py:52 | a label's address is the number of instructions before its last defining line |
| Passes.LabelTarget | CompiladorDeAssembly.py:56-58 | a label's address holds the first instruction text at or after its line |
| Passes.CodeSplit | CompiladorDeAssembly.py:56-58 | the instructions before a line followed by those from it on are all the instructions |
| Passes.LabelAddress | CompiladorDeAssembly.py:47-58 | a label defined on line k and not redefined later names the address that holds the first instruction text on line k or after it, whatever lines without text lie between |
| Passes.ScanLabelTarget | CompiladorDeAssembly.py:47-58 | over the items pass 1 reads: a label of item k not defined again later is entered with the address holding the text of the first item from k on that has any |
| Passes.SpelledLabelAddress | CompiladorDeAssembly.py:41-58 | on a line spelled `n1: n2: ... text`, each name not redefined later names the address holding `text` |
| Passes.ItemAt | CompiladorDeAssembly.py:41-55 | pass 1 reads each line on its own: item x is line x read as labels and text |
| Passes.AssembleListing | CompiladorDeAssembly.py:32-65 | the listing has one line per kept instruction in address order, encoded against the complete symbol table; otherwise the first failing line's failure |
| Passes.Assemble | CompiladorDeAssembly.py:32-65 | both passes over the text; characterised by `Passes.AssembleListing` |
| Passes.Pass2 | CompiladorDeAssembly.py:60-65 | pass 2; characterised by `Passes.AssembleListing` |
| Passes.Items | CompiladorDeAssembly.py:41-55 | one item per source line; its entries are given by `Passes.ItemAt` |
| Passes.Encoded | CompiladorDeAssembly.py:62-63 | one `encode` result per kept instruction; read by `Passes.Collect` and `Passes.AssembleListing` |
| Passes.BlankLine | CompiladorDeAssembly.py:41-43 | whitespace lines and comment-only lines give neither labels nor an instruction |
| Passes.SpacesBeforeComment | CompiladorDeAssembly.py:41 | removing a comment after whitespace leaves just the whitespace |
| Passes.NoCommentLeft | CompiladorDeAssembly.py:41-55 | what pass 2 sees of a line holds no comment marker |
| Passes.CodeCommentFree | CompiladorDeAssembly.py:41 | the line with its comment and trailing whitespace cut holds no comment marker |
| Passes.TextCommentFree | CompiladorDeAssembly.py:47-55 | peeling labels and stripping keeps text free of comment markers |
| Passes.LabelledLine | CompiladorDeAssembly.py:41-58 | `n1: n2: ... text` reads as the labels in order and the text |
| Passes.PeelPrefix | CompiladorDeAssembly.py:47-54 | the label loop peels the prefixes one by one and stops at the text |
| Passes.PeelFirst | CompiladorDeAssembly.py:47-54 | one more label in front is peeled first |
| Passes.PeelCons | CompiladorDeAssembly.py:48-53 | one turn of the loop on `name: rest` |
| Passes.LabelLineMatches | CompiladorDeAssembly.py:37 | `name: text` matches the label pattern with that name and text |
| Passes.PeelStep | CompiladorDeAssembly.py:48-53 | a matching line contributes its label and the loop goes on with the rest |
| Passes.PrefixCommentFree | CompiladorDeAssembly.py:47-53 | labels and `: ` bring no comment marker |
| Passes.StripCommentWhole | CompiladorDeAssembly.py:41 | the comment substitution leaves comment-free text alone |
| Machine.Commit | projetoFinal.py:62-63 | end of cycle: R15 takes the staged program counter and nothing else changes |
| Machine.Initial | projetoFinal.py:32-53 | power-up: R14 = 0x2000, other registers, flags and memory zero, nothing touched or printed |
| Machine.StackAddrs | projetoFinal.py:401-403 | the stack cells, from 0x1FFF down to SP, and none when SP is at or above 0x2000 |
| Machine.Ascending | projetoFinal.py:406 | the members of a set within bounds, in strictly ascending order |
| Machine.AccessedAddrs | projetoFinal.py:405-408 | exactly the touched backed addresses, ascending |
| Machine.DumpAddrs | projetoFinal.py:401-408 | the stack cells then the touched cells, all backed |
| Machine.Cells | projetoFinal.py:403 | each listed address paired with the word memory holds there |
| Machine.Snap | projetoFinal.py:391-408 | a dump shows all registers, both flags, and the listed cells with their contents |
| Machine.Live | projetoFinal.py:352-361 | the load stops at the first (0, 0) pair, which is not stored |
| Machine.LastStoreCons | projetoFinal.py:362 | a later store to the same address wins over an earlier one |
| PySim.JmpOffset | projetoFinal.py:92 | `c_int16(ibr).value >> 4` is bits 15:4 as a signed 12-bit number |
| PySim.JmpOffsetIsOffset12 | projetoFinal.py:92 | the arithmetic shift of the int16 view gives the signed 12-bit offset |
| PySim.JccOffset | projetoFinal.py:98 | `c_int16(ibr << 2).value >> 6` is bits 13:4 as a signed 10-bit number, condition bits dropped |
| PySim.JccOffsetIsOffset10 | projetoFinal.py:98 | the shifted int16 view gives the signed 10-bit offset |
| PySim.SetNextPc | projetoFinal.py:59-60 | staging a pc keeps everything else and stores the one word congruent to the value modulo 2^16 |
| PySim.Jmp | projetoFinal.py:91-94 | JMP stages (pc + 1 + offset) mod 2^16 and changes nothing else |
| PySim.Jcc | projetoFinal.py:75-122 | a branch whose condition holds on Z and C stages (pc + 1 + offset) mod 2^16; otherwise nothing changes |
| PySim.Jeq | projetoFinal.py:97-101 | JEQ is taken exactly when Z is 1; otherwise the state is unchanged |
| PySim.Jne | projetoFinal.py:104-108 | JNE is taken exactly when Z is 0 |
| PySim.Jlt | projetoFinal.py:111-115 | JLT is taken exactly when Z is 0 and C is 1 |
| PySim.Jge | projetoFinal.py:118-122 | JGE is taken exactly when Z is 1 or C is 0 |
| PySim.MemRead | projetoFinal.py:255-261 | a read port takes the first console value, echoes it and leaves everything else alone; any other address reads the memory cell there, adds it to the touched set and changes nothing else |
| PySim.MemWrite | projetoFinal.py:264-273 | a write port changes neither memory nor the touched set; any other address is recorded and written |
| PySim.Ldr | projetoFinal.py:276-282 | R[rd] receives the cell at (R[rm] + imm4) mod 2^16, and the address is recorded as touched; nothing else changes. A read port instead gives the first console value mod 2^16, consumes it and echoes it, and leaves the touched set alone |
| PySim.Str | projetoFinal.py:285-291 | R[rn] is written to (R[rm] + imm4) mod 2^16: the char port prints it as a character, the int port as a number, any other address stores it in memory and adds the address to the touched set; nothing else changes |
| PySim.Push | projetoFinal.py:125-128 | for SP >= 1: SP decremented, then R[rn] stored at the new SP; nothing else changes |
| PySim.PushBelowZero | projetoFinal.py:125-128 | PUSH at SP 0 stores R[rn] through index -1, that is into the last cell 0x1FFF, and changes nothing else before SP becomes -1 |
| PySim.Pop | projetoFinal.py:131-139 | the cell at SP goes to R[rd], or is staged as the next pc for R15, and SP is incremented; nothing else changes |
| PySim.Mov | projetoFinal.py:169-172 | R[rd] receives the 8-bit immediate zero-extended; nothing else changes |
| PySim.AddInto | projetoFinal.py:147-151 | result plus carry times 2^16 is the exact sum; Z iff the result is zero; only rd and the flags change |
| PySim.Add | projetoFinal.py:142-151 | ADD: result plus carry times 2^16 is R[rm] + R[rn]; Z iff the result is zero; only rd and the flags change |
| PySim.Addi | projetoFinal.py:175-183 | ADDI: the same law with the 4-bit immediate |
| PySim.SubInto | projetoFinal.py:298-301 | the result is the difference plus 2^16 times the borrow; borrow iff minuend < subtrahend |
| PySim.Sub | projetoFinal.py:295-301 | SUB: the result is R[rm] - R[rn] modulo 2^16; C iff R[rm] < R[rn]; Z iff the result is zero |
| PySim.Subi | projetoFinal.py:304-310 | SUBI: the same law with the 4-bit immediate |
| PySim.LogicInto | projetoFinal.py:315-318 | a logic result lands in rd with C cleared and Z iff it is zero |
| PySim.And | projetoFinal.py:313-318 | AND: R[rd] = R[rm] & R[rn], C cleared, Z iff zero |
| PySim.Or | projetoFinal.py:187-194 | OR: R[rd] = R[rm] \| R[rn], C cleared, Z iff zero |
| PySim.ShrOp | projetoFinal.py:198-207 | SHR: result R[rm] >> k; for k = 0 the value is kept and C cleared; for k > 0, result, carry and the lower bits reassemble R[rm] |
| PySim.ShlOp | projetoFinal.py:211-220 | SHL: the result is R[rm] << k modulo 2^16, and C iff bits were lost |
| PySim.Cmp | projetoFinal.py:154-166 | CMP changes only the flags: Z iff R[rm] == R[rn], C iff R[rm] < R[rn] |
| PySim.Execute | projetoFinal.py:321-338 | dispatch: only branches and POP R15 stage a pc, only the ALU group and CMP set flags, only STR and PUSH write memory, only LDR and STR touch the console or the touched set |
| PySim.Cycle | projetoFinal.py:364-410 | pc >= 0x2000 faults; 0xFFFF halts without dispatch, committing and dumping the state from before the commit, so the dump shows R15 = pc; a running cycle leaves R15 at the staged pc and dumps exactly at a breakpoint; an invalid instruction never dumps |
| PySim.Issue | projetoFinal.py:384-410 | a handler runs to completion and commits its staged pc exactly when it can execute, and at a breakpoint dumps the handler's state before the commit; PUSH at SP 0 stops the cycle with `StackBelowZero`; otherwise the cycle stops with `OutsideModel` where Python raises; a stopped cycle never dumps |
| PySim.CycleIssues | projetoFinal.py:377-389 | at a backed non-HALT word, the cycle stages pc + 1 and runs the handler of its low nibble |
| PySim.CyclePushBelowZero | projetoFinal.py:125-128 | a cycle on PUSH with SP 0 writes R[rn] into cell 0x1FFF and stops with `StackBelowZero`, registers as before the cycle, since SP = -1 is not modelled; PUSH R14 there, which would store SP = -1, stops with `OutsideModel` |
| PySim.CycleAdvances | projetoFinal.py:377-410 | an instruction that does not redirect leaves R15 at pc + 1, so ALU writes to R15 are overwritten |
| PySim.Run | projetoFinal.py:364-365 | at most one dump per cycle run |
| PySim.RunAdditive | projetoFinal.py:364-410 | running a + b cycles is running a cycles and then b more from the state they reached, with the dumps of both stretches in order, unless the first a cycles already stopped, in which case the longer run stops in the same place |
| PySim.LoadContents | projetoFinal.py:352-362 | after loading, each cell holds the last live pair stored there, or its old value |
| PySim.Load | projetoFinal.py:352-362 | the loaded memory keeps its size; characterised by `PySim.LoadContents` |
| PySim.Boot | projetoFinal.py:341-362 | start-up: R14 = 0x2000, R15 = 0, and breakpoints are exactly the listed addresses |
| PySim.CmpFlagsAsSub | projetoFinal.py:154-166 | CMP sets the flags exactly as SUB on the same operands |
| PySim.TakenAfterCmp | projetoFinal.py:97-122 | after CMP, JEQ, JNE, JLT and JGE are taken exactly on =, !=, < and >= (unsigned) |
| PySim.PushThenPop | projetoFinal.py:125-139 | PUSH r then POP r' restores SP and copies the old R[r] (or stages it as the next pc for R15), flags untouched |
| CSim.Offset12 | projetoFinal.c:74-80 | `offset12_from_ibr` is bits 15:4 as a signed 12-bit number |
| CSim.Offset10 | projetoFinal.c:82-88 | `offset10_from_ibr` is bits 13:4 as a signed 10-bit number |
| CSim.Imm8 | projetoFinal.c:90-96 | the immediate sign-extended to 16 bits, equal to it exactly when it is below 0x80 |
| CSim.Jmp | projetoFinal.c:159-164 | JMP stages (R15 + offset) mod 2^16, R15 already being pc + 1 |
| CSim.Jcc | projetoFinal.c:166-209 | a branch whose condition holds stages (R15 + offset) mod 2^16; otherwise nothing changes |
| CSim.CharRead | projetoFinal.c:98-105 | a pending console value, standing for the byte `scanf(" %c")` returns after skipping whitespace, is consumed, kept within a byte, echoed, and nothing else changes; an exhausted console reads 0 without echo (how console text maps to values is under Left out) |
| CSim.IntRead | projetoFinal.c:107-114 | one number from the console, or 0, always echoed |
| CSim.MemRead | projetoFinal.c:124-139 | backed cells are read and recorded; other addresses apart from the read ports read 0 and change nothing |
| CSim.MemWrite | projetoFinal.c:141-157 | the char port prints the low byte, the int port the signed value; backed cells are written and recorded; other writes are dropped |
| CSim.Ldr | projetoFinal.c:345-352 | a backed address loads its cell into R[rd] and is recorded; the char port gives the next console value kept within a byte (see CSim.CharRead) and the int port the next value truncated to 16 bits, 0 when the console is exhausted; any other address past memory loads 0 and changes nothing else |
| CSim.Str | projetoFinal.c:354-361 | a backed address receives R[rn] and is recorded; the char port prints its low byte, the int port its signed value; a write past memory elsewhere is dropped |
| CSim.Push | projetoFinal.c:211-217 | SP decremented modulo 2^16; R[rn] stored only when the new SP is backed |
| CSim.Pop | projetoFinal.c:219-232 | the cell at SP (0 past memory) goes to R[rd] or the staged pc; SP incremented modulo 2^16 |
| CSim.Mov | projetoFinal.c:339-343 | R[rd] receives the immediate sign-extended |
| CSim.Add | projetoFinal.c:234-243 | ADD gives the Python handler's result and flags |
| CSim.Addi | projetoFinal.c:245-254 | ADDI gives the Python handler's result and flags |
| CSim.Sub | projetoFinal.c:256-265 | SUB gives the Python handler's result and flags |
| CSim.Subi | projetoFinal.c:267-276 | SUBI gives the Python handler's result and flags |
| CSim.And | projetoFinal.c:278-287 | AND gives the Python handler's result and flags |
| CSim.Or | projetoFinal.c:289-298 | OR gives the Python handler's result and flags |
| CSim.ShrOp | projetoFinal.c:300-310 | SHR gives the Python handler's result and flags |
| CSim.ShlOp | projetoFinal.c:312-321 | SHL gives the Python handler's result and flags |
| CSim.ShlFits32 | projetoFinal.c:312-321 | a word shifted left by at most 15 fits in 32 bits, so the C shift never overflows |
| CSim.Cmp | projetoFinal.c:323-337 | CMP gives the Python handler's flags |
| CSim.Store | projetoFinal.c:240-242 | an ALU result lands in rd with the given carry, Z set iff it is zero, and nothing but rd and the flags changes |
| CSim.Execute | projetoFinal.c:447-502 | the `switch` keeps the same frame conditions as the Python dispatch, with no precondition |
| CSim.Fetch | projetoFinal.c:437-441 | fetch sets R15 and the staged pc to pc + 1, and every other register, the flags, memory, the console and the touched set are kept |
| CSim.Cycle | projetoFinal.c:428-510 | pc >= 0x2000 faults; 0xFFFF halts with R15 = pc + 1 and a dump; a breakpoint dump is taken after the commit |
| CSim.Run | projetoFinal.c:428-429 | at most one dump per cycle, and never the Python-only stop |
| CSim.RunAdditive | projetoFinal.c:428-510 | running a + b cycles is running a cycles and then b more from the state they reached, with the dumps of both stretches in order, unless the first a cycles already stopped, in which case the longer run stops in the same place |
| CSim.LoadContents | projetoFinal.c:417-426 | each backed cell holds the last live pair's data modulo 2^16, or its old value |
| CSim.Load | projetoFinal.c:417-426 | the loaded memory keeps its size; characterised by `CSim.LoadContents` |
| CSim.Boot | projetoFinal.c:393-426 | start-up: R14 = 0x2000, R15 and the staged pc 0, breakpoints past memory ignored |
| Agreement.ExecuteAgrees | projetoFinal.c:437-502 | after their own fetch, both simulators' handlers reach the same state apart from R15 |
| Agreement.HandlersAgree | projetoFinal.c:447-502 | handlers started from states differing only in R15 agree, apart from R15 |
| Agreement.JumpsAgree | projetoFinal.c:159-209 | Python's pc + 1 + offset and C's R15 + offset stage the same target |
| Agreement.LdrAgrees | projetoFinal.c:345-352 | LDR agrees on backed addresses |
| Agreement.StrAgrees | projetoFinal.c:354-361 | STR agrees on backed addresses |
| Agreement.MovAgrees | projetoFinal.c:339-343 | MOV agrees on immediates below 0x80 |
| Agreement.PushAgrees | projetoFinal.c:211-217 | PUSH agrees when SP is in 1..0x2000 |
| Agreement.PopAgrees | projetoFinal.c:219-232 | POP agrees when SP is backed |
| Agreement.AluAgrees | projetoFinal.c:234-337 | the ALU group and CMP agree when no operand is R15 |
| Agreement.ArithAgrees | projetoFinal.c:234-265 | ADD, SUB and CMP agree |
| Agreement.LogicAgrees | projetoFinal.c:278-298 | AND and OR agree |
| Agreement.ImmArithAgrees | projetoFinal.c:245-276 | ADDI and SUBI agree |
| Agreement.ShiftAgrees | projetoFinal.c:300-321 | SHR and SHL agree |
| Agreement.SnapAgrees | projetoFinal.c:363-391 | states differing only in R15 and the staged pc print dumps differing only in R15 |
| Agreement.CycleAgreement | projetoFinal.c:428-510 | one cycle on a portable instruction: the same status and state, and the same dumps apart from the R15 shown |
| Agreement.ExecutedStepsAgree | projetoFinal.c:505-509 | the executing case of the cycle agreement |
| Agreement.CommittedAgree | projetoFinal.c:505-509 | dumping before the commit (Python) or after it (C) differs only in the R15 shown |
| Agreement.PyCycleExecutes | projetoFinal.py:377-410 | a Python cycle on a backed non-HALT word runs the handler of its low nibble |
| Agreement.CCycleExecutes | projetoFinal.c:437-509 | a C cycle on a backed non-HALT word runs the handler of its low nibble with R15 advanced |
| Agreement.NoInvalidInstruction | projetoFinal.c:499-501 | neither simulator can meet an invalid opcode |
| Agreement.HaltAgrees | projetoFinal.c:443-444 | HALT agrees, apart from the R15 shown |
| Agreement.HaltedStepsAgree | projetoFinal.c:440-444 | C's halted state differs from Python's only in R15 |
| Agreement.MovAgreement | projetoFinal.c:339-343 | MOV agrees exactly when the immediate is below 0x80 |
| Agreement.SeesNextPc | projetoFinal.c:437-502 | C's fetch is Python's staging of pc + 1 with R15 also set to pc + 1, and from it every non-branch C handler computes what the Python handler computes, so an R15 operand reads one more in C |
| Agreement.HandlersMatch | projetoFinal.c:447-502 | on the same state, every non-branch handler of the two simulators gives the same result, for MOV immediates below 0x80 and accesses inside memory |
| Agreement.AddOfR15Differs | projetoFinal.c:440 | ADD reading R15 gives a result one larger in C |
| Agreement.PortWriteAgreement | projetoFinal.c:141-151 | a port write agrees exactly when a character fits a byte and an integer is below 0x8000 |
| Agreement.PortReadAgreement | projetoFinal.c:124-131 | over one shared sequence of console values, integer reads agree modulo 2^16 and character reads agree exactly when the value is a byte; the same console text yields that shared sequence only for non-whitespace ASCII characters and single-token integer lines (Left out) |
| Agreement.CPushThenPop | projetoFinal.c:211-232 | C's PUSH then POP: the copy and SP restored, or 0 when the push was dropped |
| Agreement.LoadAgreement | projetoFinal.c:417-426 | on images Python can load, both simulators load the same memory |
| Agreement.BootAgreement | projetoFinal.c:412-415 | start-up agrees except for the staged pc, which the first cycle overwrites |
| Toolchain.JumpOffsetExact | CompiladorDeAssembly.py:98-101 | a JMP word aimed within reach holds exactly the distance as its offset |
| Toolchain.BranchOffsetExact | CompiladorDeAssembly.py:91-96 | a branch word aimed within reach holds the distance and the mnemonic's condition |
| Toolchain.JumpLands | CompiladorDeAssembly.py:98-101 | an assembled JMP within reach makes both simulators continue at the target |
| Toolchain.BranchLands | CompiladorDeAssembly.py:91-96 | an assembled branch within reach continues at the target when the condition holds, at the next address otherwise |
| Toolchain.ZeroWordSkips | CompiladorDeAssembly.py:143-145 | the word 0 a fail-soft line becomes is a jump to the next address in both simulators |
| Toolchain.Image | CompiladorDeAssembly.py:62-64 | the listing stands for the pairs (i, word i) |
| Toolchain.ImageLastStore | CompiladorDeAssembly.py:62-64 | address a of a listing holds word a, and nothing else is stored |
| Toolchain.ImageLive | CompiladorDeAssembly.py:154 | only address 0 can give the terminator pair |
| Toolchain.LoadsProgram | projetoFinal.py:352-362 | a listing that fits and does not start with word 0 is loaded by both simulators with word i at address i |
| Toolchain.PyLoads | projetoFinal.py:352-362 | the Python half of that |
| Toolchain.CLoads | projetoFinal.c:417-426 | the C half of that |
| Toolchain.ZeroFirstWordLoadsNothing | CompiladorDeAssembly.py:64 | a listing whose first word is 0 prints `0000 0000` first, which both loaders take for the end: nothing is loaded |

## Left out

- Console I/O is not modelled as text. The read ports take values from an
  input sequence. The write ports and the read echoes append events to an
  output list. The `OUT <=` and `IN =>` text is not modelled.
- CSim.CharRead: the two simulators consume console text differently, and
  the model does not describe that. C's `scanf(" %c")` skips every
  whitespace character, newlines included, then reads one byte of the
  encoded text; Python's `ord(input())` reads a whole line as one
  character. The `% 0x100` in the model only keeps a value within a byte;
  C computes nothing of the kind. So one value sequence stands for the
  same console in both simulators only for non-whitespace ASCII characters
  (0x21-0x7E), one per line. A line holding a single space reads 32 in
  Python, while C skips it and reads the next line's character; a line
  `é` reads 233 in Python, and 0xC3 then 0xA9 in C on a UTF-8 console.
- CSim.IntRead: likewise, C's `scanf("%d")` reads one whitespace-separated
  token, and Python's `int(input())` reads a whole line. The value
  sequence matches both only for lines holding a single integer token: a
  line `1 2` is two reads in C and a `ValueError` in Python.
- CSim.Ldr: its character-port branch reads through CSim.CharRead, so the
  same mapping from console text to values applies.
- Agreement.PortReadAgreement: its agreement is over the shared value
  sequence. It speaks of the same console text only for the inputs named
  under CSim.CharRead and CSim.IntRead.
- The dump's text is not modelled either. `Machine.Snap` gives the
  registers, the flags and the listed cells, in the order printed.
- The parsing of the breakpoint count, the breakpoint lines and the image
  lines (`input().split()`, `int(x, 16)`, `scanf`) is not modelled. The
  model takes the breakpoints as a sequence of naturals and the image as a
  sequence of (address, data) pairs.
  - A negative breakpoint, which Python would accept as a list index from
    the end, is out of scope.
  - A C `scanf` failure is out of scope.
- The assembler's `main` is out of scope: argument and file handling, and
  the terminator line `0000 0000`. The terminator appears only through
  `Toolchain.ZeroFirstWordLoadsNothing` and the loaders' `Machine.Live`.
- The global `processador` singleton is replaced by a state value passed
  in and returned.
- Whitespace is modelled in full: `AsmText.IsSpace` is Python's
  `str.isspace`, Unicode spaces included, and `\s` and `strip()` use it.
  The other character classes are ASCII only: `\w`, the identifier
  pattern, `upper` and the digits `int` accepts. Python's Unicode letters
  and digits are not modelled.
- `int(s, 0)` is modelled with its sign, its `0x`/`0o`/`0b` prefixes, its
  underscores and its leading-zero rule. Python's other forms are left out.
- Assembler.Fields: a register number outside 0..15 stops assembly with
  `RegisterOutOfRange`. The source does not reject it. It ORs the number
  into the neighbouring fields and prints whatever word results, which the
  model does not describe:
  - some such lines silently assemble to a different valid instruction:
    `ADD R0, R16, R0` gives 0x1005, which is `ADD R1, R0, R0`, and
    `PUSH R16` gives 0x010E, which is `PUSH R0`;
  - a register number from 16 up in the rd field gives a word wider than
    four digits, which the C loader masks to 16 bits
    (projetoFinal.c:423-424) and the Python loader stores unmasked;
  - a negative register number gives a negative word.
- Assembler.MovFields: the same rejection for MOV's register, where the
  source likewise ORs an oversized number into the neighbouring fields.
- PySim.Issue: where Python raises, the cycle stops with status
  `OutsideModel`. That is `IndexError` for a memory access at or past
  0x2000 and for POP at SP >= 0x2000, and `EOFError` from `input()` for a
  console read with the console exhausted. The handlers themselves
  require the access to succeed.
- PySim.Push: it requires SP >= 1. PUSH at SP 0 is modelled by
  `PySim.PushBelowZero` up to its store, which goes through index -1 into
  cell 0x1FFF; the cycle then stops with `StackBelowZero`. Python carries
  on with SP = -1, which is not a `Word`, so later cycles and the
  breakpoint dump of that cycle are not modelled. PUSH R14 at SP 0, which
  stores the already decremented SP = -1, stops with `OutsideModel`.
- PySim.Load: it requires every live pair to fit (`ImageFits`). Python
  would raise on an address past memory. It would also store data above
  0xFFFF unmasked, which the `Word` type cannot hold.
- PySim.Boot: breakpoint addresses must lie below 0x2000, because Python
  indexes its flag list with them.
- PySim.Run and CSim.Run: a run is bounded by a fuel count of cycles.
  Programs that loop forever are represented only by their finite
  prefixes.
- Run-level agreement between the two simulators is stated cycle by cycle
  (`Agreement.CycleAgreement`), not over whole runs.
- `ctypes.c_int16` and the C `int16_t`/`uint16_t` casts are modelled as
  explicit truncation and sign extension (`Words.Trunc16`,
  `Words.Signed16`, `Words.SignExtend`).

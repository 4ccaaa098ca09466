# A verified model of the 16-bit RISC assembler

This project models the assembler in `backend/assembler.py`, written in Dafny.
The assembler turns assembly text for a small 16-bit processor with four
registers into machine words, then renders those words as a hex memory image.
The model follows the assembler's four stages:

- **Operand parsing** (module `Operands`). `parse_register` reads `R0`..`R3`:
  it upper-cases the text and removes every bracket. `parse_immediate` reads a
  decimal, `0x` hexadecimal or `0b` binary literal through Python's
  `int(s, base)`, then checks the value is in 0..255. `int()` itself is
  modelled in module `Numerals`: surrounding C whitespace (tab through
  carriage return, and the space), one optional sign, the base prefix that
  bases 2 and 16 allow, and digits of the base. Unlike `str.strip()`, `int()`
  does not skip the separators 28-31, so `0b` followed by one of them is an
  invalid immediate.
- **Per-line decoding** (module `Instructions`, tables in `Isa`). `parse_line`
  splits the line on commas and whitespace. It looks the upper-cased
  mnemonic up in `OPCODES`/`INSTR_TYPES` and reads the operands that the
  mnemonic's shape needs. Errors come back as `Err` values carrying the kind
  and subject of the `ValueError` the code raises.
- **Bit packing** (modules `Isa`, `Bits`). The word is
  `(opcode << 12) | (rd << 10) | (rs << 8) | (imm & 0xFF)`. Python's `<<`,
  `|` and `&` are defined bit by bit on unbounded naturals. A lemma shows the
  word is the weighted sum of the fields. `Decode`, the processor's field
  extraction, is its inverse.
- **Whole programs** (modules `Program`, `HexFile`). `assemble` and
  `to_hex_file` are methods with the source's loops. Each is proved against
  specification functions:
  - `Outcome` says what one raw line yields: nothing, a word, or an error.
  - `Words` and `Errors` collect those outcomes in line order.
  - `HexWord` is the `04X` format.
  The properties the assembler promises are then lemmas about these functions.

One end-to-end lemma ties the stages together. Take any instructions the
assembler can produce, disassemble each one to its canonical text, and join
the texts with newlines. Assembling that listing gives exactly their words, in
order, with no errors (`Program.AssembleListing`).

Modules, in dependency order:
- `Wrappers`: `Option`/`Result`.
- `Text`: the Python string operations used.
- `Numerals`: digit strings and `int()`.
- `Bits`: the bit operations.
- `Isa`: tables and word layout.
- `Operands`, `Instructions`, `Program`, `HexFile`: as above.

## Model

| member | source | states |
|---|---|---|
| Isa.TablesAgree | backend/assembler.py:7-44 | `OPCODES` and `INSTR_TYPES` have exactly the same keys. |
| Isa.MnemonicOfOpcode | backend/assembler.py:7-24 | Every opcode in the table is below 16, and the `Mnemonics` list maps it back to its own mnemonic. |
| Isa.OpcodeOfMnemonic | backend/assembler.py:7-24 | Every value 0..15 is the opcode of the mnemonic that `Mnemonics` lists for it. |
| Isa.OpcodesInjective | backend/assembler.py:7-24 | Two mnemonics with the same opcode are the same mnemonic. |
| Isa.OpcodesOnto | backend/assembler.py:7-24 | Every 4-bit opcode value belongs to some mnemonic in the table. |
| Isa.Encode | backend/assembler.py:132-133 | The or-ed, shifted fields equal `opcode*4096 + rd*1024 + rs*256 + imm`, which is below 65536. |
| Isa.EncodeIsSum | backend/assembler.py:133 | The bitwise expression of line 133 equals the weighted sum of the fields whenever the fields are in range. |
| Isa.Decode | backend/assembler.py:132 | Splitting a word into `[opcode:4][rd:2][rs:2][imm:8]` gives fields in range. |
| Isa.DecodeEncode | backend/assembler.py:132-133 | Decoding an encoded word recovers all four fields. |
| Isa.EncodeDecode | backend/assembler.py:132-133 | Every 16-bit word is the encoding of its decoded fields. |
| Bits.OrLowBits | backend/assembler.py:133 | Or-ing a value below `2^k` into a multiple of `2^k` is addition. |
| Bits.AndMask | backend/assembler.py:133 | `x & (2^k - 1)` is `x` for `x < 2^k`, so `imm & 0xFF` keeps an in-range immediate. |
| Text.TrimLeft | backend/assembler.py:148 | `lstrip` gives the suffix that drops only whitespace and then starts with a non-blank (or is empty). |
| Text.TrimRight | backend/assembler.py:148 | `rstrip` gives the prefix that drops only whitespace and then ends with a non-blank (or is empty). |
| Text.StripUnpadded | backend/assembler.py:57 | A text with no blank at either end is its own `strip()`. |
| Text.SplitEmpty | backend/assembler.py:77-80 | `split()` finds no token exactly when the line is all whitespace. |
| Text.SplitJoin | backend/assembler.py:77 | `split()` of whitespace-free tokens joined by a blank gives the tokens back. |
| Text.SplitOn | backend/assembler.py:142 | `split('\n')` gives at least one piece, and no piece holds the separator. |
| Text.JoinSplitOn | backend/assembler.py:142 | Joining the pieces of `split(c)` with `c` rebuilds the text. |
| Text.SplitOnJoin | backend/assembler.py:179 | Splitting a join of separator-free pieces on the separator gives the pieces back. |
| Text.SplitAvoids | backend/assembler.py:77 | A character absent from the text is absent from every `split()` token. |
| Text.FirstIndex | backend/assembler.py:152 | `index(c)` is a position holding `c` with no `c` before it. |
| Text.RemoveChar | backend/assembler.py:49 | `replace(c, '')` leaves no `c` and never lengthens the text. |
| Text.RemoveCharKeeps | backend/assembler.py:49 | Only the occurrences of `c` are removed: every other character appears as often as in the input. |
| Text.RemoveCharConcat | backend/assembler.py:49 | Removal distributes over concatenation, so the characters kept stay in their order. |
| Text.RemoveCharAbsent | backend/assembler.py:49 | A text without `c` is returned unchanged. |
| Numerals.ToDigits | backend/assembler.py:175 | The hex rendering of a number is a non-empty string of digits of the base. |
| Numerals.ValueOfToDigits | backend/assembler.py:175 | Reading back the digits of `n` gives `n`. |
| Numerals.ToDigitsLength | backend/assembler.py:175 | A number below `base^k` has at most `k` digits. |
| Numerals.ValueLeadingZeros | backend/assembler.py:175 | Leading zeros do not change the value of a digit string. |
| Numerals.ParseIntDigits | backend/assembler.py:60-64 | `int(d, base)` of a plain digit string is its value. |
| Numerals.ParseIntNegated | backend/assembler.py:64 | `int("-" + d, base)` is the negated value, as Python accepts a sign. |
| Numerals.ParseIntHexPrefix | backend/assembler.py:59-60 | `int("0x" + d, 16)` and `int("0X" + d, 16)` skip the prefix and read the digits. |
| Numerals.ParseIntNeedsDigit | backend/assembler.py:60-64 | `int(s, base)` accepts a text only if it holds a digit of the base. |
| Numerals.IntStripUnpadded | backend/assembler.py:60-64 | A text that neither starts nor ends with C whitespace is what `int()` reads. |
| Numerals.ParseIntKeepsSeparators | backend/assembler.py:60-64 | Character 28 counts as whitespace for `str.isspace()`, yet `int()` rejects it in front of the digits. |
| Operands.ParseRegister | backend/assembler.py:47-52 | A register number is below 4, and a failure reports the original text. |
| Operands.ParseRegisterExactly | backend/assembler.py:47-52 | `parse_register(s)` returns `k` if and only if `k < 4` and `s` with its brackets removed reads `Rk` or `rk`. |
| Operands.UpperRemoveChar | backend/assembler.py:49 | Upper-casing commutes with removing `[` or `]`. |
| Operands.ParseRegisterName | backend/assembler.py:47-52 | `Rk` and `[Rk]` parse to register `k` for every `k < 4`. |
| Operands.BracketsDropped | backend/assembler.py:49 | Removing brackets from a bracket-free name, bare or enclosed in `[...]`, gives the name. |
| Operands.RemoveBracketsKeeps | backend/assembler.py:121 | `replace('[', '').replace(']', '')` removes the brackets and nothing else: every other character keeps its count. |
| Operands.ParseImmediate | backend/assembler.py:55-71 | An accepted immediate is at most 255. |
| Operands.DigitsHaveNoPrefix | backend/assembler.py:59-63 | A decimal or binary digit string takes neither the `0x` nor the `0b` branch. |
| Operands.ParseImmediateDecimal | backend/assembler.py:63-71 | Any decimal numeral, leading zeros included (`007`), is read in base 10 and its value range-checked. |
| Operands.ParseImmediateNegative | backend/assembler.py:63-69 | `-` before any decimal numeral is accepted by `int()`, so only the negated zeros (`-0`, `-00`) pass the range check. |
| Operands.ParseImmediateHex | backend/assembler.py:59-60 | `0x`/`0X` followed by any hex digits of either case (`0xff`, `0x0F`) is read in base 16, prefix included, and range-checked. |
| Operands.ParseImmediateBinary | backend/assembler.py:61-62 | `0b`/`0B` followed by any binary digits (`0b00000101`) is read in base 2 after the prefix is cut, and range-checked. |
| Operands.ParseImmediateRendered | backend/assembler.py:63-71 | The shortest decimal rendering of every value reads back as that value, range-checked. |
| Operands.ReadLiteralNeedsDigit | backend/assembler.py:58-64 | Whichever base the prefix selects, the `try` block reads a text only if it holds some hexadecimal digit. |
| Operands.ParseImmediateBinarySeparator | backend/assembler.py:57-66 | `0b`, then character 28, then binary digits: `strip()` keeps the inner separator and `int(s[2:], 2)` rejects it, so the text is an invalid immediate. |
| Operands.ParseImmediateNoDigits | backend/assembler.py:56-66 | A text with no digit is rejected as an invalid immediate, reported with its stripped text. |
| Operands.ReadBinaryLiteral | backend/assembler.py:61-62 | A `0b` literal takes the binary branch and reads as the value of its digits. |
| Instructions.ParseFields | backend/assembler.py:79-130 | On success the mnemonic is known, the opcode is its table entry, and the fields are in range and zero where the shape has no operand. |
| Instructions.ReadOperands | backend/assembler.py:90-127 | Reading the operands of a shape, on success, keeps the given opcode, gives registers below 4 and an immediate below 256, and leaves zero every field the shape has no operand for. |
| Instructions.ParseTokens | backend/assembler.py:132-134 | The packed word exists exactly when decoding succeeds. It is below 65536 and decodes to the decoded fields; errors pass through unchanged. |
| Instructions.ParseLine | backend/assembler.py:74-134 | An accepted line gives a 16-bit word that decodes to a canonical instruction whose opcode is the table entry of the line's upper-cased first token. |
| Instructions.TokensArePlain | backend/assembler.py:77 | Every token of `replace(',', ' ').split()` is non-empty and holds no whitespace and no comma. |
| Instructions.ParseFieldsRejects | backend/assembler.py:79-126 | An empty line, an unknown mnemonic, and too few operands for the shape each give their own error. |
| Instructions.ExtraOperandsIgnored | backend/assembler.py:92-127 | Tokens after the ones the shape reads do not change the result. |
| Instructions.ParseFieldsExactly | backend/assembler.py:79-130 | A line decodes to `f` if and only if: its mnemonic is known; `f` has that mnemonic's opcode; its operands are present and parse to `f`'s fields; `f`'s unused fields are zero. |
| Instructions.OpcodeNamesMnemonic | backend/assembler.py:82-87 | The opcode field of an assembled word names the line's upper-cased mnemonic. |
| Instructions.TokensOfDisassembly | backend/assembler.py:77 | A mnemonic followed by comma-separated operands splits into exactly those tokens. |
| Instructions.AssembleDisassembled | backend/assembler.py:74-134 | The canonical text of every instruction the assembler can produce assembles back to that instruction's word. |
| Instructions.DisassembleIsCode | backend/assembler.py:148-156 | That canonical text is non-empty, has no comment or line break, and has no blank at either end. |
| Program.CodePart | backend/assembler.py:151-152 | The code part of a line holds no `;`. |
| Program.CodePartCut | backend/assembler.py:151-152 | The code part is the text before the first `;`, or the whole line when there is none. |
| Program.CleanLineIsCode | backend/assembler.py:148-152 | Strip, cut at `;`, strip again: this is the stripped code part, and it holds no `;`. |
| Program.CleanLine | backend/assembler.py:148-152 | The cleaned line is no longer than the raw line and has no whitespace at either end. |
| Program.Outcome | backend/assembler.py:148-162 | A line is skipped exactly when no code is left. Otherwise its outcome is what `parse_line` gives for the cleaned line, and an assembled word is a 16-bit canonical instruction. |
| Program.Assemble | backend/assembler.py:137-168 | `program` holds the words and `errors` the numbered failures of the lines of `text.split('\n')`, in line order; `success` holds exactly when `errors` is empty. |
| Program.WordsAreInstructions | backend/assembler.py:159-160 | Every word of the program is below 65536 and decodes to a canonical instruction. |
| Program.WordsInOrder | backend/assembler.py:146-160 | Words keep line order: an assembled line's word sits at the index equal to the number of words from the lines before it. |
| Program.ErrorsAreFailures | backend/assembler.py:161-162 | Each error names a line (1-based) whose outcome is exactly that failure. |
| Program.ErrorsOrdered | backend/assembler.py:146-162 | Errors appear in strictly increasing line order. |
| Program.ErrorsComplete | backend/assembler.py:158-162 | Every failing line is reported under its own line number. |
| Program.EveryCodeLineCounted | backend/assembler.py:154-162 | Words plus errors equal the number of lines with code; skipped lines give neither. |
| Program.SuccessExactly | backend/assembler.py:165 | There are no errors exactly when no line fails, and then every line with code gives a word. |
| Program.AllAssembled | backend/assembler.py:158-160 | Lines that all assemble give exactly their words, in order, and no errors. |
| Program.DisassembledOutcome | backend/assembler.py:148-160 | The canonical text of an instruction, as a raw line, assembles to its word. |
| Program.AssembleListing | backend/assembler.py:137-168 | Assembling the newline-joined canonical texts of any canonical instructions gives exactly their words and no errors. |
| HexFile.HexWord | backend/assembler.py:175 | `f"{n:04X}"` is at least four characters, exactly four for a 16-bit word. |
| HexFile.HexWordDigits | backend/assembler.py:175 | The line is made only of upper-case hex digits, and denotes `n`. |
| HexFile.ReadHexWord | backend/assembler.py:175 | `int(line, 16)` of a hex line gives back the word it was written from. |
| HexFile.PaddingIsNop | backend/assembler.py:176-178 | The padding line `0000` is the word of `NOP` with all fields zero. |
| HexFile.ToHexFile | backend/assembler.py:171-179 | The file has `max(len(program), 8)` lines. Line `i < len(program)` is `HexWord(program[i])`, and every later line is `0000`. |
| HexFile.ReadLines | backend/assembler.py:179 | Splitting the joined lines on `\n` gives the lines back, as no hex line holds a line break. |

## Left out

- `backend/server.py`: HTTP routing, simulator subprocesses, files and JSON. It is I/O around foreign tools.
- The `__main__` demonstration block (backend/assembler.py:182-198). It only prints.
- The CPU itself (ALU, register file, memories, control unit). Its Verilog sources are not part of this model; only the word layout the assembler targets is modelled.
- The wording of error messages. Each error is an `AsmError` value: its kind plus the text or value the message mentions. The `"Line N: ..."` prefix is a `LineError` carrying `N`.
- The `line_num` parameter of `parse_line`. The code never uses it.
- The final `else` of `parse_line` ("Unknown instruction type", line 129-130). `Isa.TablesAgree` shows every known mnemonic has one of the six shapes, and the model's `match` covers all of them, so the branch is unreachable.
- Python `int()` extras: underscores between digits, non-ASCII digits, and the limit on decimal strings longer than 4300 digits. They are not modelled.
- Unicode semantics of `.upper()`, `.lower()`, `.strip()` and `.split()`. Case mapping covers ASCII letters only. Whitespace for `.strip()` and `.split()` is the ASCII set `str.isspace()` accepts: characters 9-13 and 28-32. For `int()` it is characters 9-13 and 32.
- Exceptions other than `ValueError`: for example a non-string argument, or memory exhaustion.
- HexFile.ToHexFile: takes a sequence of naturals. Negative or non-integer entries, which the Python function would format with a sign or reject, are not modelled, since `assemble` only produces 16-bit words.

/**
 * `parse_line` (backend/assembler.py:74-134): split one line into tokens,
 * look the mnemonic up, read the operands its shape asks for, and pack the
 * fields into a word.
 */
module Instructions {
  import opened Wrappers
  import opened Text
  import opened Numerals
  import opened Isa
  import opened Operands

  /** `line.replace(',', ' ').split()` */
  function Tokens(line: string): seq<string> {
    Split(ReplaceChar(line, ',', ' '))
  }

  /** Every token is a non-empty run of characters holding no whitespace and no comma. */
  lemma TokensArePlain(line: string)
    ensures forall i :: 0 <= i < |Tokens(line)| ==> IsWord(Tokens(line)[i]) && ',' !in Tokens(line)[i]
  {
    var u := ReplaceChar(line, ',', ' ');
    assert ',' !in u by {
      forall k | 0 <= k < |u| ensures u[k] != ',' {
      }
    }
    SplitAvoids(u, ',');
  }

  /**
   * The decoding part of parse_line (lines 79-130): the fields of the
   * instruction that `parts` spells, or the first error Python would raise.
   * Operands after the ones the shape needs are not looked at.
   */
  function ParseFields(parts: seq<string>): (r: Result<Fields, AsmError>)
    ensures r.Ok? ==> parts != [] && Upper(parts[0]) in Opcodes
    ensures r.Ok? ==> Canonical(r.value) && r.value.opcode == Opcodes[Upper(parts[0])]
  {
    if parts == [] then Err(EmptyInstruction)
    else
      var mnemonic := Upper(parts[0]);
      if mnemonic !in Opcodes then Err(UnknownInstruction(mnemonic))
      else
        TablesAgree();
        MnemonicOfOpcode(mnemonic);
        ReadOperands(mnemonic, InstrTypes[mnemonic], Opcodes[mnemonic], parts)
  }

  /** Lines 90-127: read the operands `shape` asks for; the fields it has no operand for stay zero. */
  function ReadOperands(mnemonic: string, shape: Shape, opcode: nat, parts: seq<string>): (r: Result<Fields, AsmError>)
    requires opcode < 16
    ensures r.Ok? ==> r.value.opcode == opcode && r.value.Valid() && UnusedZero(shape, r.value)
  {
    match shape
    case NoOperands =>
      Ok(Fields(opcode, 0, 0, 0))
    case Reg =>
      if |parts| < 2 then Err(MissingOperands(mnemonic))
      else
        var rd :- ParseRegister(parts[1]);
        Ok(Fields(opcode, rd, 0, 0))
    case RegReg =>
      if |parts| < 3 then Err(MissingOperands(mnemonic))
      else
        var rd :- ParseRegister(parts[1]);
        var rs :- ParseRegister(parts[2]);
        Ok(Fields(opcode, rd, rs, 0))
    case RegImm =>
      if |parts| < 3 then Err(MissingOperands(mnemonic))
      else
        var rd :- ParseRegister(parts[1]);
        var imm :- ParseImmediate(parts[2]);
        Ok(Fields(opcode, rd, 0, imm))
    case RegRegAddr =>
      if |parts| < 3 then Err(MissingOperands(mnemonic))
      else
        var rd :- ParseRegister(parts[1]);
        var rs :- ParseRegister(RemoveBrackets(parts[2]));
        Ok(Fields(opcode, rd, rs, 0))
    case Imm =>
      if |parts| < 2 then Err(MissingOperands(mnemonic))
      else
        var imm :- ParseImmediate(parts[1]);
        Ok(Fields(opcode, 0, 0, imm))
  }

  /** parse_line on the tokens of a line: decode, then pack as on line 133. */
  function ParseTokens(parts: seq<string>): (r: Result<nat, AsmError>)
    ensures r.Ok? <==> ParseFields(parts).Ok?
    ensures r.Err? ==> r.error == ParseFields(parts).error
    ensures r.Ok? ==> r.value < 65536 && Decode(r.value) == ParseFields(parts).value
  {
    var f :- ParseFields(parts);
    DecodeEncode(f);
    Ok(Encode(f))
  }

  /** `parse_line(line, line_num)` */
  function ParseLine(line: string): (r: Result<nat, AsmError>)
    ensures r.Ok? ==> r.value < 65536 && Canonical(Decode(r.value))
    ensures r.Ok? ==> Tokens(line) != [] && Upper(Tokens(line)[0]) in Opcodes
    ensures r.Ok? ==> Decode(r.value).opcode == Opcodes[Upper(Tokens(line)[0])]
  {
    ParseTokens(Tokens(line))
  }

  /** The three ways a line is rejected before any operand is read. */
  lemma ParseFieldsRejects(parts: seq<string>)
    ensures parts == [] ==> ParseFields(parts) == Err(EmptyInstruction)
    ensures parts != [] && Upper(parts[0]) !in Opcodes ==>
      ParseFields(parts) == Err(UnknownInstruction(Upper(parts[0])))
    ensures parts != [] && Upper(parts[0]) in InstrTypes && |parts| < 1 + Arity(InstrTypes[Upper(parts[0])]) ==>
      ParseFields(parts) == Err(MissingOperands(Upper(parts[0])))
  {
    TablesAgree();
  }

  /** Operands beyond the ones the shape reads are ignored. */
  lemma ExtraOperandsIgnored(parts: seq<string>)
    requires parts != [] && Upper(parts[0]) in InstrTypes
    requires |parts| > 1 + Arity(InstrTypes[Upper(parts[0])])
    ensures ParseFields(parts) == ParseFields(parts[..1 + Arity(InstrTypes[Upper(parts[0])])])
  {
    var m := Upper(parts[0]);
    var n := 1 + Arity(InstrTypes[m]);
    assert parts[..n][0] == parts[0];
    TablesAgree();
    ReadOperandsPrefix(m, InstrTypes[m], Opcodes[m], parts, n);
  }

  lemma ReadOperandsPrefix(mnemonic: string, shape: Shape, opcode: nat, parts: seq<string>, n: nat)
    requires opcode < 16 && n == 1 + Arity(shape) <= |parts|
    ensures ReadOperands(mnemonic, shape, opcode, parts) == ReadOperands(mnemonic, shape, opcode, parts[..n])
  {
    assert forall i :: 0 <= i < n ==> parts[..n][i] == parts[i];
  }

  /** The operands a shape reads, as tokens 1 and 2, parse to the fields it fills. */
  predicate OperandsGive(shape: Shape, parts: seq<string>, f: Fields) {
    |parts| >= 1 + Arity(shape) &&
    match shape
    case NoOperands => true
    case Reg => ParseRegister(parts[1]) == Ok(f.rd)
    case RegReg => ParseRegister(parts[1]) == Ok(f.rd) && ParseRegister(parts[2]) == Ok(f.rs)
    case RegImm => ParseRegister(parts[1]) == Ok(f.rd) && ParseImmediate(parts[2]) == Ok(f.imm)
    case RegRegAddr => ParseRegister(parts[1]) == Ok(f.rd) && ParseRegister(RemoveBrackets(parts[2])) == Ok(f.rs)
    case Imm => ParseImmediate(parts[1]) == Ok(f.imm)
  }

  /**
   * A line decodes to `f` exactly when its mnemonic is known, `f` carries that
   * mnemonic's opcode, the operands its shape needs are present and parse to
   * `f`'s fields, and the fields the shape does not use are zero.
   */
  lemma ParseFieldsExactly(parts: seq<string>, f: Fields)
    ensures ParseFields(parts) == Ok(f) <==>
      parts != [] && Upper(parts[0]) in Opcodes &&
      f.opcode == Opcodes[Upper(parts[0])] &&
      OperandsGive(InstrTypes[Upper(parts[0])], parts, f) &&
      UnusedZero(InstrTypes[Upper(parts[0])], f)
  {
    TablesAgree();
    if parts != [] && Upper(parts[0]) in Opcodes {
      MnemonicOfOpcode(Upper(parts[0]));
    }
  }

  /** The opcode field of an assembled word names the line's mnemonic. */
  lemma OpcodeNamesMnemonic(line: string, w: nat)
    requires ParseLine(line) == Ok(w)
    ensures Tokens(line) != [] && Mnemonics[Decode(w).opcode] == Upper(Tokens(line)[0])
  {
    MnemonicOfOpcode(Upper(Tokens(line)[0]));
  }

  /** The operand tokens of the canonical text of `f`. */
  function OperandTexts(shape: Shape, f: Fields): seq<string>
    requires f.Valid()
  {
    match shape
    case NoOperands => []
    case Reg => [RegisterName(f.rd)]
    case RegReg => [RegisterName(f.rd), RegisterName(f.rs)]
    case RegImm => [RegisterName(f.rd), ToDigits(f.imm, 10)]
    case RegRegAddr => [RegisterName(f.rd), "[" + RegisterName(f.rs) + "]"]
    case Imm => [ToDigits(f.imm, 10)]
  }

  /** Canonical assembly text for `f`, e.g. `LDI R0,5`, `ST R0,[R3]`, `HLT`. */
  function Disassemble(f: Fields): string
    requires Canonical(f)
  {
    var ops := OperandTexts(ShapeOf(f.opcode), f);
    InstructionText(Mnemonics[f.opcode], ops)
  }

  /** Every instruction the assembler can produce has a text it assembles back from. */
  lemma AssembleDisassembled(f: Fields)
    requires Canonical(f)
    ensures ParseLine(Disassemble(f)) == Ok(Encode(f))
  {
    var parts := [Mnemonics[f.opcode]] + OperandTexts(ShapeOf(f.opcode), f);
    DisassembledTokens(f);
    DisassembledFields(f);
    assert ParseTokens(parts) == Ok(Encode(f));
  }

  lemma DisassembledTokens(f: Fields)
    requires Canonical(f)
    ensures Tokens(Disassemble(f)) == [Mnemonics[f.opcode]] + OperandTexts(ShapeOf(f.opcode), f)
  {
    var m := Mnemonics[f.opcode];
    var ops := OperandTexts(ShapeOf(f.opcode), f);
    MnemonicFacts(f.opcode);
    OperandTextFacts(ShapeOf(f.opcode), f);
    TokensOfDisassembly(m, ops);
  }

  lemma DisassembledFields(f: Fields)
    requires Canonical(f)
    ensures ParseFields([Mnemonics[f.opcode]] + OperandTexts(ShapeOf(f.opcode), f)) == Ok(f)
  {
    var m := Mnemonics[f.opcode];
    var shape := ShapeOf(f.opcode);
    var ops := OperandTexts(shape, f);
    var parts := [m] + ops;
    MnemonicFacts(f.opcode);
    OpcodeOfMnemonic(f.opcode);
    assert Upper(parts[0]) == m && InstrTypes[m] == shape;
    assert OperandsGive(shape, parts, f) by {
      ParseOperandTexts(shape, f);
      assert forall i :: 1 <= i < |parts| ==> parts[i] == ([""] + ops)[i];
    }
    ParseFieldsExactly(parts, f);
  }

  /** The canonical text is one line of code: no comment, no line break, no surrounding blanks. */
  lemma DisassembleIsCode(f: Fields)
    requires Canonical(f)
    ensures var t := Disassemble(f);
      t != [] && ';' !in t && '\n' !in t && !IsSpace(t[0]) && !IsSpace(t[|t| - 1])
  {
    var m := Mnemonics[f.opcode];
    var ops := OperandTexts(ShapeOf(f.opcode), f);
    MnemonicFacts(f.opcode);
    OperandTextFacts(ShapeOf(f.opcode), f);
    TextOfWords(m, ops);
  }

  lemma TextOfWords(m: string, ops: seq<string>)
    requires IsWord(m) && ';' !in m
    requires forall i :: 0 <= i < |ops| ==> IsWord(ops[i]) && ';' !in ops[i]
    ensures var t := InstructionText(m, ops);
      t != [] && ';' !in t && '\n' !in t && !IsSpace(t[0]) && !IsSpace(t[|t| - 1])
  {
    assert IsSpace('\n');
    if ops != [] {
      var j := JoinWith(ops, ',');
      JoinWithout(ops, ',', ';');
      JoinWithout(ops, ',', '\n');
      JoinEnds(ops, ',');
      var t := m + " " + j;
      assert t[0] == m[0] && t[|t| - 1] == j[|j| - 1];
      assert ';' !in t && '\n' !in t by {
        forall k | 0 <= k < |t| ensures t[k] != ';' && t[k] != '\n' {
          if k < |m| { assert t[k] == m[k]; }
          else if k > |m| { assert t[k] == j[k - |m| - 1]; }
        }
      }
    }
  }

  lemma MnemonicFacts(op: nat)
    requires op < 16
    ensures IsWord(Mnemonics[op]) && ',' !in Mnemonics[op] && ';' !in Mnemonics[op]
    ensures Upper(Mnemonics[op]) == Mnemonics[op]
  {
    var m := Mnemonics[op];
    assert forall i :: 0 <= i < |m| ==> 'A' <= m[i] <= 'Z';
    assert Upper(m) == m;
  }

  /** A token that `split()` keeps whole and that holds neither separator nor comment. */
  predicate PlainToken(t: string) {
    IsWord(t) && ',' !in t && ';' !in t
  }

  lemma OperandTextFacts(shape: Shape, f: Fields)
    requires f.Valid()
    ensures forall i :: 0 <= i < |OperandTexts(shape, f)| ==> PlainToken(OperandTexts(shape, f)[i])
  {
    var ops := OperandTexts(shape, f);
    assert PlainToken(RegisterName(f.rd)) && PlainToken(RegisterName(f.rs));
    assert PlainToken("[" + RegisterName(f.rs) + "]") by {
      BracketedToken(RegisterName(f.rs));
    }
    assert PlainToken(ToDigits(f.imm, 10)) by {
      var d := ToDigits(f.imm, 10);
      assert forall i :: 0 <= i < |d| ==> CharValue(d[i]) < 10;
    }
  }

  lemma BracketedToken(n: string)
    requires PlainToken(n)
    ensures PlainToken("[" + n + "]")
  {
    var b := "[" + n + "]";
    forall k | 0 <= k < |b| ensures !IsSpace(b[k]) && b[k] != ',' && b[k] != ';' {
      if 0 < k < |b| - 1 { assert b[k] == n[k - 1]; }
    }
  }

  lemma ParseOperandTexts(shape: Shape, f: Fields)
    requires f.Valid()
    ensures OperandsGive(shape, [""] + OperandTexts(shape, f), f)
  {
    var parts := [""] + OperandTexts(shape, f);
    match shape
    case NoOperands =>
    case Reg =>
      assert parts[1] == RegisterName(f.rd);
      ParseRegisterName(f.rd);
    case RegReg =>
      assert parts[1] == RegisterName(f.rd) && parts[2] == RegisterName(f.rs);
      ParseRegisterName(f.rd);
      ParseRegisterName(f.rs);
    case RegImm =>
      assert parts[1] == RegisterName(f.rd) && parts[2] == ToDigits(f.imm, 10);
      ParseRegisterName(f.rd);
      ParseImmediateRendered(f.imm);
    case RegRegAddr =>
      assert parts[1] == RegisterName(f.rd) && parts[2] == "[" + RegisterName(f.rs) + "]";
      ParseRegisterName(f.rd);
      BracketsDropped(RegisterName(f.rs));
      ParseRegisterName(f.rs);
    case Imm =>
      assert parts[1] == ToDigits(f.imm, 10);
      ParseImmediateRendered(f.imm);
  }

  /** The text of a mnemonic followed by its comma-separated operands. */
  function InstructionText(m: string, ops: seq<string>): string {
    if ops == [] then m else m + " " + JoinWith(ops, ',')
  }

  lemma TokensOfDisassembly(m: string, ops: seq<string>)
    requires IsWord(m) && ',' !in m
    requires forall i :: 0 <= i < |ops| ==> IsWord(ops[i]) && ',' !in ops[i]
    ensures Tokens(InstructionText(m, ops)) == [m] + ops
  {
    var all := [m] + ops;
    assert forall i :: 0 <= i < |all| ==> IsWord(all[i]) && ',' !in all[i];
    if ops == [] {
      ReplaceAbsent(m, ',', ' ');
      assert all == [m];
    } else {
      ReplaceSpaced(m, ops);
      JoinCons(m, ops, ' ');
    }
    SplitJoin(all, ' ');
  }

  /** Replacing the commas of `m op1,op2` gives the space-joined tokens. */
  lemma ReplaceSpaced(m: string, ops: seq<string>)
    requires ',' !in m
    requires forall i :: 0 <= i < |ops| ==> ',' !in ops[i]
    ensures ReplaceChar(m + " " + JoinWith(ops, ','), ',', ' ') == m + " " + JoinWith(ops, ' ')
  {
    ReplaceAbsent(m, ',', ' ');
    ReplaceJoin(ops, ',', ' ');
    ReplaceConcat(m + " ", JoinWith(ops, ','), ',', ' ');
    ReplaceConcat(m, " ", ',', ' ');
    assert ReplaceChar(" ", ',', ' ') == " ";
  }

  lemma JoinCons(m: string, ops: seq<string>, c: char)
    requires ops != []
    ensures JoinWith([m] + ops, c) == m + [c] + JoinWith(ops, c)
  {
    var all := [m] + ops;
    assert |all| >= 2 && all[0] == m && all[1..] == ops;
  }

  lemma ReplaceConcat(x: string, y: string, a: char, b: char)
    ensures ReplaceChar(x + y, a, b) == ReplaceChar(x, a, b) + ReplaceChar(y, a, b)
  {
  }

  lemma ReplaceAbsent(s: string, a: char, b: char)
    requires a !in s
    ensures ReplaceChar(s, a, b) == s
  {
  }

  lemma {:induction false} ReplaceJoin(ps: seq<string>, a: char, b: char)
    requires forall i :: 0 <= i < |ps| ==> a !in ps[i]
    ensures ReplaceChar(JoinWith(ps, a), a, b) == JoinWith(ps, b)
  {
    if |ps| == 1 {
      ReplaceAbsent(ps[0], a, b);
    } else if |ps| > 1 {
      ReplaceJoin(ps[1..], a, b);
      ReplaceAbsent(ps[0], a, b);
      var rest := JoinWith(ps[1..], a);
      assert ReplaceChar(ps[0] + [a] + rest, a, b) == ReplaceChar(ps[0], a, b) + [b] + ReplaceChar(rest, a, b);
    }
  }
}

/**
 * The instruction set as the assembler sees it: the mnemonic tables
 * (backend/assembler.py:7-44) and the 16-bit word layout
 * `[opcode:4][rd:2][rs:2][imm:8]` (backend/assembler.py:132-133).
 */
module Isa {
  import opened Bits

  /** The operand shape of a mnemonic, one constructor per `INSTR_TYPES` value. */
  datatype Shape =
    | NoOperands   // 'none':        NOP, HLT
    | Reg          // 'reg':         NOT Rd
    | RegReg       // 'reg_reg':     ADD Rd, Rs
    | RegImm       // 'reg_imm':     LDI Rd, imm
    | RegRegAddr   // 'reg_regaddr': LD Rd, [Rs]
    | Imm          // 'imm':         JMP imm

  /** `OPCODES` */
  const Opcodes: map<string, nat> := map[
    "NOP" := 0, "ADD" := 1, "SUB" := 2, "AND" := 3,
    "OR" := 4, "XOR" := 5, "NOT" := 6, "SHL" := 7,
    "SHR" := 8, "LDI" := 9, "LD" := 10, "ST" := 11,
    "JMP" := 12, "JZ" := 13, "HLT" := 14, "MOV" := 15]

  /** `INSTR_TYPES` */
  const InstrTypes: map<string, Shape> := map[
    "NOP" := NoOperands, "HLT" := NoOperands,
    "ADD" := RegReg, "SUB" := RegReg, "AND" := RegReg,
    "OR" := RegReg, "XOR" := RegReg, "MOV" := RegReg,
    "NOT" := Reg, "SHL" := Reg, "SHR" := Reg,
    "LDI" := RegImm,
    "LD" := RegRegAddr, "ST" := RegRegAddr,
    "JMP" := Imm, "JZ" := Imm]

  /** The mnemonic of each opcode, indexed by opcode: the inverse of `Opcodes`. */
  const Mnemonics: seq<string> := [
    "NOP", "ADD", "SUB", "AND", "OR", "XOR", "NOT", "SHL",
    "SHR", "LDI", "LD", "ST", "JMP", "JZ", "HLT", "MOV"]

  /** Every `OPCODES` key has an `INSTR_TYPES` entry, and nothing else does. */
  lemma TablesAgree()
    ensures Opcodes.Keys == InstrTypes.Keys
  {
  }

  /** Every opcode in the table is a 4-bit value, and `Mnemonics` maps it back to its key. */
  lemma MnemonicOfOpcode(m: string)
    requires m in Opcodes
    ensures Opcodes[m] < 16 && Mnemonics[Opcodes[m]] == m
  {
  }

  /** Every 4-bit value is the opcode of the mnemonic `Mnemonics` lists for it. */
  lemma OpcodeOfMnemonic(op: nat)
    requires op < 16
    ensures Mnemonics[op] in Opcodes && Opcodes[Mnemonics[op]] == op
  {
  }

  /** Distinct mnemonics have distinct opcodes, so an opcode field names its mnemonic. */
  lemma OpcodesInjective(a: string, b: string)
    requires a in Opcodes && b in Opcodes && Opcodes[a] == Opcodes[b]
    ensures a == b
  {
    MnemonicOfOpcode(a);
    MnemonicOfOpcode(b);
  }

  /** Every value 0..15 of the opcode field is some mnemonic's opcode. */
  lemma OpcodesOnto(op: nat)
    requires op < 16
    ensures exists m :: m in Opcodes && Opcodes[m] == op
  {
    OpcodeOfMnemonic(op);
  }

  /** The shape of the mnemonic of an opcode. */
  function ShapeOf(opcode: nat): Shape
    requires opcode < 16
  {
    OpcodeOfMnemonic(opcode);
    TablesAgree();
    InstrTypes[Mnemonics[opcode]]
  }

  /** How many operands a shape reads after the mnemonic. */
  function Arity(shape: Shape): nat {
    match shape
    case NoOperands => 0
    case Reg | Imm => 1
    case RegReg | RegImm | RegRegAddr => 2
  }

  /** The four fields of an instruction word, most significant first. */
  datatype Fields = Fields(opcode: nat, rd: nat, rs: nat, imm: nat) {
    predicate Valid() {
      opcode < 16 && rd < 4 && rs < 4 && imm < 256
    }
  }

  /** The fields a shape does not fill are left at zero. */
  predicate UnusedZero(shape: Shape, f: Fields) {
    match shape
    case NoOperands => f.rd == 0 && f.rs == 0 && f.imm == 0
    case Reg => f.rs == 0 && f.imm == 0
    case RegReg | RegRegAddr => f.imm == 0
    case RegImm => f.rs == 0
    case Imm => f.rd == 0 && f.rs == 0
  }

  /** Fields the assembler can produce: in range, and zero where the shape has no operand. */
  predicate Canonical(f: Fields) {
    f.Valid() && UnusedZero(ShapeOf(f.opcode), f)
  }

  /** `(opcode << 12) | (rd << 10) | (rs << 8) | (imm & 0xFF)` */
  function Encode(f: Fields): (w: nat)
    requires f.Valid()
    ensures w == f.opcode * 4096 + f.rd * 1024 + f.rs * 256 + f.imm
    ensures w < 65536
  {
    EncodeIsSum(f);
    Or(Or(Or(Shl(f.opcode, 12), Shl(f.rd, 10)), Shl(f.rs, 8)), And(f.imm, 0xFF))
  }

  /** The or-ed fields occupy disjoint bits, so the word is their weighted sum. */
  lemma EncodeIsSum(f: Fields)
    requires f.Valid()
    ensures Or(Or(Or(Shl(f.opcode, 12), Shl(f.rd, 10)), Shl(f.rs, 8)), And(f.imm, 0xFF))
         == f.opcode * 4096 + f.rd * 1024 + f.rs * 256 + f.imm
  {
    Pow2Values();
    var h1 := f.opcode;
    var h2 := h1 * 4 + f.rd;
    var h3 := h2 * 4 + f.rs;
    var w1 := Or(Shl(f.opcode, 12), Shl(f.rd, 10));
    assert w1 == h2 * 1024 by {
      assert Shl(f.opcode, 12) == h1 * Pow2(12) && Shl(f.rd, 10) == f.rd * 1024;
      OrLowBits(h1, 12, f.rd * 1024);
    }
    var w2 := Or(w1, Shl(f.rs, 8));
    assert w2 == h3 * 256 by {
      assert w1 == h2 * Pow2(10) && Shl(f.rs, 8) == f.rs * 256;
      OrLowBits(h2, 10, f.rs * 256);
    }
    assert And(f.imm, 0xFF) == f.imm by {
      AndMask(f.imm, 8);
    }
    assert Or(w2, f.imm) == h3 * 256 + f.imm by {
      assert w2 == h3 * Pow2(8);
      OrLowBits(h3, 8, f.imm);
    }
  }

  /** The processor's field extraction: `w[15:12]`, `w[11:10]`, `w[9:8]`, `w[7:0]`. */
  function Decode(w: nat): (f: Fields)
    ensures f.Valid()
  {
    Fields((w / 4096) % 16, (w / 1024) % 4, (w / 256) % 4, w % 256)
  }

  /** Decoding an encoded word recovers every field. */
  lemma DecodeEncode(f: Fields)
    requires f.Valid()
    ensures Decode(Encode(f)) == f
  {
    var w := Encode(f);
    var h2 := f.opcode * 4 + f.rd;
    var h3 := h2 * 4 + f.rs;
    DivMod(w, f.opcode, f.rd * 1024 + f.rs * 256 + f.imm, 4096);
    DivMod(f.opcode, 0, f.opcode, 16);
    DivMod(w, h2, f.rs * 256 + f.imm, 1024);
    DivMod(h2, f.opcode, f.rd, 4);
    DivMod(w, h3, f.imm, 256);
    DivMod(h3, h2, f.rs, 4);
  }

  /** Every 16-bit word is the encoding of its decoded fields. */
  lemma EncodeDecode(w: nat)
    requires w < 65536
    ensures Encode(Decode(w)) == w
  {
    var f := Decode(w);
    FieldsOfWord(w);
    assert f.opcode == w / 4096;
    assert w == f.opcode * 4096 + f.rd * 1024 + f.rs * 256 + f.imm;
    assert Encode(f) == w;
  }

  /** Quotient and remainder by one of the field boundaries of the word. */
  lemma DivMod(n: nat, q: nat, r: nat, d: nat)
    requires d == 4 || d == 16 || d == 256 || d == 1024 || d == 4096
    requires r < d && n == q * d + r
    ensures n / d == q && n % d == r
  {
  }

  lemma FieldsOfWord(w: nat)
    requires w < 65536
    ensures w == (w / 4096) * 4096 + ((w / 1024) % 4) * 1024 + ((w / 256) % 4) * 256 + w % 256
    ensures w / 4096 < 16
  {
    var e := w / 256;
    assert w == 256 * e + w % 256;
    var g := e / 4;
    assert e == 4 * g + e % 4;
    assert g == w / 1024;
    var h := g / 4;
    assert g == 4 * h + g % 4;
    assert h == w / 4096;
  }
}

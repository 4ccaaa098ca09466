/**
 * `to_hex_file` (backend/assembler.py:171-179): one upper-case, zero-padded
 * hexadecimal word per line, padded with NOP words to at least eight lines,
 * in the form Verilog's `$readmemh` reads.
 */
module HexFile {
  import opened Wrappers
  import opened Text
  import opened Numerals
  import opened Isa

  /** The memory image is padded to at least this many words (line 177). */
  const MinWords: nat := 8

  /** `f"{n:04X}"`: upper-case hexadecimal, left-padded with zeros to four digits. */
  function HexWord(n: nat): (r: string)
    ensures |r| >= 4 && (n < 65536 ==> |r| == 4)
  {
    FourDigits(n);
    PadZeros(ToDigits(n, 16), 4)
  }

  /** The line is made of upper-case hex digits only, and denotes `n`. */
  lemma HexWordDigits(n: nat)
    ensures IsDigits(HexWord(n), 16) && Value(HexWord(n), 16) == n
    ensures forall i :: 0 <= i < |HexWord(n)| ==> HexWord(n)[i] in DigitChars
  {
    var d := ToDigits(n, 16);
    var z := seq(if |d| < 4 then 4 - |d| else 0, _ => '0');
    assert HexWord(n) == z + d;
    ValueLeadingZeros(z, d, 16);
    ValueOfToDigits(n, 16);
    ToDigitsUpper(n, 16);
  }

  /** A 16-bit word has at most four hexadecimal digits. */
  lemma FourDigits(n: nat)
    ensures n < 65536 ==> |ToDigits(n, 16)| <= 4
  {
    if n < 65536 {
      assert Pow(16, 4) == 65536;
      ToDigitsLength(n, 16, 4);
    }
  }

  /** `ToDigits` writes only the upper-case digits "0"-"9", "A"-"F". */
  lemma {:induction false} ToDigitsUpper(n: nat, base: nat)
    requires 2 <= base <= 16
    ensures forall i :: 0 <= i < |ToDigits(n, base)| ==> ToDigits(n, base)[i] in DigitChars
    decreases n
  {
    if n >= base {
      DivStep(n, base);
      ToDigitsUpper(n / base, base);
      assert ToDigits(n, base) == ToDigits(n / base, base) + [DigitChar(n % base)];
    }
  }

  /** A hex line reads back, with `int(line, 16)`, as the word it was written from. */
  lemma ReadHexWord(n: nat)
    ensures ParseInt(HexWord(n), 16) == Some(n as int)
  {
    var r := HexWord(n);
    assert IsDigits(r, 16) && Value(r, 16) == n by {
      HexWordDigits(n);
    }
    assert !HasBasePrefix(r, 16) by {
      assert CharValue(r[1]) < 16;
    }
    ParseIntDigits(r, 16);
  }

  /** The padding line is the word of a `NOP` with all fields zero. */
  lemma PaddingIsNop()
    ensures HexWord(0) == "0000"
    ensures Decode(0) == Fields(0, 0, 0, 0) && Mnemonics[Decode(0).opcode] == "NOP"
    ensures Encode(Fields(0, 0, 0, 0)) == 0
  {
    var r := HexWord(0);
    assert ToDigits(0, 16) == "0";
    assert r == "0000";
  }

  /** `to_hex_file(program)` */
  method ToHexFile(program: seq<nat>) returns (text: string)
    ensures var lines := SplitOn(text, '\n');
      |lines| == (if |program| < MinWords then MinWords else |program|) &&
      (forall i :: 0 <= i < |program| ==> lines[i] == HexWord(program[i])) &&
      (forall i :: |program| <= i < |lines| ==> lines[i] == "0000")
  {
    var lines: seq<string> := [];
    for i := 0 to |program|
      invariant |lines| == i
      invariant forall k {:trigger lines[k]} :: 0 <= k < i ==> lines[k] == HexWord(program[k])
      invariant forall k :: 0 <= k < i ==> IsDigits(lines[k], 16)
    {
      var line := HexWord(program[i]);
      assert IsDigits(line, 16) by {
        HexWordDigits(program[i]);
      }
      var next := lines + [line];
      assert forall k :: 0 <= k < i ==> next[k] == lines[k];
      lines := next;
    }
    while |lines| < MinWords
      invariant |program| <= |lines| <= if |program| < MinWords then MinWords else |program|
      invariant forall k {:trigger lines[k]} :: 0 <= k < |program| ==> lines[k] == HexWord(program[k])
      invariant forall k :: |program| <= k < |lines| ==> lines[k] == "0000"
      invariant forall k :: 0 <= k < |lines| ==> IsDigits(lines[k], 16)
      decreases MinWords - |lines|
    {
      var next := lines + ["0000"];
      assert forall k :: 0 <= k < |lines| ==> next[k] == lines[k];
      lines := next;
    }
    text := JoinWith(lines, '\n');
    ReadLines(lines);
  }

  /** Hex lines hold no line break, so splitting the file gives the lines back. */
  lemma ReadLines(lines: seq<string>)
    requires 1 <= |lines|
    requires forall k :: 0 <= k < |lines| ==> IsDigits(lines[k], 16)
    ensures SplitOn(JoinWith(lines, '\n'), '\n') == lines
  {
    forall k | 0 <= k < |lines| ensures '\n' !in lines[k] {
      NoNewline(lines[k]);
    }
    SplitOnJoin(lines, '\n');
  }

  /** Hex digits are no line breaks. */
  lemma NoNewline(s: string)
    requires IsDigits(s, 16)
    ensures '\n' !in s
  {
    forall i | 0 <= i < |s| ensures s[i] != '\n' {
      assert CharValue(s[i]) < 16;
    }
  }
}

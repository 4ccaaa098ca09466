/**
 * Operand parsing: `parse_register` (backend/assembler.py:47-52) and
 * `parse_immediate` (backend/assembler.py:55-71). Where Python raises
 * ValueError the model returns `Err` with the kind of failure.
 */
module Operands {
  import opened Wrappers
  import opened Text
  import opened Numerals

  /** The assembler's errors; the message texts are not modelled, their kinds and subjects are. */
  datatype AsmError =
    | InvalidRegister(text: string)
    | InvalidImmediate(text: string)
    | ImmediateOutOfRange(value: int)
    | EmptyInstruction
    | UnknownInstruction(mnemonic: string)
    | MissingOperands(mnemonic: string)

  /** `s.replace('[', '').replace(']', '')` */
  function RemoveBrackets(s: string): string {
    RemoveChar(RemoveChar(s, '['), ']')
  }

  /** The canonical spelling of register `k`. */
  function RegisterName(k: nat): string
    requires k < 4
  {
    "R" + [DigitChar(k)]
  }

  /** `parse_register(s)`: upper-case, drop brackets, then accept exactly `R0`..`R3`. */
  function ParseRegister(s: string): (r: Result<nat, AsmError>)
    ensures r.Ok? ==> r.value < 4
    ensures r.Err? ==> r.error == InvalidRegister(s)
  {
    var reg := RemoveBrackets(Upper(s));
    if HasPrefix(reg, "R") && |reg| == 2 && reg[1] in "0123" then
      Ok(reg[1] as int - '0' as int)
    else
      Err(InvalidRegister(s))
  }

  /** Upper-casing does not create or destroy a bracket, so it commutes with dropping them. */
  lemma {:induction false} UpperRemoveChar(s: string, c: char)
    requires c == '[' || c == ']'
    ensures RemoveChar(Upper(s), c) == Upper(RemoveChar(s, c))
  {
    if s != [] {
      var head := if s[0] == c then [] else [s[0]];
      calc {
        RemoveChar(Upper(s), c);
        { RemoveUpperFirst(s, c); }
        Upper(head) + RemoveChar(Upper(s[1..]), c);
        { UpperRemoveChar(s[1..], c); }
        Upper(head) + Upper(RemoveChar(s[1..], c));
        { UpperConcat(head, RemoveChar(s[1..], c)); }
        Upper(head + RemoveChar(s[1..], c));
      }
    } else {
      assert Upper(s) == [];
    }
  }

  lemma RemoveUpperFirst(s: string, c: char)
    requires s != [] && (c == '[' || c == ']')
    ensures RemoveChar(Upper(s), c) == Upper(if s[0] == c then [] else [s[0]]) + RemoveChar(Upper(s[1..]), c)
  {
    var u := Upper(s);
    assert u[0] == UpperChar(s[0]) && u[1..] == Upper(s[1..]);
  }

  lemma UpperConcat(a: string, b: string)
    ensures Upper(a) + Upper(b) == Upper(a + b)
  {
  }

  /**
   * `parse_register` accepts exactly the strings that, once brackets are
   * removed, read `R0`..`R3` in either case, and returns the register number.
   */
  lemma ParseRegisterExactly(s: string, k: nat)
    ensures ParseRegister(s) == Ok(k) <==>
      k < 4 && (RemoveBrackets(s) == RegisterName(k) || RemoveBrackets(s) == "r" + [DigitChar(k)])
  {
    var b := RemoveBrackets(s);
    var u := Upper(b);
    assert RemoveBrackets(Upper(s)) == u by {
      UpperRemoveChar(s, '[');
      UpperRemoveChar(RemoveChar(s, '['), ']');
    }
    if |b| == 2 {
      assert HasPrefix(u, "R") <==> u[0] == 'R' by {
        assert u[..1] == [u[0]];
      }
      TwoCharRegister(b, k);
    }
  }

  /** A two-character text names register `k` in upper case exactly when it reads `R<k>` or `r<k>`. */
  lemma TwoCharRegister(b: string, k: nat)
    requires |b| == 2
    ensures (UpperChar(b[0]) == 'R' && UpperChar(b[1]) in "0123" && UpperChar(b[1]) as int - '0' as int == k) <==>
      k < 4 && (b == RegisterName(k) || b == "r" + [DigitChar(k)])
  {
    assert b == [b[0], b[1]];
  }

  /** The canonical name of every register parses back to it. */
  lemma ParseRegisterName(k: nat)
    requires k < 4
    ensures ParseRegister(RegisterName(k)) == Ok(k)
    ensures ParseRegister("[" + RegisterName(k) + "]") == Ok(k)
  {
    var n := RegisterName(k);
    BracketsDropped(n);
    ParseRegisterExactly(n, k);
    ParseRegisterExactly("[" + n + "]", k);
  }

  /** Only the brackets are removed: every other character keeps its count. */
  lemma RemoveBracketsKeeps(s: string)
    ensures multiset(RemoveBrackets(s)) == multiset(s)['[' := 0][']' := 0]
  {
    RemoveCharKeeps(s, '[');
    RemoveCharKeeps(RemoveChar(s, '['), ']');
  }

  /** Brackets around a bracket-free text are all `parse_register` drops. */
  lemma BracketsDropped(n: string)
    requires '[' !in n && ']' !in n
    ensures RemoveBrackets(n) == n && RemoveBrackets("[" + n + "]") == n
  {
    RemoveCharAbsent(n, '[');
    RemoveCharAbsent(n, ']');
    var b := "[" + n + "]";
    assert RemoveChar(b, '[') == n + "]" by {
      RemoveCharConcat("[" + n, "]", '[');
      RemoveCharConcat("[", n, '[');
    }
    RemoveCharConcat(n, "]", ']');
  }

  /**
   * `parse_immediate(s)`: after stripping, a `0x`/`0X` prefix reads the whole
   * text in base 16, a `0b`/`0B` prefix reads the rest in base 2, and anything
   * else is read in base 10; a value outside 0..255 is an error.
   */
  function ParseImmediate(s: string): (r: Result<nat, AsmError>)
    ensures r.Ok? ==> r.value <= 255
  {
    var t := Strip(s);
    match ReadLiteral(t)
    case None => Err(InvalidImmediate(t))
    case Some(v) => InRange(v)
  }

  /** The `try` block of parse_immediate: pick the base by prefix and call `int()`. */
  function ReadLiteral(t: string): Option<int> {
    if HasPrefix(Lower(t), "0x") then ParseInt(t, 16)
    else if HasPrefix(Lower(t), "0b") then ParseInt(t[2..], 2)
    else ParseInt(t, 10)
  }

  /** The range check of lines 67-71. */
  function InRange(v: int): Result<nat, AsmError> {
    if v < 0 || v > 255 then Err(ImmediateOutOfRange(v)) else Ok(v)
  }

  /** Whatever base the prefix picks, `int()` reads a text only if it holds some hexadecimal digit. */
  lemma ReadLiteralNeedsDigit(t: string)
    ensures ReadLiteral(t).Some? ==> exists i :: 0 <= i < |t| && CharValue(t[i]) < 16
  {
    if ReadLiteral(t).Some? {
      if HasPrefix(Lower(t), "0x") {
        ParseIntNeedsDigit(t, 16);
      } else if HasPrefix(Lower(t), "0b") {
        ParseIntNeedsDigit(t[2..], 2);
        var i :| 0 <= i < |t[2..]| && CharValue(t[2..][i]) < 2;
        assert CharValue(t[i + 2]) < 16;
      } else {
        ParseIntNeedsDigit(t, 10);
      }
    }
  }

  /** A text with no digit at all is an invalid immediate, reported with its stripped text. */
  lemma ParseImmediateNoDigits(s: string)
    requires forall i :: 0 <= i < |Strip(s)| ==> CharValue(Strip(s)[i]) == 16
    ensures ParseImmediate(s) == Err(InvalidImmediate(Strip(s)))
  {
    ReadLiteralNeedsDigit(Strip(s));
  }

  /** A digit string has neither a `0x` nor a `0b` prefix, in either case. */
  lemma DigitsHaveNoPrefix(d: string, base: nat)
    requires base <= 10 && d != [] && IsDigits(d, base)
    ensures !HasPrefix(Lower(d), "0x") && !HasPrefix(Lower(d), "0b")
  {
    if |d| >= 2 {
      assert CharValue(d[1]) < 10;
      assert Lower(d)[..2] == [LowerChar(d[0]), LowerChar(d[1])];
    }
  }

  /** A decimal numeral, leading zeros included, is read in base 10 and range-checked. */
  lemma {:induction false} ParseImmediateDecimal(d: string)
    requires d != [] && IsDigits(d, 10)
    ensures ParseImmediate(d) == InRange(Value(d, 10))
  {
    DigitsUnpadded(d, 10);
    DigitsHaveNoPrefix(d, 10);
    ParseIntDigits(d, 10);
    assert ReadLiteral(d) == Some(Value(d, 10) as int);
  }

  /** The shortest decimal rendering of every value reads back as that value. */
  lemma {:induction false} ParseImmediateRendered(v: nat)
    ensures ParseImmediate(ToDigits(v, 10)) == InRange(v)
  {
    ParseImmediateDecimal(ToDigits(v, 10));
    ValueOfToDigits(v, 10);
  }

  /** A `-` before a decimal numeral is accepted by `int()`, so only `-0`, `-00`, ... pass the range check. */
  lemma {:induction false} ParseImmediateNegative(d: string)
    requires d != [] && IsDigits(d, 10)
    ensures ParseImmediate("-" + d) == InRange(-(Value(d, 10) as int))
  {
    var s := "-" + d;
    assert Strip(s) == s by {
      assert CharValue(d[|d| - 1]) < 10 && s[|s| - 1] == d[|d| - 1];
      StripUnpadded(s);
    }
    SignedLiteral(s);
    ParseIntNegated(d, 10);
  }

  /** A text that starts with a sign takes neither prefix branch. */
  lemma SignedLiteral(s: string)
    requires s != [] && s[0] == '-'
    ensures ReadLiteral(s) == ParseInt(s, 10)
  {
    assert Lower(s)[0] == '-';
    assert |s| >= 2 ==> Lower(s)[..2][0] == '-';
  }

  /** `0x` or `0X` followed by hexadecimal digits of either case, leading zeros included, is read in base 16. */
  lemma {:induction false} ParseImmediateHex(d: string, x: char)
    requires x == 'x' || x == 'X'
    requires d != [] && IsDigits(d, 16)
    ensures ParseImmediate(['0', x] + d) == InRange(Value(d, 16))
  {
    var s := ['0', x] + d;
    assert Strip(s) == s by {
      assert CharValue(d[|d| - 1]) < 16 && s[|s| - 1] == d[|d| - 1];
      StripUnpadded(s);
    }
    assert Lower(s)[..2] == "0x";
    ParseIntHexPrefix(d, x);
    assert ReadLiteral(s) == Some(Value(d, 16) as int);
  }

  /** `0b` or `0B` followed by binary digits, leading zeros included, is read in base 2. */
  lemma {:induction false} ParseImmediateBinary(d: string, b: char)
    requires b == 'b' || b == 'B'
    requires d != [] && IsDigits(d, 2)
    ensures ParseImmediate(['0', b] + d) == InRange(Value(d, 2))
  {
    ReadBinaryLiteral(d, b);
  }

  lemma {:induction false} ReadBinaryLiteral(d: string, b: char)
    requires b == 'b' || b == 'B'
    requires d != [] && IsDigits(d, 2)
    ensures Strip(['0', b] + d) == ['0', b] + d
    ensures ReadLiteral(['0', b] + d) == Some(Value(d, 2) as int)
  {
    var s := ['0', b] + d;
    assert Strip(s) == s by {
      assert CharValue(d[|d| - 1]) < 2 && s[|s| - 1] == d[|d| - 1];
      StripUnpadded(s);
    }
    assert !HasPrefix(Lower(s), "0x") && HasPrefix(Lower(s), "0b") by {
      assert Lower(s)[..2] == "0b";
    }
    assert s[2..] == d;
    assert !HasBasePrefix(d, 2) by {
      assert |d| >= 2 ==> CharValue(d[1]) < 2;
    }
    ParseIntDigits(d, 2);
  }

  /**
   * `0b`, then an information separator (28), then binary digits: the outer
   * `strip()` keeps the separator, it is inside, and `int(s[2:], 2)` does not
   * skip it, so the text is an invalid immediate.
   */
  lemma ParseImmediateBinarySeparator(d: string, b: char)
    requires b == 'b' || b == 'B'
    requires d != [] && IsDigits(d, 2)
    ensures ParseImmediate(['0', b, 28 as char] + d) == Err(InvalidImmediate(['0', b, 28 as char] + d))
  {
    var s := ['0', b, 28 as char] + d;
    assert Strip(s) == s by {
      assert CharValue(d[|d| - 1]) < 2 && s[|s| - 1] == d[|d| - 1];
      StripUnpadded(s);
    }
    assert !HasPrefix(Lower(s), "0x") && HasPrefix(Lower(s), "0b") by {
      assert Lower(s)[..2] == "0b";
    }
    assert s[2..] == [28 as char] + d;
    ParseIntKeepsSeparators(d, 2);
  }
}

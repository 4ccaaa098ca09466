/**
 * Digit strings in bases 2, 10 and 16: Python's `int(s, base)` for reading them
 * and the `X` format (upper-case hexadecimal, zero-padded) for writing them.
 */
module Numerals {
  import opened Wrappers
  import opened Text

  /** The value of `c` as a digit; 16 for a character that is no digit of bases up to 16. */
  function CharValue(c: char): (d: nat)
    ensures d <= 16
    ensures d < 16 ==> !IsSpace(c) && !IsIntSpace(c) && c != '+' && c != '-' && c != ',' && c != ';'
  {
    if '0' <= c <= '9' then c as int - '0' as int
    else if 'a' <= c <= 'f' then c as int - 'a' as int + 10
    else if 'A' <= c <= 'F' then c as int - 'A' as int + 10
    else 16
  }

  const DigitChars: string := "0123456789ABCDEF"

  function DigitChar(d: nat): char
    requires d < 16
  {
    DigitChars[d]
  }

  lemma DigitCharValue(d: nat)
    requires d < 16
    ensures CharValue(DigitChar(d)) == d
  {
  }

  predicate IsDigits(s: string, base: nat) {
    forall i :: 0 <= i < |s| ==> CharValue(s[i]) < base
  }

  /** The number the digit string `s` denotes in `base`, most significant digit first. */
  function Value(s: string, base: nat): nat
    requires IsDigits(s, base)
    decreases |s|
  {
    if s == [] then 0
    else
      DigitsPrefix(s, base, |s| - 1);
      var high := Value(s[..|s| - 1], base);
      NatProduct(high, base);
      high * base + CharValue(s[|s| - 1])
  }

  lemma NatProduct(a: nat, b: nat)
    ensures a * b >= 0
  {
  }

  lemma DigitsPrefix(s: string, base: nat, n: nat)
    requires IsDigits(s, base) && n <= |s|
    ensures IsDigits(s[..n], base)
  {
    forall i | 0 <= i < n ensures CharValue(s[..n][i]) < base {
      assert s[..n][i] == s[i];
    }
  }

  lemma ValueSnoc(s: string, c: char, base: nat)
    requires IsDigits(s, base) && CharValue(c) < base
    ensures IsDigits(s + [c], base)
    ensures Value(s + [c], base) == Value(s, base) * base + CharValue(c)
  {
    assert (s + [c])[..|s|] == s;
  }

  /** The shortest upper-case digit string of `n` in `base` ("0" for zero). */
  function ToDigits(n: nat, base: nat): (r: string)
    requires 2 <= base <= 16
    ensures r != [] && IsDigits(r, base)
    decreases n
  {
    if n < base then DigitCharValue(n); [DigitChar(n)]
    else
      DivStep(n, base);
      var high := ToDigits(n / base, base);
      DigitCharValue(n % base);
      ValueSnoc(high, DigitChar(n % base), base);
      high + [DigitChar(n % base)]
  }

  /** Reading back the digits of `n` gives `n`. */
  lemma {:induction false} ValueOfToDigits(n: nat, base: nat)
    requires 2 <= base <= 16
    ensures Value(ToDigits(n, base), base) == n
    decreases n
  {
    if n < base {
      DigitCharValue(n);
      assert ToDigits(n, base) == [] + [DigitChar(n)];
      ValueSnoc([], DigitChar(n), base);
    } else {
      DivStep(n, base);
      var high := ToDigits(n / base, base);
      assert ToDigits(n, base) == high + [DigitChar(n % base)];
      DigitCharValue(n % base);
      ValueOfToDigits(n / base, base);
      ValueSnoc(high, DigitChar(n % base), base);
      assert Value(ToDigits(n, base), base) == (n / base) * base + n % base;
    }
  }

  lemma DivStep(n: nat, base: nat)
    requires 2 <= base <= n
    ensures n / base < n && n % base < base
    ensures n == (n / base) * base + n % base
  {
  }

  function Pow(base: nat, k: nat): nat {
    if k == 0 then 1 else base * Pow(base, k - 1)
  }

  /** A number below `base^k` has at most `k` digits. */
  lemma {:induction false} ToDigitsLength(n: nat, base: nat, k: nat)
    requires 2 <= base <= 16 && 1 <= k
    requires n < Pow(base, k)
    ensures |ToDigits(n, base)| <= k
    decreases n
  {
    if n < base {
      assert |ToDigits(n, base)| == 1;
    } else {
      var p := Pow(base, k - 1);
      assert Pow(base, k) == base * p;
      DivBelow(n, base, p);
      DivStep(n, base);
      assert k > 1 by {
        assert Pow(base, 0) == 1;
      }
      ToDigitsLength(n / base, base, k - 1);
      assert |ToDigits(n, base)| == |ToDigits(n / base, base)| + 1;
    }
  }

  lemma DivBelow(n: nat, b: nat, p: nat)
    requires b > 0 && n < b * p
    ensures n / b < p
  {
    assert (n / b) * b <= n;
    assert (n / b) * b < p * b;
  }

  /** `s` left-padded with '0' to at least `width` characters, as the `0<width>` format does. */
  function PadZeros(s: string, width: nat): (r: string)
    ensures |r| == if |s| < width then width else |s|
  {
    if |s| < width then seq(width - |s|, _ => '0') + s else s
  }

  /** Leading zeros do not change the value of a digit string. */
  lemma {:induction false} ValueLeadingZeros(z: string, s: string, base: nat)
    requires 2 <= base
    requires forall i :: 0 <= i < |z| ==> z[i] == '0'
    requires IsDigits(s, base)
    ensures IsDigits(z + s, base)
    ensures Value(z + s, base) == Value(s, base)
    decreases |s|
  {
    if s == [] {
      assert z + s == z;
      ZerosValue(z, base);
    } else {
      var init, last := s[..|s| - 1], s[|s| - 1];
      assert s == init + [last];
      assert z + s == (z + init) + [last];
      ValueLeadingZeros(z, init, base);
      ValueSnoc(z + init, last, base);
      ValueSnoc(init, last, base);
    }
  }

  lemma {:induction false} ZerosValue(z: string, base: nat)
    requires 2 <= base
    requires forall i :: 0 <= i < |z| ==> z[i] == '0'
    ensures IsDigits(z, base) && Value(z, base) == 0
  {
    if z != [] {
      ZerosValue(z[..|z| - 1], base);
    }
  }

  /** The `0x`/`0X` (base 16) or `0b`/`0B` (base 2) prefix that `int(s, base)` skips. */
  predicate HasBasePrefix(u: string, base: nat) {
    |u| >= 2 && u[0] == '0' &&
    ((base == 16 && (u[1] == 'x' || u[1] == 'X')) || (base == 2 && (u[1] == 'b' || u[1] == 'B')))
  }

  /**
   * The whitespace `int()` skips around a numeral: C's `isspace`, that is
   * tab through carriage return and the space. The separators 28-31, which
   * `str.isspace()` also accepts, are not skipped.
   */
  predicate IsIntSpace(c: char) {
    var k := c as int;
    9 <= k <= 13 || k == 32
  }

  /** `s` without the leading `IsIntSpace` characters. */
  function IntTrimLeft(s: string): (r: string)
    ensures |r| <= |s| && r == s[|s| - |r|..]
    ensures r == [] || !IsIntSpace(r[0])
    ensures forall k :: 0 <= k < |s| - |r| ==> IsIntSpace(s[k])
  {
    if |s| > 0 && IsIntSpace(s[0]) then IntTrimLeft(s[1..]) else s
  }

  /** `s` without the trailing `IsIntSpace` characters. */
  function IntTrimRight(s: string): (r: string)
    ensures |r| <= |s| && r == s[..|r|]
    ensures r == [] || !IsIntSpace(r[|r| - 1])
    ensures forall k :: |r| <= k < |s| ==> IsIntSpace(s[k])
  {
    if |s| > 0 && IsIntSpace(s[|s| - 1]) then IntTrimRight(s[..|s| - 1]) else s
  }

  /** The numeral `int()` reads once the surrounding C whitespace is skipped. */
  function IntStrip(s: string): string {
    IntTrimRight(IntTrimLeft(s))
  }

  /** A text that neither starts nor ends with C whitespace is read as it stands. */
  lemma IntStripUnpadded(s: string)
    requires s == [] || (!IsIntSpace(s[0]) && !IsIntSpace(s[|s| - 1]))
    ensures IntStrip(s) == s
  {
  }

  /**
   * Python's `int(s, base)` for base 2, 10 or 16: surrounding C whitespace is
   * stripped, one optional sign follows, then (base 2 and 16 only) an optional
   * base prefix, then at least one digit of the base. None where Python raises
   * ValueError.
   */
  function ParseInt(s: string, base: nat): Option<int>
    requires base == 2 || base == 10 || base == 16
  {
    var t := IntStrip(s);
    if |t| > 0 && (t[0] == '+' || t[0] == '-') then
      match ParseUnsigned(t[1..], base)
      case None => None
      case Some(v) => Some(if t[0] == '-' then -(v as int) else v as int)
    else
      match ParseUnsigned(t, base)
      case None => None
      case Some(v) => Some(v as int)
  }

  /** What follows the sign: an optional base prefix, then at least one digit of the base. */
  function ParseUnsigned(u: string, base: nat): Option<nat> {
    var d := if HasBasePrefix(u, base) then u[2..] else u;
    if d != [] && IsDigits(d, base) then Some(Value(d, base)) else None
  }

  /** `int(s, base)` accepts a text only if it holds at least one digit of the base. */
  lemma ParseIntNeedsDigit(s: string, base: nat)
    requires base == 2 || base == 10 || base == 16
    ensures ParseInt(s, base).Some? ==> exists i :: 0 <= i < |s| && CharValue(s[i]) < base
  {
    if ParseInt(s, base).Some? {
      var t := IntStrip(s);
      var sign := if |t| > 0 && (t[0] == '+' || t[0] == '-') then 1 else 0;
      var u := t[sign..];
      assert ParseUnsigned(u, base).Some?;
      var j := UnsignedNeedsDigit(u, base);
      assert CharValue(t[sign + j]) < base;
      StripIndex(s, sign + j);
    }
  }

  /** Position `q` of the stripped numeral is a position of `s`. */
  lemma {:induction false} StripIndex(s: string, q: nat)
    requires q < |IntStrip(s)|
    ensures |s| - |IntTrimLeft(s)| + q < |s| && s[|s| - |IntTrimLeft(s)| + q] == IntStrip(s)[q]
  {
    var l := IntTrimLeft(s);
    assert IntStrip(s)[q] == l[q];
  }

  /** Where the first digit sits once a base prefix is skipped. */
  lemma UnsignedNeedsDigit(u: string, base: nat) returns (j: nat)
    requires ParseUnsigned(u, base).Some?
    ensures j < |u| && CharValue(u[j]) < base
  {
    j := if HasBasePrefix(u, base) then 2 else 0;
    var d := u[j..];
    assert d != [] && IsDigits(d, base);
    assert d[0] == u[j];
  }

  /** An unpadded, unsigned text is read as `ParseUnsigned` reads it. */
  lemma UnsignedRead(s: string, base: nat, v: nat)
    requires base == 2 || base == 10 || base == 16
    requires s != [] && s[0] != '+' && s[0] != '-' && !IsIntSpace(s[0]) && !IsIntSpace(s[|s| - 1])
    requires ParseUnsigned(s, base) == Some(v)
    ensures ParseInt(s, base) == Some(v as int)
  {
    IntStripUnpadded(s);
  }

  /** An unpadded, unsigned text that `ParseUnsigned` rejects is rejected. */
  lemma UnsignedRejected(s: string, base: nat)
    requires base == 2 || base == 10 || base == 16
    requires s != [] && s[0] != '+' && s[0] != '-' && !IsIntSpace(s[0]) && !IsIntSpace(s[|s| - 1])
    requires ParseUnsigned(s, base) == None
    ensures ParseInt(s, base) == None
  {
    IntStripUnpadded(s);
  }

  /** `-` followed by an unpadded text is read as the negation of that text. */
  lemma NegativeRead(u: string, base: nat, v: nat)
    requires base == 2 || base == 10 || base == 16
    requires ParseUnsigned(u, base) == Some(v)
    ensures ParseInt("-" + u, base) == Some(-(v as int))
  {
    var w := if HasBasePrefix(u, base) then u[2..] else u;
    assert w != [] && IsDigits(w, base);
    assert u[|u| - 1] == w[|w| - 1] && CharValue(w[|w| - 1]) < base;
    var s := "-" + u;
    assert s[0] == '-' && s[1..] == u && s[|s| - 1] == u[|u| - 1];
    IntStripUnpadded(s);
  }

  lemma DigitsUnpadded(d: string, base: nat)
    requires base <= 16 && d != [] && IsDigits(d, base)
    ensures Strip(d) == d && IntStrip(d) == d
  {
    assert CharValue(d[0]) < base && CharValue(d[|d| - 1]) < base;
    StripUnpadded(d);
    IntStripUnpadded(d);
  }

  /** A digit string with no base prefix reads as its value. */
  lemma {:induction false} UnsignedDigits(d: string, base: nat)
    requires d != [] && IsDigits(d, base) && !HasBasePrefix(d, base)
    ensures ParseUnsigned(d, base) == Some(Value(d, base))
  {
  }

  /** `int(d, base)` of a digit string with no prefix and no sign is its value. */
  lemma {:induction false} ParseIntDigits(d: string, base: nat)
    requires base == 2 || base == 10 || base == 16
    requires d != [] && IsDigits(d, base) && !HasBasePrefix(d, base)
    ensures ParseInt(d, base) == Some(Value(d, base) as int)
  {
    assert CharValue(d[0]) < base && CharValue(d[|d| - 1]) < base;
    UnsignedDigits(d, base);
    UnsignedRead(d, base, Value(d, base));
  }

  /** `int("-" + d, base)` of a digit string with no prefix is its negated value. */
  lemma {:induction false} ParseIntNegated(d: string, base: nat)
    requires base == 2 || base == 10 || base == 16
    requires d != [] && IsDigits(d, base) && !HasBasePrefix(d, base)
    ensures ParseInt("-" + d, base) == Some(-(Value(d, base) as int))
  {
    UnsignedDigits(d, base);
    NegativeRead(d, base, Value(d, base));
  }

  /** `int("0x" + d, 16)`: the prefix is skipped, in either case. */
  lemma {:induction false} ParseIntHexPrefix(d: string, x: char)
    requires x == 'x' || x == 'X'
    requires d != [] && IsDigits(d, 16)
    ensures ParseInt(['0', x] + d, 16) == Some(Value(d, 16) as int)
  {
    var s := ['0', x] + d;
    assert ParseUnsigned(s, 16) == Some(Value(d, 16)) by {
      assert HasBasePrefix(s, 16) && s[2..] == d;
    }
    assert s[0] == '0' && s[|s| - 1] == d[|d| - 1];
    assert CharValue(d[|d| - 1]) < 16;
    UnsignedRead(s, 16, Value(d, 16));
  }

  /**
   * `int()` does not skip the separators 28-31 that `str.isspace()` accepts:
   * `int("\x1c1", 10)` is an error.
   */
  lemma ParseIntKeepsSeparators(d: string, base: nat)
    requires base == 2 || base == 10 || base == 16
    requires d != [] && IsDigits(d, base)
    ensures IsSpace(28 as char) && ParseInt([28 as char] + d, base) == None
  {
    var s := [28 as char] + d;
    assert CharValue(d[|d| - 1]) < base && s[|s| - 1] == d[|d| - 1];
    assert ParseUnsigned(s, base) == None by {
      assert !HasBasePrefix(s, base) && CharValue(s[0]) == 16;
    }
    UnsignedRejected(s, base);
  }
}

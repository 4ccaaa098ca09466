/**
 * `assemble` (backend/assembler.py:137-168): split the text into lines, drop
 * comments and blank lines, assemble every remaining line, and collect the
 * words of the lines that parse and the numbered errors of those that do not.
 */
module Program {
  import opened Wrappers
  import opened Text
  import opened Isa
  import opened Operands
  import opened Instructions

  /** The code part of a raw line: the characters before the first `;`, if any. */
  function CodePart(line: string): (r: string)
    ensures |r| <= |line| && ';' !in r
  {
    if line == [] || line[0] == ';' then [] else [line[0]] + CodePart(line[1..])
  }

  /** The code part is the prefix that `line.index(';')` ends. */
  lemma {:induction false} CodePartCut(line: string)
    ensures ';' in line ==> CodePart(line) == line[..FirstIndex(line, ';')]
    ensures ';' !in line ==> CodePart(line) == line
  {
    if line != [] && line[0] != ';' {
      CodePartCut(line[1..]);
      assert ';' in line <==> ';' in line[1..] by {
        assert line == [line[0]] + line[1..];
      }
    }
  }

  /** Lines 148-153: strip, cut at the first `;`, strip again. */
  function CleanLine(line: string): (r: string)
    ensures |r| <= |line|
    ensures r == [] || (!IsSpace(r[0]) && !IsSpace(r[|r| - 1]))
  {
    var t := Strip(line);
    if ';' in t then Strip(t[..FirstIndex(t, ';')]) else t
  }

  /** A cleaned line is the stripped code part of the raw line: the comment and surrounding blanks are gone. */
  lemma CleanLineIsCode(line: string)
    ensures CleanLine(line) == Strip(CodePart(line))
    ensures ';' !in CleanLine(line)
  {
    if ';' in line {
      CommentCut(line);
    } else {
      StripFree(line, ';');
      CodePartCut(line);
    }
    StripFree(CodePart(line), ';');
  }

  lemma CommentCut(line: string)
    requires ';' in line
    ensures CleanLine(line) == Strip(CodePart(line))
  {
    var l := TrimLeft(line);
    SemicolonKept(line);
    CodePartTrimLeft(line);
    CodePartTrimRight(l);
    var t := TrimRight(l);
    CodePartCut(t);
    assert CleanLine(line) == Strip(CodePart(t));
    TrimLeftTwice(CodePart(line));
  }

  /** `lstrip` keeps every `;`, so cutting the comment commutes with it. */
  lemma {:induction false} CodePartTrimLeft(s: string)
    ensures CodePart(TrimLeft(s)) == TrimLeft(CodePart(s))
  {
    if |s| > 0 && IsSpace(s[0]) {
      var x := CodePart(s[1..]);
      assert CodePart(s) == [s[0]] + x by {
        assert s == [s[0]] + s[1..];
        CodePartCons(s[0], s[1..]);
      }
      calc {
        CodePart(TrimLeft(s));
        CodePart(TrimLeft(s[1..]));
        { CodePartTrimLeft(s[1..]); }
        TrimLeft(x);
        { TrimLeftSpace(s[0], x); }
        TrimLeft([s[0]] + x);
      }
    } else {
      var c := CodePart(s);
      assert c != [] ==> c[0] == s[0];
    }
  }

  lemma TrimLeftSpace(c: char, x: string)
    requires IsSpace(c)
    ensures TrimLeft([c] + x) == TrimLeft(x)
  {
    assert ([c] + x)[1..] == x;
  }

  lemma SemicolonKept(s: string)
    ensures ';' in s ==> ';' in TrimLeft(s)
  {
    if ';' in s {
      var l := TrimLeft(s);
      var j := FirstIndex(s, ';');
      var p := |s| - |l|;
      assert j >= p by {
        assert !IsSpace(s[j]);
      }
      assert l[j - p] == ';' by {
        assert l == s[p..];
      }
    }
  }

  lemma CodePartCons(c: char, s: string)
    requires c != ';'
    ensures CodePart([c] + s) == [c] + CodePart(s)
  {
    assert ([c] + s)[1..] == s;
  }

  /** `rstrip` drops only whitespace after the last character, and a `;` is no whitespace. */
  lemma CodePartTrimRight(l: string)
    requires ';' in l
    ensures ';' in TrimRight(l) && CodePart(TrimRight(l)) == CodePart(l)
  {
    var t := TrimRight(l);
    var j := FirstIndex(l, ';');
    assert !IsSpace(l[j]);
    assert j < |t|;
    assert t[j] == ';';
    assert t[..j] == l[..j];
    FirstIndexIs(t, ';', j);
    CodePartCut(t);
    CodePartCut(l);
  }

  lemma TrimLeftTwice(s: string)
    ensures Strip(TrimLeft(s)) == Strip(s)
  {
    var l := TrimLeft(s);
    assert TrimLeft(l) == l;
  }

  /** The first occurrence is the only position holding `c` with none before it. */
  lemma {:induction false} FirstIndexIs(s: string, c: char, r: nat)
    requires r < |s| && s[r] == c && c !in s[..r]
    ensures FirstIndex(s, c) == r
  {
    if r > 0 {
      assert s[..r][0] == s[0];
      assert s[1..][..r - 1] == s[..r][1..];
      FirstIndexIs(s[1..], c, r - 1);
    }
  }

  /** Stripping never introduces a character. */
  lemma StripFree(s: string, c: char)
    requires c !in s
    ensures c !in Strip(s)
  {
    var l := TrimLeft(s);
    NotInSlice(s, |s| - |l|, c);
    var t := TrimRight(l);
    forall k | 0 <= k < |t| ensures t[k] != c {
      assert t[k] == l[k];
    }
  }
  /** An entry of `errors`: the 1-based line number and what went wrong on that line. */
  datatype LineError = LineError(line: nat, error: AsmError)

  /** The dictionary `assemble` returns. */
  datatype AssemblyResult = AssemblyResult(success: bool, program: seq<nat>, errors: seq<LineError>)

  /** A line holds an instruction once its comment and surrounding whitespace are removed. */
  predicate HasCode(line: string) {
    CleanLine(line) != []
  }

  /** What `assemble` makes of one raw line: it is skipped, it gives a word, or it raises. */
  datatype LineOutcome = NoCode | Assembled(word: nat) | Failed(error: AsmError)

  /** The outcome of one raw line; only a line with code is handed to parse_line. */
  function Outcome(line: string): (o: LineOutcome)
    ensures o.NoCode? <==> !HasCode(line)
    ensures o.Assembled? ==> ParseLine(CleanLine(line)) == Ok(o.word)
    ensures o.Assembled? ==> o.word < 65536 && Canonical(Decode(o.word))
    ensures o.Failed? ==> ParseLine(CleanLine(line)) == Err(o.error)
  {
    if !HasCode(line) then NoCode
    else
      match ParseLine(CleanLine(line))
      case Ok(w) => Assembled(w)
      case Err(e) => Failed(e)
  }

  /** The outcome of every line of the text, in order. */
  function Outcomes(lines: seq<string>): (outs: seq<LineOutcome>)
    ensures |outs| == |lines|
    ensures forall k :: 0 <= k < |lines| ==> outs[k] == Outcome(lines[k])
  {
    seq(|lines|, k requires 0 <= k < |lines| => Outcome(lines[k]))
  }

  /** The words of the first `n` outcomes, in line order. */
  function Words(outs: seq<LineOutcome>, n: nat): seq<nat>
    requires n <= |outs|
  {
    if n == 0 then []
    else Words(outs, n - 1) + (if outs[n - 1].Assembled? then [outs[n - 1].word] else [])
  }

  /** The errors of the first `n` outcomes, each tagged with its 1-based line number, in line order. */
  function Errors(outs: seq<LineOutcome>, n: nat): seq<LineError>
    requires n <= |outs|
  {
    if n == 0 then []
    else Errors(outs, n - 1) + (if outs[n - 1].Failed? then [LineError(n, outs[n - 1].error)] else [])
  }

  /** `assemble(text)` */
  method Assemble(text: string) returns (result: AssemblyResult)
    ensures var outs := Outcomes(SplitOn(text, '\n'));
      result.program == Words(outs, |outs|) && result.errors == Errors(outs, |outs|)
    ensures result.success <==> result.errors == []
  {
    var lines := SplitOn(text, '\n');
    ghost var outs := Outcomes(lines);
    var program: seq<nat> := [];
    var errors: seq<LineError> := [];
    for i := 0 to |lines|
      invariant program == Words(outs, i)
      invariant errors == Errors(outs, i)
    {
      var line := CleanLine(lines[i]);
      assert outs[i] == Outcome(lines[i]);
      if line != [] {
        var r := ParseLine(line);
        if r.Ok? {
          assert outs[i] == Assembled(r.value);
          assert Words(outs, i + 1) == Words(outs, i) + [r.value];
          assert Errors(outs, i + 1) == Errors(outs, i);
          program := program + [r.value];
        } else {
          assert outs[i] == Failed(r.error);
          assert Words(outs, i + 1) == Words(outs, i);
          assert Errors(outs, i + 1) == Errors(outs, i) + [LineError(i + 1, r.error)];
          errors := errors + [LineError(i + 1, r.error)];
        }
      } else {
        assert outs[i] == NoCode;
        assert Words(outs, i + 1) == Words(outs, i) && Errors(outs, i + 1) == Errors(outs, i);
      }
    }
    result := AssemblyResult(errors == [], program, errors);
  }

  /** Every word of the program is one that some line assembled to, so a 16-bit instruction the assembler can produce. */
  lemma {:induction false} WordsAreInstructions(outs: seq<LineOutcome>, n: nat)
    requires n <= |outs|
    requires forall j :: 0 <= j < |outs| && outs[j].Assembled? ==> outs[j].word < 65536 && Canonical(Decode(outs[j].word))
    ensures forall k :: 0 <= k < |Words(outs, n)| ==>
      Words(outs, n)[k] < 65536 && Canonical(Decode(Words(outs, n)[k]))
  {
    if n > 0 {
      WordsAreInstructions(outs, n - 1);
    }
  }

  /**
   * Words keep line order: the word of an assembled line `j` sits at the
   * index given by the number of words the lines before it produced.
   */
  lemma {:induction false} WordsInOrder(outs: seq<LineOutcome>, n: nat, j: nat)
    requires j < n <= |outs| && outs[j].Assembled?
    ensures |Words(outs, j)| < |Words(outs, n)| && Words(outs, n)[|Words(outs, j)|] == outs[j].word
  {
    if j < n - 1 {
      WordsInOrder(outs, n - 1, j);
    }
  }

  /** Each error names a line whose outcome is that failure. */
  lemma {:induction false} ErrorsAreFailures(outs: seq<LineOutcome>, n: nat)
    requires n <= |outs|
    ensures forall k :: 0 <= k < |Errors(outs, n)| ==>
      1 <= Errors(outs, n)[k].line <= n && outs[Errors(outs, n)[k].line - 1] == Failed(Errors(outs, n)[k].error)
  {
    if n > 0 {
      ErrorsAreFailures(outs, n - 1);
    }
  }

  /** Errors are listed in strictly increasing line order, at most one per line. */
  lemma {:induction false} ErrorsOrdered(outs: seq<LineOutcome>, n: nat)
    requires n <= |outs|
    ensures forall j, k :: 0 <= j < k < |Errors(outs, n)| ==> Errors(outs, n)[j].line < Errors(outs, n)[k].line
  {
    if n > 0 {
      ErrorsOrdered(outs, n - 1);
      ErrorsAreFailures(outs, n - 1);
    }
  }

  /** Every failing line is reported, under its own number. */
  lemma {:induction false} ErrorsComplete(outs: seq<LineOutcome>, n: nat, k: nat)
    requires k < n <= |outs|
    requires outs[k].Failed?
    ensures LineError(k + 1, outs[k].error) in Errors(outs, n)
  {
    if k < n - 1 {
      ErrorsComplete(outs, n - 1, k);
    } else {
      assert Errors(outs, n)[|Errors(outs, n)| - 1] == LineError(k + 1, outs[k].error);
    }
  }

  /** How many of the first `n` lines hold code. */
  function CodeLines(outs: seq<LineOutcome>, n: nat): nat
    requires n <= |outs|
  {
    if n == 0 then 0 else CodeLines(outs, n - 1) + (if outs[n - 1].NoCode? then 0 else 1)
  }

  /** Every line with code yields exactly one word or one error; blank and comment lines yield neither. */
  lemma {:induction false} EveryCodeLineCounted(outs: seq<LineOutcome>, n: nat)
    requires n <= |outs|
    ensures |Words(outs, n)| + |Errors(outs, n)| == CodeLines(outs, n)
  {
    if n > 0 {
      EveryCodeLineCounted(outs, n - 1);
    }
  }

  /** Assembly succeeds exactly when no line fails, and then every line with code gives a word. */
  lemma {:induction false} SuccessExactly(outs: seq<LineOutcome>, n: nat)
    requires n <= |outs|
    ensures Errors(outs, n) == [] <==> forall k :: 0 <= k < n ==> !outs[k].Failed?
    ensures Errors(outs, n) == [] ==> |Words(outs, n)| == CodeLines(outs, n)
  {
    EveryCodeLineCounted(outs, n);
    if n > 0 {
      SuccessExactly(outs, n - 1);
    }
  }

  /** Lines that all assemble give exactly their words, in order, and no errors. */
  lemma {:induction false} AllAssembled(outs: seq<LineOutcome>, ws: seq<nat>, n: nat)
    requires n <= |outs| == |ws|
    requires forall k :: 0 <= k < |outs| ==> outs[k] == Assembled(ws[k])
    ensures Words(outs, n) == ws[..n]
    ensures Errors(outs, n) == []
  {
    if n > 0 {
      AllAssembled(outs, ws, n - 1);
      assert ws[..n] == ws[..n - 1] + [ws[n - 1]];
    }
  }

  /** The canonical text of an instruction is a line of code that assembles to its word. */
  lemma DisassembledOutcome(f: Fields)
    requires Canonical(f)
    ensures Outcome(Disassemble(f)) == Assembled(Encode(f))
  {
    var t := Disassemble(f);
    DisassembleIsCode(f);
    CleanLineIsCode(t);
    CodePartCut(t);
    StripUnpadded(t);
    AssembleDisassembled(f);
  }

  /** The canonical text of each instruction of `fs`. */
  function Texts(fs: seq<Fields>): (ts: seq<string>)
    requires forall i :: 0 <= i < |fs| ==> Canonical(fs[i])
    ensures |ts| == |fs| && forall i :: 0 <= i < |fs| ==> ts[i] == Disassemble(fs[i])
  {
    seq(|fs|, i requires 0 <= i < |fs| => Disassemble(fs[i]))
  }

  /** The word of each instruction of `fs`. */
  function Encodings(fs: seq<Fields>): (ws: seq<nat>)
    requires forall i :: 0 <= i < |fs| ==> Canonical(fs[i])
    ensures |ws| == |fs| && forall i :: 0 <= i < |fs| ==> Canonical(fs[i]) && ws[i] == Encode(fs[i])
  {
    seq(|fs|, i requires 0 <= i < |fs| => assert Canonical(fs[i]); Encode(fs[i]))
  }

  /** The program text listing `fs` one instruction per line, in canonical form. */
  function Listing(fs: seq<Fields>): string
    requires forall i :: 0 <= i < |fs| ==> Canonical(fs[i])
  {
    JoinWith(Texts(fs), '\n')
  }

  /** Assembling the listing of any instructions the assembler can produce gives back exactly their words. */
  lemma AssembleListing(fs: seq<Fields>)
    requires forall i :: 0 <= i < |fs| ==> Canonical(fs[i])
    ensures var outs := Outcomes(SplitOn(Listing(fs), '\n'));
      Words(outs, |outs|) == Encodings(fs) && Errors(outs, |outs|) == []
  {
    if fs == [] {
      EmptyListing();
    } else {
      ListingLines(fs);
      ListedTexts(fs);
    }
  }

  lemma ListedTexts(fs: seq<Fields>)
    requires forall i :: 0 <= i < |fs| ==> Canonical(fs[i])
    ensures var outs := Outcomes(Texts(fs));
      Words(outs, |outs|) == Encodings(fs) && Errors(outs, |outs|) == []
  {
    var outs := Outcomes(Texts(fs));
    var ws := Encodings(fs);
    assert |outs| == |ws|;
    assert forall k :: 0 <= k < |outs| ==> outs[k] == Assembled(ws[k]) by {
      TextsAssemble(fs);
    }
    AllAssembled(outs, ws, |outs|);
    assert ws[..|outs|] == ws;
  }

  lemma EmptyListing()
    ensures var outs := Outcomes(SplitOn(Listing([]), '\n'));
      Words(outs, |outs|) == [] && Errors(outs, |outs|) == []
  {
    assert Listing([]) == [];
    assert SplitOn([], '\n') == [[]];
    assert Outcome([]) == NoCode;
  }

  lemma ListingLines(fs: seq<Fields>)
    requires |fs| >= 1 && forall i :: 0 <= i < |fs| ==> Canonical(fs[i])
    ensures SplitOn(Listing(fs), '\n') == Texts(fs)
  {
    var texts := Texts(fs);
    forall i | 0 <= i < |texts| ensures '\n' !in texts[i] {
      DisassembleIsCode(fs[i]);
    }
    SplitOnJoin(texts, '\n');
  }

  lemma TextsAssemble(fs: seq<Fields>)
    requires forall i :: 0 <= i < |fs| ==> Canonical(fs[i])
    ensures forall i :: 0 <= i < |fs| ==> Outcomes(Texts(fs))[i] == Assembled(Encodings(fs)[i])
  {
    forall i | 0 <= i < |fs| ensures Outcomes(Texts(fs))[i] == Assembled(Encodings(fs)[i]) {
      DisassembledOutcome(fs[i]);
    }
  }
}

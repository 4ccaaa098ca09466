/**
 * The handful of Python string operations the assembler uses, on `seq<char>`:
 * `str.upper()`/`str.lower()` (ASCII letters only), `str.strip()`,
 * `str.split()` (runs of whitespace), `str.split(sep)` / `sep.join(...)`
 * for a one-character separator, `str.replace(a, b)` and `str.index(c)`.
 */
module Text {

  /** The ASCII characters Python's `str.isspace()` accepts: TAB, LF, VT, FF, CR, the
      four information separators 0x1C-0x1F, and SPACE. */
  predicate IsSpace(c: char) {
    var k := c as int;
    9 <= k <= 13 || 28 <= k <= 32
  }

  function UpperChar(c: char): char {
    if 'a' <= c <= 'z' then (c as int - 32) as char else c
  }

  function LowerChar(c: char): char {
    if 'A' <= c <= 'Z' then (c as int + 32) as char else c
  }

  /** `s.upper()` */
  function Upper(s: string): string {
    seq(|s|, i requires 0 <= i < |s| => UpperChar(s[i]))
  }

  /** `s.lower()` */
  function Lower(s: string): string {
    seq(|s|, i requires 0 <= i < |s| => LowerChar(s[i]))
  }

  /** `s.startswith(p)` */
  predicate HasPrefix(s: string, p: string) {
    |p| <= |s| && s[..|p|] == p
  }

  /** `s.replace(a, b)` for one-character `a` and `b` */
  function ReplaceChar(s: string, a: char, b: char): string {
    seq(|s|, i requires 0 <= i < |s| => if s[i] == a then b else s[i])
  }

  /** `s.replace(c, '')`: every occurrence of `c` removed, the rest kept in order */
  function RemoveChar(s: string, c: char): (r: string)
    ensures c !in r && |r| <= |s|
  {
    if s == [] then [] else (if s[0] == c then [] else [s[0]]) + RemoveChar(s[1..], c)
  }

  /** Exactly the occurrences of `c` are removed: every other character keeps its count. */
  lemma {:induction false} RemoveCharKeeps(s: string, c: char)
    ensures multiset(RemoveChar(s, c)) == multiset(s)[c := 0]
  {
    if s != [] {
      assert s == [s[0]] + s[1..];
      RemoveCharKeeps(s[1..], c);
    }
  }

  /** Removing a character from a text without it changes nothing. */
  lemma {:induction false} RemoveCharAbsent(s: string, c: char)
    requires c !in s
    ensures RemoveChar(s, c) == s
  {
    if s != [] {
      RemoveCharAbsent(s[1..], c);
    }
  }

  /** Removal works piecewise, so what is kept stays in its order. */
  lemma {:induction false} RemoveCharConcat(a: string, b: string, c: char)
    ensures RemoveChar(a + b, c) == RemoveChar(a, c) + RemoveChar(b, c)
  {
    if a == [] {
      assert a + b == b;
    } else {
      assert (a + b)[0] == a[0];
      assert (a + b)[1..] == a[1..] + b;
      RemoveCharConcat(a[1..], b, c);
    }
  }

  /** `s.index(c)`: the position of the first `c` */
  function FirstIndex(s: string, c: char): (r: nat)
    requires c in s
    ensures r < |s| && s[r] == c && c !in s[..r]
  {
    if s[0] == c then 0 else 1 + FirstIndex(s[1..], c)
  }

  /** `s.lstrip()`: the longest suffix of `s` that does not start with whitespace */
  function TrimLeft(s: string): (r: string)
    ensures |r| <= |s| && r == s[|s| - |r|..]
    ensures r == [] || !IsSpace(r[0])
    ensures forall k :: 0 <= k < |s| - |r| ==> IsSpace(s[k])
  {
    if |s| > 0 && IsSpace(s[0]) then TrimLeft(s[1..]) else s
  }

  /** `s.rstrip()`: the longest prefix of `s` that does not end with whitespace */
  function TrimRight(s: string): (r: string)
    ensures |r| <= |s| && r == s[..|r|]
    ensures r == [] || !IsSpace(r[|r| - 1])
    ensures forall k :: |r| <= k < |s| ==> IsSpace(s[k])
  {
    if |s| > 0 && IsSpace(s[|s| - 1]) then TrimRight(s[..|s| - 1]) else s
  }

  /** `s.strip()` */
  function Strip(s: string): string {
    TrimRight(TrimLeft(s))
  }

  /** A string with no whitespace at either end is its own strip. */
  lemma StripUnpadded(s: string)
    requires s == [] || (!IsSpace(s[0]) && !IsSpace(s[|s| - 1]))
    ensures Strip(s) == s
  {
  }

  /** Leading whitespace does not change what `lstrip` leaves. */
  lemma {:induction false} TrimLeftSkipsSpaces(z: string, x: string)
    requires forall k :: 0 <= k < |z| ==> IsSpace(z[k])
    ensures TrimLeft(z + x) == TrimLeft(x)
  {
    if z != [] {
      assert (z + x)[0] == z[0];
      assert (z + x)[1..] == z[1..] + x;
      TrimLeftSkipsSpaces(z[1..], x);
    } else {
      assert z + x == x;
    }
  }

  /** Trailing whitespace does not change what `rstrip` leaves. */
  lemma {:induction false} TrimRightSkipsSpaces(x: string, z: string)
    requires forall k :: 0 <= k < |z| ==> IsSpace(z[k])
    ensures TrimRight(x + z) == TrimRight(x)
  {
    if z != [] {
      assert (x + z)[|x + z| - 1] == z[|z| - 1];
      assert (x + z)[..|x + z| - 1] == x + z[..|z| - 1];
      TrimRightSkipsSpaces(x, z[..|z| - 1]);
    } else {
      assert x + z == x;
    }
  }

  /** A token of `str.split()`: non-empty and free of whitespace. */
  predicate IsWord(w: string) {
    w != [] && forall k :: 0 <= k < |w| ==> !IsSpace(w[k])
  }

  /** The length of the whitespace-free prefix of `s`. */
  function WordEnd(s: string): (n: nat)
    ensures n <= |s|
    ensures forall k :: 0 <= k < n ==> !IsSpace(s[k])
    ensures n < |s| ==> IsSpace(s[n])
  {
    if |s| == 0 || IsSpace(s[0]) then 0 else 1 + WordEnd(s[1..])
  }

  /** `s.split()` with no separator: the maximal runs of non-whitespace, in order. */
  function Split(s: string): (r: seq<string>)
    ensures forall i :: 0 <= i < |r| ==> IsWord(r[i])
    decreases |s|
  {
    var t := TrimLeft(s);
    if t == [] then []
    else
      WordPrefix(t);
      var n := WordEnd(t);
      var ws := Split(t[n..]);
      AllWords(t[..n], ws);
      [t[..n]] + ws
  }

  /** A character absent from a text is absent from its prefixes and suffixes. */
  lemma NotInSlice(s: string, p: nat, c: char)
    requires p <= |s| && c !in s
    ensures c !in s[p..] && c !in s[..p]
  {
    forall k | 0 <= k < |s[p..]| ensures s[p..][k] != c {
      assert s[p..][k] == s[p + k];
    }
    forall k | 0 <= k < p ensures s[..p][k] != c {
      assert s[..p][k] == s[k];
    }
  }

  /** A character that is not in the text is in none of its `split()` tokens. */
  lemma {:induction false} SplitAvoids(s: string, c: char)
    requires c !in s
    ensures forall i :: 0 <= i < |Split(s)| ==> c !in Split(s)[i]
    decreases |s|
  {
    var t := TrimLeft(s);
    if t != [] {
      WordPrefix(t);
      var n := WordEnd(t);
      NotInSlice(s, |s| - |t|, c);
      NotInSlice(t, n, c);
      SplitAvoids(t[n..], c);
      forall i | 0 <= i < |Split(s)| ensures c !in Split(s)[i] {
        if i > 0 {
          assert Split(s)[i] == Split(t[n..])[i - 1];
        }
      }
    }
  }

  lemma AllWords(w: string, ws: seq<string>)
    requires IsWord(w) && forall i :: 0 <= i < |ws| ==> IsWord(ws[i])
    ensures forall i :: 0 <= i < |[w] + ws| ==> IsWord(([w] + ws)[i])
  {
    forall i | 0 <= i < |[w] + ws| ensures IsWord(([w] + ws)[i]) {
      if i > 0 { assert ([w] + ws)[i] == ws[i - 1]; }
    }
  }

  /** A string that starts with a non-blank begins with a word. */
  lemma WordPrefix(t: string)
    requires t != [] && !IsSpace(t[0])
    ensures IsWord(t[..WordEnd(t)]) && |t[WordEnd(t)..]| < |t|
  {
    var n := WordEnd(t);
    assert n > 0;
    forall k | 0 <= k < n ensures !IsSpace(t[..n][k]) {
      assert t[..n][k] == t[k];
    }
  }

  /** `str.split()` finds no token exactly when the string is all whitespace. */
  lemma SplitEmpty(s: string)
    ensures Split(s) == [] <==> forall k :: 0 <= k < |s| ==> IsSpace(s[k])
  {
    var t := TrimLeft(s);
    if t != [] {
      assert s[|s| - |t|] == t[0];
    }
  }

  /** `sep.join(ps)` for a one-character separator. */
  function JoinWith(ps: seq<string>, c: char): string {
    if |ps| == 0 then []
    else if |ps| == 1 then ps[0]
    else ps[0] + [c] + JoinWith(ps[1..], c)
  }

  /** Joining never introduces a character other than the separator. */
  lemma {:induction false} JoinWithout(ps: seq<string>, sep: char, c: char)
    requires c != sep
    requires forall i :: 0 <= i < |ps| ==> c !in ps[i]
    ensures c !in JoinWith(ps, sep)
  {
    if |ps| > 1 {
      JoinWithout(ps[1..], sep, c);
      var rest := JoinWith(ps[1..], sep);
      var s := ps[0] + [sep] + rest;
      forall k | 0 <= k < |s| ensures s[k] != c {
        if k < |ps[0]| { assert s[k] == ps[0][k]; }
        else if k > |ps[0]| { assert s[k] == rest[k - |ps[0]| - 1]; }
      }
    }
  }

  /** A join begins with the first piece and ends with the last. */
  lemma JoinEnds(ps: seq<string>, sep: char)
    requires |ps| >= 1 && ps[0] != [] && ps[|ps| - 1] != []
    ensures var j := JoinWith(ps, sep);
      j != [] && j[0] == ps[0][0] && j[|j| - 1] == ps[|ps| - 1][|ps[|ps| - 1]| - 1]
  {
    JoinLast(ps, sep);
  }

  lemma {:induction false} JoinLast(ps: seq<string>, sep: char)
    requires |ps| >= 1 && ps[|ps| - 1] != []
    ensures var j := JoinWith(ps, sep);
      j != [] && j[|j| - 1] == ps[|ps| - 1][|ps[|ps| - 1]| - 1]
  {
    if |ps| > 1 {
      var tail := ps[1..];
      assert tail[|tail| - 1] == ps[|ps| - 1];
      JoinLast(tail, sep);
    }
  }

  /** Splitting on whitespace undoes joining whitespace-free tokens with a space. */
  lemma {:induction false} SplitJoin(ws: seq<string>, c: char)
    requires IsSpace(c)
    requires forall i :: 0 <= i < |ws| ==> IsWord(ws[i])
    ensures Split(JoinWith(ws, c)) == ws
  {
    if |ws| == 1 {
      SplitLastWord(ws[0]);
    } else if |ws| > 1 {
      var tail := ws[1..];
      assert forall i :: 0 <= i < |tail| ==> IsWord(tail[i]) by {
        forall i | 0 <= i < |tail| ensures IsWord(tail[i]) {
          assert tail[i] == ws[i + 1];
        }
      }
      var rest := JoinWith(tail, c);
      calc {
        Split(JoinWith(ws, c));
        Split(ws[0] + [c] + rest);
        { SplitWordThen(ws[0], c, rest); }
        [ws[0]] + Split(rest);
        { SplitJoin(tail, c); }
        [ws[0]] + tail;
        ws;
      }
    }
  }

  lemma SplitLastWord(w: string)
    requires IsWord(w)
    ensures Split(w) == [w]
  {
    assert TrimLeft(w) == w;
    WordEndOfWord(w, []);
    assert w + [] == w;
    var n := WordEnd(w);
    assert n == |w|;
    assert w[..n] == w;
    assert w[n..] == [];
    assert Split([]) == [];
    assert Split(w) == [w[..n]] + Split(w[n..]);
  }

  lemma SplitWordThen(w: string, c: char, rest: string)
    requires IsWord(w) && IsSpace(c)
    ensures Split(w + [c] + rest) == [w] + Split(rest)
  {
    var s := w + [c] + rest;
    assert s == w + ([c] + rest);
    assert TrimLeft(s) == s;
    WordEndOfWord(w, [c] + rest);
    assert s[..|w|] == w;
    assert s[|w|..] == [c] + rest;
    TrimLeftSkipsSpaces([c], rest);
    assert Split([c] + rest) == Split(rest);
  }

  lemma {:induction false} WordEndOfWord(w: string, rest: string)
    requires IsWord(w)
    requires rest == [] || IsSpace(rest[0])
    ensures WordEnd(w + rest) == |w|
  {
    var s := w + rest;
    assert s[0] == w[0];
    if |w| > 1 {
      assert s[1..] == w[1..] + rest;
      WordEndOfWord(w[1..], rest);
    } else {
      assert s[1..] == rest;
    }
  }

  /** `s.split(c)`: the pieces between occurrences of `c`, empty pieces included. */
  function SplitOn(s: string, c: char): (r: seq<string>)
    ensures |r| >= 1
    ensures forall i :: 0 <= i < |r| ==> c !in r[i]
    decreases |s|
  {
    if c in s then
      var i := FirstIndex(s, c);
      [s[..i]] + SplitOn(s[i + 1..], c)
    else [s]
  }

  /** Joining the pieces of a split with the separator gives the string back. */
  lemma {:induction false} JoinSplitOn(s: string, c: char)
    ensures JoinWith(SplitOn(s, c), c) == s
    decreases |s|
  {
    if c in s {
      var i := FirstIndex(s, c);
      var head, after := s[..i], s[i + 1..];
      var tail := SplitOn(after, c);
      var ps := [head] + tail;
      assert SplitOn(s, c) == ps;
      assert ps[0] == head && ps[1..] == tail;
      calc {
        JoinWith(ps, c);
        head + [c] + JoinWith(tail, c);
        { JoinSplitOn(after, c); }
        head + [c] + after;
        { assert s == s[..i] + [c] + s[i + 1..]; }
        s;
      }
    }
  }

  lemma {:induction false} FirstIndexAfter(a: string, c: char, b: string)
    requires c !in a
    ensures c in a + [c] + b && FirstIndex(a + [c] + b, c) == |a|
  {
    var s := a + [c] + b;
    assert s[|a|] == c;
    if a != [] {
      assert s[1..] == a[1..] + [c] + b;
      FirstIndexAfter(a[1..], c, b);
    }
  }

  /** Splitting on the separator undoes joining pieces that do not contain it. */
  lemma {:induction false} SplitOnJoin(ps: seq<string>, c: char)
    requires |ps| >= 1
    requires forall i :: 0 <= i < |ps| ==> c !in ps[i]
    ensures SplitOn(JoinWith(ps, c), c) == ps
  {
    if |ps| > 1 {
      var rest := JoinWith(ps[1..], c);
      var s := ps[0] + [c] + rest;
      FirstIndexAfter(ps[0], c, rest);
      assert s[..|ps[0]|] == ps[0];
      assert s[|ps[0]| + 1..] == rest;
      SplitOnJoin(ps[1..], c);
    }
  }
}

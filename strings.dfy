/** The few operations on Python `str` values that the program relies on:
    whitespace classes, `ljust`, `rstrip`, `strip`, `join`, `split()[0]`
    and the decimal rendering `str(n)` of a natural number. */
module Strings {

  /** `str.isspace()` on one character: the characters that `str.split()`,
      `str.strip()` and `str.rstrip()` treat as whitespace. */
  predicate IsSpace(c: char) {
    c == ' ' || ('\t' <= c <= '\r') || ('\U{1c}' <= c <= '\U{1f}')
    || c == '\U{85}' || c == '\U{a0}' || c == '\U{1680}'
    || ('\U{2000}' <= c <= '\U{200a}') || c == '\U{2028}' || c == '\U{2029}'
    || c == '\U{202f}' || c == '\U{205f}' || c == '\U{3000}'
  }

  /** The whitespace bytes of `bytes.split()`: space, tab, newline, vertical
      tab, form feed and carriage return. */
  predicate IsAsciiSpace(c: char) {
    c == ' ' || ('\t' <= c <= '\r')
  }

  predicate AllSpace(s: string) {
    forall i :: 0 <= i < |s| ==> IsSpace(s[i])
  }

  /** `c * n` for a one-character string: `n` copies, none when `n <= 0`. */
  function Repeat(c: char, n: int): (r: string)
    ensures |r| == if n <= 0 then 0 else n
    ensures forall i :: 0 <= i < |r| ==> r[i] == c
    decreases n
  {
    if n <= 0 then [] else [c] + Repeat(c, n - 1)
  }

  /** `s.ljust(width)`: `s` padded on the right with spaces up to `width`;
      a string already that long is returned as it is. */
  function LJust(s: string, width: int): (r: string)
    ensures |r| == if |s| < width then width else |s|
    ensures r[..|s|] == s
    ensures forall i :: |s| <= i < |r| ==> r[i] == ' '
  {
    s + Repeat(' ', width - |s|)
  }

  /** `s.rstrip()`: the longest prefix of `s` that does not end in whitespace. */
  function RStrip(s: string): (r: string)
    ensures |r| <= |s| && r == s[..|r|]
    ensures r == [] || !IsSpace(r[|r| - 1])
    ensures AllSpace(s[|r|..])
  {
    if |s| > 0 && IsSpace(s[|s| - 1]) then
      var r := RStrip(s[..|s| - 1]);
      assert s[|r|..] == s[..|s| - 1][|r|..] + [s[|s| - 1]];
      r
    else
      s
  }

  /** `r` is the part of `s` at offset `i` with only whitespace around it. */
  predicate Trimmed(s: string, i: int, r: string) {
    && 0 <= i <= |s| - |r|
    && r == s[i..i + |r|]
    && AllSpace(s[..i])
    && AllSpace(s[i + |r|..])
  }

  /** `s.strip()`: `s` without its leading and trailing whitespace. */
  function Strip(s: string): (r: string)
    ensures |r| <= |s|
    ensures exists i :: Trimmed(s, i, r)
    ensures r == [] || (!IsSpace(r[0]) && !IsSpace(r[|r| - 1]))
    ensures r == [] <==> AllSpace(s)
    decreases |s|
  {
    if |s| > 0 && IsSpace(s[0]) then
      assert AllSpace(s) <==> AllSpace(s[1..]) by {
        assert forall i :: 1 <= i < |s| ==> s[i] == s[1..][i - 1];
      }
      var r := Strip(s[1..]);
      TrimmedFront(s, r);
      r
    else if |s| > 0 && IsSpace(s[|s| - 1]) then
      assert AllSpace(s) <==> AllSpace(s[..|s| - 1]) by {
        assert forall i :: 0 <= i < |s| - 1 ==> s[i] == s[..|s| - 1][i];
      }
      var r := Strip(s[..|s| - 1]);
      TrimmedBack(s, s[..|s| - 1], r);
      r
    else
      assert Trimmed(s, 0, s) by { assert s[0..|s|] == s; }
      s
  }

  /** A leading whitespace character widens the margin in front. */
  lemma TrimmedFront(s: string, r: string)
    requires |s| > 0 && IsSpace(s[0])
    requires exists i :: Trimmed(s[1..], i, r)
    ensures exists i :: Trimmed(s, i, r)
  {
    var i :| Trimmed(s[1..], i, r);
    assert s[1..][i..i + |r|] == s[i + 1..i + 1 + |r|];
    assert s[..i + 1] == [s[0]] + s[1..][..i];
    assert s[i + 1 + |r|..] == s[1..][i + |r|..];
    assert Trimmed(s, i + 1, r);
  }

  /** A trailing whitespace character widens the margin behind. */
  lemma TrimmedBack(s: string, t: string, r: string)
    requires |s| > 0 && IsSpace(s[|s| - 1]) && t == s[..|s| - 1]
    requires exists i :: Trimmed(t, i, r)
    ensures exists i :: Trimmed(s, i, r)
  {
    var i :| Trimmed(t, i, r);
    assert t[i..i + |r|] == s[i..i + |r|];
    assert t[..i] == s[..i];
    assert s[i + |r|..] == t[i + |r|..] + [s[|s| - 1]];
    assert Trimmed(s, i, r);
  }

  /** `sep.join(xs)`. */
  function Join(sep: string, xs: seq<string>): (r: string)
    ensures |xs| == 1 ==> r == xs[0]
    decreases |xs|
  {
    if |xs| == 0 then ""
    else if |xs| == 1 then xs[0]
    else xs[0] + sep + Join(sep, xs[1..])
  }

  /** `''.join(xs)`. */
  function Concat(xs: seq<string>): (r: string)
    decreases |xs|
  {
    if |xs| == 0 then "" else xs[0] + Concat(xs[1..])
  }

  /** Gluing `|xs|` pieces of length `w` gives `|xs| * w` characters. */
  lemma {:induction false} ConcatLength(xs: seq<string>, w: nat)
    requires forall i :: 0 <= i < |xs| ==> |xs[i]| == w
    ensures |Concat(xs)| == |xs| * w
    decreases |xs|
  {
    if |xs| > 0 {
      ConcatLength(xs[1..], w);
      assert |xs| * w == (|xs| - 1) * w + w;
    }
  }

  /** Gluing pieces that all have length `w`: piece `j` occupies offsets
      `j*w .. (j+1)*w` of the result. */
  lemma {:induction false} ConcatUniform(xs: seq<string>, w: nat, j: nat)
    requires forall i :: 0 <= i < |xs| ==> |xs[i]| == w
    requires j < |xs|
    ensures |Concat(xs)| == |xs| * w
    ensures j * w + w <= |Concat(xs)|
    ensures Concat(xs)[j * w .. j * w + w] == xs[j]
    decreases |xs|
  {
    ConcatLength(xs, w);
    MulMonotone(j + 1, |xs|, w);
    var rest := Concat(xs[1..]);
    assert Concat(xs) == xs[0] + rest;
    if j > 0 {
      ConcatUniform(xs[1..], w, j - 1);
      var o := (j - 1) * w;
      assert j * w == o + w;
      SliceAfter(xs[0], rest, o, o + w);
    }
  }

  lemma MulMonotone(a: nat, b: nat, w: nat)
    requires a <= b
    ensures a * w <= b * w
  {
    var d := b - a;
    assert b * w == a * w + d * w;
  }

  /** The first `m` characters of a slice are a shorter slice. */
  lemma SlicePrefix(u: string, o: nat, w: nat, m: nat)
    requires m <= w && o + w <= |u|
    ensures u[o .. o + m] == u[o .. o + w][..m]
  {
  }

  /** A slice of `a + b` past the end of `a` is a slice of `b`. */
  lemma SliceAfter(a: string, b: string, lo: nat, hi: nat)
    requires lo <= hi <= |b|
    ensures (a + b)[|a| + lo .. |a| + hi] == b[lo .. hi]
  {
  }

  predicate IsDigit(c: char) {
    '0' <= c <= '9'
  }

  /** The number a string of decimal digits spells (the inverse of `str(n)`). */
  function DecimalValue(s: string): nat
    requires forall i :: 0 <= i < |s| ==> IsDigit(s[i])
    decreases |s|
  {
    if |s| == 0 then 0
    else
      assert IsDigit(s[|s| - 1]);
      10 * DecimalValue(s[..|s| - 1]) + ((s[|s| - 1] as int) - ('0' as int)) as nat
  }

  /** `str(n)` for a natural number: its decimal digits, without a leading
      zero, which read back as `n`. */
  function NatToString(n: nat): (r: string)
    ensures |r| >= 1
    ensures forall i :: 0 <= i < |r| ==> IsDigit(r[i])
    ensures |r| > 1 ==> r[0] != '0'
    ensures DecimalValue(r) == n
    decreases n
  {
    var d := [(('0' as int) + n % 10) as char];
    if n < 10 then d
    else
      var r := NatToString(n / 10) + d;
      assert r[..|r| - 1] == NatToString(n / 10);
      r
  }

  /** The characters of `s` before its first whitespace character. */
  function TakeToken(s: string): (r: string)
    ensures |r| <= |s| && r == s[..|r|]
    ensures forall i :: 0 <= i < |r| ==> !IsAsciiSpace(r[i])
    ensures |r| == |s| || IsAsciiSpace(s[|r|])
  {
    if |s| == 0 || IsAsciiSpace(s[0]) then []
    else
      var r := [s[0]] + TakeToken(s[1..]);
      assert r == s[..|r|];
      r
  }

  /** `s` without its leading `bytes.split()` whitespace. */
  function SkipSpaces(s: string): (r: string)
    ensures |r| <= |s| && r == s[|s| - |r|..]
    ensures forall i :: 0 <= i < |s| - |r| ==> IsAsciiSpace(s[i])
    ensures r == [] || !IsAsciiSpace(r[0])
  {
    if |s| > 0 && IsAsciiSpace(s[0]) then
      var r := SkipSpaces(s[1..]);
      assert forall i :: 1 <= i < |s| - |r| ==> s[i] == s[1..][i - 1];
      r
    else
      s
  }
  /** `s.split(c)` for a one-character separator `c`. */
  function Split(s: string, c: char): (r: seq<string>)
    ensures |r| >= 1
    decreases |s|
  {
    if |s| == 0 then [""]
    else
      var rest := Split(s[1..], c);
      if s[0] == c then [""] + rest else [[s[0]] + rest[0]] + rest[1..]
  }

  /** A piece free of the separator ends up at the front of the first part. */
  lemma {:induction false} SplitPrefix(x: string, s: string, c: char)
    requires c !in x
    ensures Split(x + s, c) == [x + Split(s, c)[0]] + Split(s, c)[1..]
    decreases |x|
  {
    if |x| == 0 {
      var t := Split(s, c);
      assert x + s == s && x + t[0] == t[0];
      assert t == [t[0]] + t[1..];
    } else {
      SplitPrefix(x[1..], s, c);
      var t := Split(s, c);
      var rest := Split(x[1..] + s, c);
      assert (x + s)[0] == x[0] != c;
      assert (x + s)[1..] == x[1..] + s;
      assert rest[0] == x[1..] + t[0] && rest[1..] == t[1..];
      assert [x[0]] + (x[1..] + t[0]) == x + t[0];
    }
  }

  /** Splitting undoes joining, as long as no piece holds the separator. */
  lemma {:induction false} SplitJoin(xs: seq<string>, c: char)
    requires |xs| >= 1
    requires forall i :: 0 <= i < |xs| ==> c !in xs[i]
    ensures Split(Join([c], xs), c) == xs
    decreases |xs|
  {
    if |xs| == 1 {
      SplitPrefix(xs[0], "", c);
      assert xs[0] + "" == xs[0];
    } else {
      SplitJoin(xs[1..], c);
      var rest := Join([c], xs[1..]);
      assert Join([c], xs) == xs[0] + ([c] + rest);
      SplitPrefix(xs[0], [c] + rest, c);
      assert ([c] + rest)[1..] == rest;
      var t := Split([c] + rest, c);
      assert t == [""] + xs[1..];
      assert xs[0] + "" == xs[0];
      assert xs == [xs[0]] + xs[1..];
    }
  }

  /** Joining one more piece at the end. */
  lemma {:induction false} JoinSnoc(sep: string, xs: seq<string>, y: string)
    requires |xs| >= 1
    ensures Join(sep, xs + [y]) == Join(sep, xs) + sep + y
    decreases |xs|
  {
    if |xs| > 1 {
      JoinSnoc(sep, xs[1..], y);
      assert (xs + [y])[1..] == xs[1..] + [y];
    }
  }

  /** `'\n'.join(lines) + '\n'`: lines, each ended by a newline. */
  function Lines(lines: seq<string>): string {
    Join("\n", lines) + "\n"
  }

  /** A block of at least one newline-free line splits back into its lines
      and the empty remainder after the last newline. */
  lemma LinesSplit(lines: seq<string>)
    requires |lines| >= 1
    requires forall i :: 0 <= i < |lines| ==> '\n' !in lines[i]
    ensures Split(Lines(lines), '\n') == lines + [""]
  {
    JoinSnoc("\n", lines, "");
    assert Join("\n", lines) + "\n" + "" == Lines(lines);
    SplitJoin(lines + [""], '\n');
  }
  /** Four lines, written out. */
  lemma LinesOfFour(a: string, b: string, c: string, d: string)
    ensures Lines([a, b, c, d]) == a + "\n" + b + "\n" + c + "\n" + d + "\n"
  {
    var l4 := [a, b, c, d];
    assert l4[1..] == [b, c, d];
    assert l4[1..][1..] == [c, d];
    assert [c, d][1..] == [d];
    assert Join("\n", [c, d]) == c + "\n" + d;
    assert Join("\n", [b, c, d]) == b + "\n" + (c + "\n" + d);
  }
}

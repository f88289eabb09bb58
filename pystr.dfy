/**
  The Python `str` operations the directive parser relies on, written out
  with CPython's semantics: `str.isspace` (used by `split()`, `strip()` and
  `lstrip()` without arguments), the line boundaries of `str.splitlines()`,
  `"\n".join(...)`, `str.split()` and `str.split(None, maxsplit)`.
*/
module PyStr {

  /** A character CPython treats as whitespace (`str.isspace`). */
  predicate IsSpace(c: char) {
    var n := c as int;
    n == 0x20 || 0x09 <= n <= 0x0D || 0x1C <= n <= 0x1F || n == 0x85 || n == 0xA0
    || n == 0x1680 || 0x2000 <= n <= 0x200A || n == 0x2028 || n == 0x2029
    || n == 0x202F || n == 0x205F || n == 0x3000
  }

  /** A line boundary of `str.splitlines()` ("\r\n" counts as one, see SplitLines). */
  predicate IsLineBreak(c: char) {
    var n := c as int;
    0x0A <= n <= 0x0D || 0x1C <= n <= 0x1E || n == 0x85 || n == 0x2028 || n == 0x2029
  }

  predicate NoLineBreak(s: string) {
    forall i :: 0 <= i < |s| ==> !IsLineBreak(s[i])
  }

  predicate NoSpace(s: string) {
    forall i :: 0 <= i < |s| ==> !IsSpace(s[i])
  }

  /** `not s.strip()`: the string is empty or only whitespace. */
  predicate IsBlank(s: string) {
    forall i :: 0 <= i < |s| ==> IsSpace(s[i])
  }

  /** `s.startswith(prefix)` */
  predicate StartsWith(s: string, prefix: string) {
    |prefix| <= |s| && s[..|prefix|] == prefix
  }

  predicate IsSuffix(t: string, s: string) {
    |t| <= |s| && s[|s| - |t|..] == t
  }

  /** The first index at or after `i` that does not hold whitespace, or `|s|`. */
  function SpaceEnd(s: string, i: nat): (j: nat)
    requires i <= |s|
    ensures i <= j <= |s|
    ensures j < |s| ==> !IsSpace(s[j])
    decreases |s| - i
  {
    if i < |s| && IsSpace(s[i]) then SpaceEnd(s, i + 1) else i
  }

  /** Everything `SpaceEnd` skips is whitespace. */
  lemma {:induction false} SpaceEndBlank(s: string, i: nat)
    requires i <= |s|
    ensures IsBlank(s[i..SpaceEnd(s, i)])
    decreases |s| - i
  {
    if i < |s| && IsSpace(s[i]) {
      SpaceEndBlank(s, i + 1);
      assert s[i..SpaceEnd(s, i)] == [s[i]] + s[i + 1..SpaceEnd(s, i)];
    }
  }

  /** The first index at or after `i` that holds whitespace, or `|s|`. */
  function WordEnd(s: string, i: nat): (j: nat)
    requires i <= |s|
    ensures i <= j <= |s|
    ensures j < |s| ==> IsSpace(s[j])
    ensures i < |s| && !IsSpace(s[i]) ==> i < j
    decreases |s| - i
  {
    if i < |s| && !IsSpace(s[i]) then WordEnd(s, i + 1) else i
  }

  /** `s.lstrip()`: drops the leading whitespace and nothing else. */
  function LStrip(s: string): (r: string)
    ensures r == [] || !IsSpace(r[0])
  {
    s[SpaceEnd(s, 0)..]
  }

  /** What `s.lstrip()` removes is a whitespace-only prefix. */
  lemma LStripParts(s: string)
    ensures IsSuffix(LStrip(s), s) && IsBlank(s[..|s| - |LStrip(s)|])
  {
    SpaceEndBlank(s, 0);
  }

  /** A suffix of `s` after a blank prefix that does not itself start with
      whitespace is `s.lstrip()`. */
  lemma LStripCanonical(s: string, t: string)
    requires IsSuffix(t, s) && IsBlank(s[..|s| - |t|]) && (t == [] || !IsSpace(t[0]))
    ensures t == LStrip(s)
  {
    var r := LStrip(s);
    LStripParts(s);
    LeadingBlank(s, t);
    LeadingBlank(s, r);
  }

  /** The characters before a suffix with a blank prefix are whitespace,
      and the suffix's first character is at `|s| - |t|`. */
  lemma LeadingBlank(s: string, t: string)
    requires IsSuffix(t, s) && IsBlank(s[..|s| - |t|])
    ensures forall j :: 0 <= j < |s| - |t| ==> IsSpace(s[j])
    ensures t != [] ==> s[|s| - |t|] == t[0]
  {
    forall j | 0 <= j < |s| - |t|
      ensures IsSpace(s[j])
    {
      assert s[j] == s[..|s| - |t|][j];
    }
  }

  /** `s[i:].split()`: the maximal runs of non-whitespace from index `i` on, in order. */
  function SplitFrom(s: string, i: nat): seq<string>
    requires i <= |s|
    decreases |s| - i
  {
    var a := SpaceEnd(s, i);
    if a == |s| then []
    else
      var b := WordEnd(s, a);
      [s[a..b]] + SplitFrom(s, b)
  }

  /** `toks` are the words of `s`: `s` is whitespace, then the first token,
      then whitespace or nothing, and so on, ending in whitespace. With every
      token non-empty and free of whitespace, these are the maximal runs of
      non-whitespace of `s`, in order. */
  ghost predicate WordsOf(s: string, toks: seq<string>)
    decreases |toks|
  {
    if toks == [] then IsBlank(s)
    else exists pre, rest :: s == pre + toks[0] + rest && IsBlank(pre)
                             && (rest == [] || IsSpace(rest[0])) && WordsOf(rest, toks[1..])
  }

  /** `s.split()` */
  function Split(s: string): (r: seq<string>)
    ensures forall k :: 0 <= k < |r| ==> r[k] != [] && NoSpace(r[k])
  {
    SplitFromTokens(s, 0);
    SplitFrom(s, 0)
  }

  /** `s.split()` returns exactly the words of `s`. */
  lemma SplitWords(s: string)
    ensures WordsOf(s, Split(s))
  {
    SplitFromWords(s, 0);
    assert s[0..] == s;
  }

  /** Any list of non-empty, whitespace-free words of `s` is `s.split()`. */
  lemma SplitCanonical(s: string, toks: seq<string>)
    requires WordsOf(s, toks) && Tokens(toks)
    ensures toks == Split(s)
  {
    SplitWords(s);
    WordsUnique(s, toks, Split(s));
  }

  /** Tokens that are non-empty and free of whitespace. */
  predicate Tokens(toks: seq<string>) {
    forall k :: 0 <= k < |toks| ==> toks[k] != [] && NoSpace(toks[k])
  }

  /** A string has one list of words, so `Split` is the only function with
      its two contracts. */
  lemma {:induction false} WordsUnique(s: string, a: seq<string>, b: seq<string>)
    requires WordsOf(s, a) && WordsOf(s, b) && Tokens(a) && Tokens(b)
    ensures a == b
    decreases |a|
  {
    if a == [] || b == [] {
      if a != [] {
        WordsNotBlank(s, a);
      } else if b != [] {
        WordsNotBlank(s, b);
      }
    } else {
      var p1, r1 := FirstWord(s, a);
      var p2, r2 := FirstWord(s, b);
      SameFirstWord(s, p1, a[0], r1, p2, b[0], r2);
      WordsUnique(r1, a[1..], b[1..]);
      assert a == [a[0]] + a[1..];
      assert b == [b[0]] + b[1..];
    }
  }

  /** Two ways of reading a first word off the same string agree. */
  lemma SameFirstWord(s: string, p1: string, w1: string, r1: string, p2: string, w2: string, r2: string)
    requires s == p1 + w1 + r1 && IsBlank(p1) && w1 != [] && NoSpace(w1) && (r1 == [] || IsSpace(r1[0]))
    requires s == p2 + w2 + r2 && IsBlank(p2) && w2 != [] && NoSpace(w2) && (r2 == [] || IsSpace(r2[0]))
    ensures w1 == w2 && r1 == r2
  {
    WordStart(s, p1, w1, r1, p2, w2, r2);
    WordStart(s, p2, w2, r2, p1, w1, r1);
    WordFinish(s, p1, w1, r1, w2, r2);
    WordFinish(s, p1, w2, r2, w1, r1);
    assert w1 == s[|p1|..|p1| + |w1|] == w2;
    assert r1 == s[|p1| + |w1|..] == r2;
  }

  /** The blank text before the first word, and the text after it. */
  lemma FirstWord(s: string, toks: seq<string>) returns (pre: string, rest: string)
    requires WordsOf(s, toks) && toks != []
    ensures s == pre + toks[0] + rest && IsBlank(pre)
    ensures (rest == [] || IsSpace(rest[0])) && WordsOf(rest, toks[1..])
  {
    pre, rest :| s == pre + toks[0] + rest && IsBlank(pre)
                 && (rest == [] || IsSpace(rest[0])) && WordsOf(rest, toks[1..]);
  }

  lemma WordsNotBlank(s: string, toks: seq<string>)
    requires WordsOf(s, toks) && toks != [] && Tokens(toks)
    ensures !IsBlank(s)
  {
    var pre, rest := FirstWord(s, toks);
    assert s[|pre|] == toks[0][0];
  }

  /** Two words in the same string, each after blank text, start together. */
  lemma WordStart(s: string, p1: string, w1: string, r1: string, p2: string, w2: string, r2: string)
    requires s == p1 + w1 + r1 && s == p2 + w2 + r2
    requires IsBlank(p2) && w1 != [] && NoSpace(w1)
    ensures |p1| >= |p2|
  {
    assert !IsSpace(s[|p1|]) by {
      assert s[|p1|] == w1[0];
    }
    forall j | 0 <= j < |p2|
      ensures IsSpace(s[j])
    {
      assert s[j] == p2[j];
    }
  }

  /** ... and, each followed by whitespace or the end, they end together. */
  lemma WordFinish(s: string, p: string, w1: string, r1: string, w2: string, r2: string)
    requires s == p + w1 + r1 && s == p + w2 + r2
    requires r1 == [] || IsSpace(r1[0])
    requires NoSpace(w2)
    ensures |w1| >= |w2|
  {
    var e := |p| + |w1|;
    if e < |s| {
      assert IsSpace(s[e]) by {
        assert s[e] == r1[0];
      }
    }
    forall j | |p| <= j < |p| + |w2|
      ensures !IsSpace(s[j])
    {
      assert s[j] == w2[j - |p|];
    }
  }

  lemma {:induction false} SplitFromWords(s: string, i: nat)
    requires i <= |s|
    ensures WordsOf(s[i..], SplitFrom(s, i))
    decreases |s| - i
  {
    var a := SpaceEnd(s, i);
    SpaceEndBlank(s, i);
    if a < |s| {
      var b := WordEnd(s, a);
      SplitFromWords(s, b);
      var toks := SplitFrom(s, i);
      assert toks[0] == s[a..b] && toks[1..] == SplitFrom(s, b);
      assert s[i..] == s[i..a] + toks[0] + s[b..];
      assert s[b..] == [] || IsSpace(s[b..][0]);
    } else {
      assert s[i..] == s[i..a];
    }
  }

  /** `s[i:].split(None, maxsplit)` for `maxsplit >= 0`, as CPython scans it:
      at most `maxsplit` tokens are cut off, then the rest of the string from
      the start of the next token, trailing whitespace included, is the last
      element. */
  function SplitUpToFrom(s: string, i: nat, maxsplit: nat): seq<string>
    requires i <= |s|
    decreases |s| - i
  {
    var a := SpaceEnd(s, i);
    if a == |s| then []
    else if maxsplit == 0 then [s[a..]]
    else
      var b := WordEnd(s, a);
      [s[a..b]] + SplitUpToFrom(s, b, maxsplit - 1)
  }

  /** `s.split(None, maxsplit)`; a negative `maxsplit` means no limit. */
  function SplitMax(s: string, maxsplit: int): (r: seq<string>)
    ensures maxsplit < 0 || |Split(s)| <= maxsplit ==> r == Split(s)
    ensures 0 <= maxsplit < |Split(s)| ==> |r| == maxsplit + 1 && r[..maxsplit] == Split(s)[..maxsplit]
  {
    if maxsplit < 0 then Split(s)
    else
      SplitUpToLimit(s, maxsplit);
      SplitUpToFrom(s, 0, maxsplit)
  }

  /** `s.split(None, maxsplit)` against `s.split()`, for a non-negative limit. */
  lemma SplitUpToLimit(s: string, maxsplit: nat)
    ensures var r := SplitUpToFrom(s, 0, maxsplit);
            (|Split(s)| <= maxsplit ==> r == Split(s))
            && (maxsplit < |Split(s)| ==> |r| == maxsplit + 1 && r[..maxsplit] == Split(s)[..maxsplit])
  {
    if |Split(s)| <= maxsplit {
      SplitUpToAll(s, 0, maxsplit);
    } else {
      SplitUpToShape(s, 0, maxsplit);
    }
  }

  /** With no more than `maxsplit` tokens the limit is never reached, and
      `s[i:].split(None, maxsplit)` is `s[i:].split()`. */
  lemma {:induction false} SplitUpToAll(s: string, i: nat, maxsplit: nat)
    requires i <= |s| && |SplitFrom(s, i)| <= maxsplit
    ensures SplitUpToFrom(s, i, maxsplit) == SplitFrom(s, i)
    decreases |s| - i
  {
    var a := SpaceEnd(s, i);
    if a < |s| {
      var b := WordEnd(s, a);
      assert SplitFrom(s, i) == [s[a..b]] + SplitFrom(s, b);
      SplitUpToAll(s, b, maxsplit - 1);
    }
  }

  /** The index just after the first `m` tokens from `i` on (`|s|` when there are fewer). */
  function TokensEnd(s: string, i: nat, m: nat): (j: nat)
    requires i <= |s|
    ensures i <= j <= |s|
    decreases m
  {
    if m == 0 then i
    else
      var a := SpaceEnd(s, i);
      if a == |s| then |s| else TokensEnd(s, WordEnd(s, a), m - 1)
  }

  /** Every token is non-empty and holds no whitespace. */
  lemma {:induction false} SplitFromTokens(s: string, i: nat)
    requires i <= |s|
    ensures forall k :: 0 <= k < |SplitFrom(s, i)| ==> SplitFrom(s, i)[k] != [] && NoSpace(SplitFrom(s, i)[k])
    decreases |s| - i
  {
    var a := SpaceEnd(s, i);
    if a < |s| {
      var b := WordEnd(s, a);
      WordEndNoSpace(s, a);
      SplitFromTokens(s, b);
      assert NoSpace(s[a..b]);
    }
  }

  lemma {:induction false} WordEndNoSpace(s: string, i: nat)
    requires i <= |s|
    ensures forall j :: i <= j < WordEnd(s, i) ==> !IsSpace(s[j])
    decreases |s| - i
  {
    if i < |s| && !IsSpace(s[i]) {
      WordEndNoSpace(s, i + 1);
    }
  }

  /** Splitting what follows the first `m` tokens gives the other tokens. */
  lemma {:induction false} SplitAfterTokens(s: string, i: nat, m: nat)
    requires i <= |s| && |SplitFrom(s, i)| >= m
    ensures SplitFrom(s, TokensEnd(s, i, m)) == SplitFrom(s, i)[m..]
    decreases m
  {
    if m > 0 {
      var a := SpaceEnd(s, i);
      var b := WordEnd(s, a);
      assert SplitFrom(s, i) == [s[a..b]] + SplitFrom(s, b);
      SplitAfterTokens(s, b, m - 1);
    }
  }

  /** With more than `maxsplit` tokens, `s[i:].split(None, maxsplit)` is the
      first `maxsplit` tokens followed by the rest from the next token on. */
  lemma {:induction false} SplitUpToShape(s: string, i: nat, maxsplit: nat)
    requires i <= |s| && |SplitFrom(s, i)| > maxsplit
    ensures SplitUpToFrom(s, i, maxsplit)
            == SplitFrom(s, i)[..maxsplit] + [s[SpaceEnd(s, TokensEnd(s, i, maxsplit))..]]
    decreases maxsplit
  {
    var a := SpaceEnd(s, i);
    if maxsplit > 0 {
      var b := WordEnd(s, a);
      var w := s[a..b];
      assert SplitFrom(s, i) == [w] + SplitFrom(s, b);
      SplitUpToShape(s, b, maxsplit - 1);
      assert SplitFrom(s, i)[..maxsplit] == [w] + SplitFrom(s, b)[..maxsplit - 1];
    }
  }

  /** `SplitFrom` does not see whitespace it starts on. */
  lemma SplitFromSpaceEnd(s: string, i: nat)
    requires i <= |s|
    ensures SplitFrom(s, SpaceEnd(s, i)) == SplitFrom(s, i)
  {
    var a := SpaceEnd(s, i);
    assert SpaceEnd(s, a) == a;
  }

  /** `s.split(None, maxsplit)` when there are more than `maxsplit` tokens:
      the first `maxsplit` elements are the first tokens, and the last one is
      the rest of `s` from the start of the next token, which splits into
      exactly the remaining tokens. */
  lemma SplitMaxOverflow(s: string, maxsplit: nat)
    requires |Split(s)| > maxsplit
    ensures |SplitMax(s, maxsplit)| == maxsplit + 1
    ensures SplitMax(s, maxsplit)[..maxsplit] == Split(s)[..maxsplit]
    ensures var last := SplitMax(s, maxsplit)[maxsplit];
            IsSuffix(last, s) && last != [] && !IsSpace(last[0])
            && SplitFrom(s, |s| - |last|) == Split(s)[maxsplit..]
  {
    var e := TokensEnd(s, 0, maxsplit);
    var a := SpaceEnd(s, e);
    assert SplitMax(s, maxsplit)[maxsplit] == s[a..] by {
      assert SplitMax(s, maxsplit) == SplitUpToFrom(s, 0, maxsplit);
      SplitUpToShape(s, 0, maxsplit);
    }
    assert SplitFrom(s, a) == Split(s)[maxsplit..] by {
      SplitAfterTokens(s, 0, maxsplit);
      SplitFromSpaceEnd(s, e);
    }
    assert a < |s| && !IsSpace(s[a]);
  }

  /** Index of the first line boundary in `s`, or `|s|`. */
  function BreakIndex(s: string): (i: nat)
    ensures i <= |s|
    ensures i < |s| ==> IsLineBreak(s[i])
  {
    if s == [] || IsLineBreak(s[0]) then 0 else 1 + BreakIndex(s[1..])
  }

  /** `s.splitlines()`: no element holds a line boundary, and a final
      boundary does not produce a trailing empty line. */
  function SplitLines(s: string): (lines: seq<string>)
    ensures lines == [] <==> s == []
    decreases |s|
  {
    if s == [] then []
    else
      var i := BreakIndex(s);
      if i == |s| then [s]
      else
        var next := if s[i] == '\r' && i + 1 < |s| && s[i + 1] == '\n' then i + 2 else i + 1;
        [s[..i]] + SplitLines(s[next..])
  }

  /** No element of `s.splitlines()` holds a line boundary. */
  lemma {:induction false} SplitLinesNoBreak(s: string)
    ensures forall k :: 0 <= k < |SplitLines(s)| ==> NoLineBreak(SplitLines(s)[k])
    decreases |s|
  {
    if s != [] {
      var i := BreakIndex(s);
      BreakIndexPrefix(s);
      if i < |s| {
        var next := if s[i] == '\r' && i + 1 < |s| && s[i + 1] == '\n' then i + 2 else i + 1;
        SplitLinesNoBreak(s[next..]);
      }
    }
  }

  lemma {:induction false} BreakIndexPrefix(s: string)
    ensures NoLineBreak(s[..BreakIndex(s)])
  {
    if s != [] && !IsLineBreak(s[0]) {
      BreakIndexPrefix(s[1..]);
      assert s[..BreakIndex(s)] == [s[0]] + s[1..][..BreakIndex(s[1..])];
    }
  }

  /** `"\n".join(lines)` */
  function JoinLines(lines: seq<string>): string {
    if |lines| == 0 then ""
    else if |lines| == 1 then lines[0]
    else lines[0] + "\n" + JoinLines(lines[1..])
  }

  /** `"\n".join` over a list cut in two non-empty parts. */
  lemma {:induction false} JoinLinesSplit(lines: seq<string>, i: nat)
    requires 0 < i < |lines|
    ensures JoinLines(lines) == JoinLines(lines[..i]) + "\n" + JoinLines(lines[i..])
  {
    if i > 1 {
      var tail := lines[1..];
      JoinLinesSplit(tail, i - 1);
      assert lines[..i][1..] == tail[..i - 1];
      assert lines[i..] == tail[i - 1..];
    }
  }

  lemma ConcatSlices(a: string, b: string, d: nat)
    requires d <= |a|
    ensures (a + b)[d..] == a[d..] + b && (a + b)[..|a|] == a
  {
  }

  lemma SliceOfSuffix(s: string, q: nat, n: nat)
    requires q + n <= |s|
    ensures s[q..][..n] == s[q..q + n]
  {
  }

  /** A line without boundary holds no "\n" either. */
  lemma NoLineBreakNoNewline(s: string)
    requires NoLineBreak(s)
    ensures NoNewline(s)
  {
    forall j | 0 <= j < |s| ensures s[j] != '\n' {
      assert !IsLineBreak(s[j]);
    }
  }

  /** Lines that hold no line boundary survive `"\n".join` followed by
      `splitlines()`, except that a final empty line is lost. */
  lemma {:induction false} SplitLinesOfJoin(lines: seq<string>)
    requires forall i :: 0 <= i < |lines| ==> NoLineBreak(lines[i])
    ensures SplitLines(JoinLines(lines)) == DropFinalEmpty(lines)
  {
    if |lines| == 1 {
      SplitLinesSingle(lines[0]);
    } else if |lines| > 1 {
      var x, rest := lines[0], lines[1..];
      assert forall i :: 0 <= i < |rest| ==> NoLineBreak(rest[i]) by {
        forall i | 0 <= i < |rest| ensures NoLineBreak(rest[i]) {
          assert rest[i] == lines[i + 1];
        }
      }
      calc {
        SplitLines(JoinLines(lines));
        { assert JoinLines(lines) == x + "\n" + JoinLines(rest); }
        SplitLines(x + "\n" + JoinLines(rest));
        { SplitLinesCons(x, JoinLines(rest)); }
        [x] + SplitLines(JoinLines(rest));
        { SplitLinesOfJoin(rest); }
        [x] + DropFinalEmpty(rest);
        { DropFinalEmptyCons(x, rest); assert [x] + rest == lines; }
        DropFinalEmpty(lines);
      }
    }
  }

  /** `lines` without its last element when that element is empty. */
  function DropFinalEmpty(lines: seq<string>): seq<string> {
    if lines != [] && lines[|lines| - 1] == "" then lines[..|lines| - 1] else lines
  }

  lemma DropFinalEmptyCons(x: string, rest: seq<string>)
    requires rest != []
    ensures DropFinalEmpty([x] + rest) == [x] + DropFinalEmpty(rest)
  {
    if rest[|rest| - 1] == "" {
      assert ([x] + rest)[..|rest|] == [x] + rest[..|rest| - 1];
    }
  }

  /** A single line without boundary. */
  lemma SplitLinesSingle(x: string)
    requires NoLineBreak(x)
    ensures SplitLines(x) == if x == "" then [] else [x]
  {
    NoBreakIndex(x);
  }

  /** A line without boundary, then "\n", then more text. */
  lemma SplitLinesCons(x: string, r: string)
    requires NoLineBreak(x)
    ensures SplitLines(x + "\n" + r) == [x] + SplitLines(r)
  {
    var s := x + "\n" + r;
    BreakIndexAfter(x, "\n" + r);
    assert s == x + ("\n" + r);
    assert BreakIndex(s) == |x|;
    assert s[|x|] == '\n';
    assert s[..|x|] == x;
    assert s[|x| + 1..] == r;
  }

  /** The number of lines never grows through join-then-split. */
  lemma CountLinesOfJoin(lines: seq<string>)
    requires forall i :: 0 <= i < |lines| ==> NoLineBreak(lines[i])
    ensures |SplitLines(JoinLines(lines))| <= |lines|
  {
    SplitLinesOfJoin(lines);
  }

  lemma {:induction false} NoBreakIndex(s: string)
    requires NoLineBreak(s)
    ensures BreakIndex(s) == |s|
  {
    if s != [] {
      NoBreakIndex(s[1..]);
    }
  }

  lemma {:induction false} BreakIndexAfter(x: string, r: string)
    requires NoLineBreak(x) && r != [] && IsLineBreak(r[0])
    ensures BreakIndex(x + r) == |x|
  {
    if x != [] {
      assert (x + r)[1..] == x[1..] + r;
      BreakIndexAfter(x[1..], r);
    } else {
      assert x + r == r;
    }
  }

  /** Index of the first "\n" in `s`, or `|s|`. */
  function NewlineIndex(s: string): (i: nat)
    ensures i <= |s|
    ensures i < |s| ==> s[i] == '\n'
  {
    if s == [] || s[0] == '\n' then 0 else 1 + NewlineIndex(s[1..])
  }

  predicate NoNewline(s: string) {
    forall j :: 0 <= j < |s| ==> s[j] != '\n'
  }

  /** `s.split("\n")`: the "\n"-separated segments, at least one. */
  function SplitNewlines(s: string): (parts: seq<string>)
    ensures |parts| >= 1
    decreases |s|
  {
    var i := NewlineIndex(s);
    if i == |s| then [s] else [s[..i]] + SplitNewlines(s[i + 1..])
  }

  /** No segment of `s.split("\n")` holds a "\n". */
  lemma {:induction false} SplitNewlinesNoNewline(s: string)
    ensures forall k :: 0 <= k < |SplitNewlines(s)| ==> NoNewline(SplitNewlines(s)[k])
    decreases |s|
  {
    var i := NewlineIndex(s);
    NewlineIndexPrefix(s);
    if i < |s| {
      SplitNewlinesNoNewline(s[i + 1..]);
    }
  }

  lemma {:induction false} NewlineIndexPrefix(s: string)
    ensures NoNewline(s[..NewlineIndex(s)])
  {
    if s != [] && s[0] != '\n' {
      NewlineIndexPrefix(s[1..]);
      assert s[..NewlineIndex(s)] == [s[0]] + s[1..][..NewlineIndex(s[1..])];
    }
  }

  /** Joining the segments restores the text. */
  lemma {:induction false} JoinSplitNewlines(s: string)
    ensures JoinLines(SplitNewlines(s)) == s
    decreases |s|
  {
    var i := NewlineIndex(s);
    if i < |s| {
      var x, r := s[..i], s[i + 1..];
      var rest := SplitNewlines(r);
      assert SplitNewlines(s) == [x] + rest;
      assert JoinLines(rest) == r by { JoinSplitNewlines(r); }
      assert JoinLines([x] + rest) == x + "\n" + JoinLines(rest) by { JoinLinesCons(x, rest); }
      assert s == x + "\n" + r;
    } else {
      assert SplitNewlines(s) == [s];
    }
  }

  /** `"\n".join` of a first line and at least one more. */
  lemma JoinLinesCons(x: string, rest: seq<string>)
    requires rest != []
    ensures JoinLines([x] + rest) == x + "\n" + JoinLines(rest)
  {
    assert ([x] + rest)[0] == x && ([x] + rest)[1..] == rest;
  }

  /** Splitting the joined segments gives them back. */
  lemma {:induction false} SplitJoinNewlines(parts: seq<string>)
    requires |parts| >= 1
    requires forall i :: 0 <= i < |parts| ==> NoNewline(parts[i])
    ensures SplitNewlines(JoinLines(parts)) == parts
  {
    var x := parts[0];
    if |parts| == 1 {
      NewlineIndexNone(x);
    } else {
      var rest := parts[1..];
      var r := JoinLines(rest);
      var s := JoinLines(parts);
      assert parts == [x] + rest;
      assert s == x + ("\n" + r) by { JoinLinesCons(x, rest); }
      assert NewlineIndex(s) == |x| by { NewlineIndexAfter(x, "\n" + r); }
      assert s[..|x|] == x && s[|x| + 1..] == r;
      assert SplitNewlines(r) == rest by { SplitJoinNewlines(rest); }
      assert SplitNewlines(s) == [s[..|x|]] + SplitNewlines(s[|x| + 1..]);
    }
  }

  lemma {:induction false} NewlineIndexNone(s: string)
    requires NoNewline(s)
    ensures NewlineIndex(s) == |s|
  {
    if s != [] {
      NewlineIndexNone(s[1..]);
    }
  }

  lemma {:induction false} NewlineIndexAfter(x: string, r: string)
    requires NoNewline(x) && r != [] && r[0] == '\n'
    ensures NewlineIndex(x + r) == |x|
  {
    if x != [] {
      assert (x + r)[1..] == x[1..] + r;
      NewlineIndexAfter(x[1..], r);
    } else {
      assert x + r == r;
    }
  }
}

/** `textwrap.dedent`, line by line over the "\n"-separated lines of the text:
    lines holding only spaces and tabs become empty, and the longest run of
    leading spaces and tabs common to all other lines is removed from each. */
module TextWrap {
  import opened Wrappers
  import opened PyStr

  /** The characters of `[ \t]`. */
  predicate IsMarginChar(c: char) {
    c == ' ' || c == '\t'
  }

  /** The line matches `^[ \t]*$`. */
  predicate WhitespaceOnly(line: string) {
    forall j :: 0 <= j < |line| ==> IsMarginChar(line[j])
  }

  /** The first index at or after `i` that is not a space or tab. */
  function IndentEnd(line: string, i: nat): (j: nat)
    requires i <= |line|
    ensures i <= j <= |line|
    ensures j < |line| ==> !IsMarginChar(line[j])
    decreases |line| - i
  {
    if i < |line| && IsMarginChar(line[i]) then IndentEnd(line, i + 1) else i
  }

  /** The leading `[ \t]*` of a line. */
  function Indent(line: string): string {
    line[..IndentEnd(line, 0)]
  }

  /** The length of the longest common prefix of `a` and `b`, counting from `i`. */
  function CommonLength(a: string, b: string, i: nat): (n: nat)
    requires i <= |a| && i <= |b|
    ensures i <= n <= |a| && n <= |b|
    decreases |a| - i
  {
    if i < |a| && i < |b| && a[i] == b[i] then CommonLength(a, b, i + 1) else i
  }

  /** The longest common prefix of two strings. */
  function CommonPrefix(a: string, b: string): string {
    a[..CommonLength(a, b, 0)]
  }

  /** `CommonPrefix(a, b)` is a prefix of both, and every common prefix of
      `a` and `b` is a prefix of it. */
  lemma CommonPrefixSpec(a: string, b: string)
    ensures StartsWith(a, CommonPrefix(a, b)) && StartsWith(b, CommonPrefix(a, b))
    ensures forall p :: StartsWith(a, p) && StartsWith(b, p) ==> StartsWith(CommonPrefix(a, b), p)
  {
    var n := CommonLength(a, b, 0);
    CommonLengthSpec(a, b, 0);
    forall p | StartsWith(a, p) && StartsWith(b, p) ensures StartsWith(CommonPrefix(a, b), p) {
      assert CommonPrefix(a, b)[..|p|] == a[..|p|];
    }
  }

  lemma {:induction false} CommonLengthSpec(a: string, b: string, i: nat)
    requires i <= |a| && i <= |b|
    requires a[..i] == b[..i]
    ensures var n := CommonLength(a, b, i);
            a[..n] == b[..n] && (n == |a| || n == |b| || a[n] != b[n])
    decreases |a| - i
  {
    if i < |a| && i < |b| && a[i] == b[i] {
      assert a[..i + 1] == a[..i] + [a[i]] && b[..i + 1] == b[..i] + [b[i]];
      CommonLengthSpec(a, b, i + 1);
    }
  }

  /** The margin the left-to-right scan of the indents settles on: `None`
      when every line is whitespace-only, otherwise the longest common prefix
      of the indents of the other lines. */
  function Margin(lines: seq<string>): Option<string>
  {
    if lines == [] then None
    else
      var m := Margin(lines[..|lines| - 1]);
      var line := lines[|lines| - 1];
      if WhitespaceOnly(line) then m
      else match m
        case None => Some(Indent(line))
        case Some(p) => Some(CommonPrefix(p, Indent(line)))
  }

  /** The margin is a prefix of the indent of every line that is not
      whitespace-only, and every such common prefix is a prefix of the margin.
      It is absent exactly when all lines are whitespace-only. */
  lemma {:induction false} MarginSpec(lines: seq<string>)
    ensures Margin(lines).None? <==> forall k :: 0 <= k < |lines| ==> WhitespaceOnly(lines[k])
    ensures Margin(lines).Some? ==>
      forall k :: 0 <= k < |lines| && !WhitespaceOnly(lines[k]) ==> StartsWith(Indent(lines[k]), Margin(lines).value)
    ensures Margin(lines).Some? ==>
      forall p :: (forall k :: 0 <= k < |lines| && !WhitespaceOnly(lines[k]) ==> StartsWith(Indent(lines[k]), p))
                  ==> StartsWith(Margin(lines).value, p)
  {
    if lines != [] {
      var init := lines[..|lines| - 1];
      var line := lines[|lines| - 1];
      MarginSpec(init);
      assert forall k :: 0 <= k < |init| ==> init[k] == lines[k];
      if !WhitespaceOnly(line) && Margin(init).Some? {
        CommonPrefixSpec(Margin(init).value, Indent(line));
        var m := Margin(lines).value;
        forall k | 0 <= k < |lines| && !WhitespaceOnly(lines[k]) ensures StartsWith(Indent(lines[k]), m) {
          if k < |init| {
            PrefixTrans(Indent(lines[k]), Margin(init).value, m);
          }
        }
        forall p | (forall k :: 0 <= k < |lines| && !WhitespaceOnly(lines[k]) ==> StartsWith(Indent(lines[k]), p))
          ensures StartsWith(m, p)
        {
          assert StartsWith(Indent(lines[|lines| - 1]), p);
        }
      } else if !WhitespaceOnly(line) {
        var m := Margin(lines).value;
        forall p | (forall k :: 0 <= k < |lines| && !WhitespaceOnly(lines[k]) ==> StartsWith(Indent(lines[k]), p))
          ensures StartsWith(m, p)
        {
          assert StartsWith(Indent(lines[|lines| - 1]), p);
        }
      }
    }
  }

  lemma PrefixTrans(a: string, b: string, c: string)
    requires StartsWith(a, b) && StartsWith(b, c)
    ensures StartsWith(a, c)
  {
    assert a[..|c|] == b[..|c|];
  }

  /** One line after dedenting with margin `m`: `re.sub('^' + m, '', line)`
      once whitespace-only lines have been emptied. */
  function DedentLine(m: string, line: string): string {
    if WhitespaceOnly(line) then ""
    else if StartsWith(line, m) then line[|m|..]
    else line
  }

  /** Every line dedented with margin `m`. */
  function DedentLines(m: string, lines: seq<string>): (r: seq<string>)
    ensures |r| == |lines|
    ensures forall k :: 0 <= k < |lines| && NoNewline(lines[k]) ==> NoNewline(r[k])
  {
    seq(|lines|, k requires 0 <= k < |lines| => DedentLine(m, lines[k]))
  }

  /** `textwrap.dedent(text)` */
  function Dedent(text: string): (r: string)
    ensures |SplitNewlines(r)| == |SplitNewlines(text)|
  {
    var lines := SplitNewlines(text);
    var m := match Margin(lines) case None => "" case Some(p) => p;
    SplitNewlinesNoNewline(text);
    SplitJoinNewlines(DedentLines(m, lines));
    JoinLines(DedentLines(m, lines))
  }

  /** Dedenting keeps the number of lines; a whitespace-only line becomes
      empty, and every other line loses exactly the margin, which it starts with. */
  lemma DedentSpec(text: string)
    ensures var lines := SplitNewlines(text);
            var out := SplitNewlines(Dedent(text));
            var m := match Margin(lines) case None => "" case Some(p) => p;
            |out| == |lines| &&
            forall k :: 0 <= k < |lines| ==>
              if WhitespaceOnly(lines[k]) then out[k] == ""
              else StartsWith(lines[k], m) && out[k] == lines[k][|m|..]
  {
    var lines := SplitNewlines(text);
    var m := match Margin(lines) case None => "" case Some(p) => p;
    var parts := DedentLines(m, lines);
    MarginSpec(lines);
    SplitNewlinesNoNewline(text);
    forall k | 0 <= k < |lines| && !WhitespaceOnly(lines[k]) ensures StartsWith(lines[k], m) {
      PrefixTrans(lines[k], Indent(lines[k]), m);
    }
    SplitJoinNewlines(parts);
  }

  /** Text whose every line is empty or starts with neither a space nor a
      tab has no margin and no whitespace-only line to empty: dedenting gives
      it back unchanged. */
  lemma DedentUnindented(text: string)
    requires forall k :: 0 <= k < |SplitNewlines(text)| ==>
               SplitNewlines(text)[k] == "" || !IsMarginChar(SplitNewlines(text)[k][0])
    ensures Dedent(text) == text
  {
    var lines := SplitNewlines(text);
    var m := match Margin(lines) case None => "" case Some(p) => p;
    assert m == "" by {
      MarginSpec(lines);
      if Margin(lines).Some? {
        var k :| 0 <= k < |lines| && !WhitespaceOnly(lines[k]);
        assert Indent(lines[k]) == "";
      }
    }
    var out := DedentLines(m, lines);
    assert out == lines by {
      forall k | 0 <= k < |lines| ensures out[k] == lines[k] {
        if lines[k] != "" {
          assert !WhitespaceOnly(lines[k]);
        }
      }
    }
    JoinSplitNewlines(text);
  }
}

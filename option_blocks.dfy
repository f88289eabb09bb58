/**
  The top of `parse_directive_options`: finding the option block at the
  start of a directive's content, in its fenced form (a `---` line, then
  everything up to the next line that starts with three dashes) or its
  colon form (the run of lines that start with `:` once left-stripped).
*/
module OptionBlocks {
  import opened Wrappers
  import opened PyStr
  import opened TextWrap

  /** The option source found (`None` when there is no block), the content
      left for the body, and the line number later diagnostics carry. */
  datatype OptionBlock = OptionBlock(source: Option<string>, body: string, line: Option<int>)

  // ---------------------------------------------------------------- colon form

  /** `line.lstrip().startswith(":")` */
  predicate IsColonLine(line: string) {
    StartsWith(LStrip(line), ":")
  }

  /** `line.lstrip()[1:]`: the option text of a colon line. */
  function ColonPayload(line: string): string {
    var s := LStrip(line);
    if s == [] then [] else s[1..]
  }

  /** The number of colon lines at the start of `lines`. */
  function ColonRun(lines: seq<string>): (n: nat)
    ensures n <= |lines|
  {
    if lines == [] || !IsColonLine(lines[0]) then 0 else 1 + ColonRun(lines[1..])
  }

  /** `ColonRun` is the longest run of colon lines that starts the list. */
  lemma {:induction false} ColonRunMaximal(lines: seq<string>)
    ensures forall k :: 0 <= k < ColonRun(lines) ==> IsColonLine(lines[k])
    ensures ColonRun(lines) < |lines| ==> !IsColonLine(lines[ColonRun(lines)])
  {
    if lines != [] && IsColonLine(lines[0]) {
      ColonRunMaximal(lines[1..]);
    }
  }

  function Payloads(lines: seq<string>): (r: seq<string>)
    ensures |r| == |lines|
  {
    seq(|lines|, k requires 0 <= k < |lines| => ColonPayload(lines[k]))
  }

  /** The `while content_lines` loop: pops colon lines off the front and
      keeps their option text, up to the first line that is not one. */
  method CollectColonLines(lines: seq<string>) returns (payloads: seq<string>, rest: seq<string>)
    ensures |payloads| == ColonRun(lines)
    ensures rest == lines[|payloads|..]
    ensures forall k :: 0 <= k < |payloads| ==> IsColonLine(lines[k]) && payloads[k] == ColonPayload(lines[k])
    ensures rest == [] || !IsColonLine(rest[0])
  {
    payloads, rest := [], lines;
    while rest != []
      invariant |payloads| <= |lines| && rest == lines[|payloads|..]
      invariant forall k :: 0 <= k < |payloads| ==> IsColonLine(lines[k]) && payloads[k] == ColonPayload(lines[k])
      invariant ColonRun(lines) == |payloads| + ColonRun(rest)
      decreases |rest|
    {
      if !IsColonLine(rest[0]) {
        break;
      }
      assert lines[|payloads|] == rest[0];
      assert ColonRun(rest) == 1 + ColonRun(rest[1..]);
      payloads := payloads + [ColonPayload(rest[0])];
      rest := rest[1..];
    }
  }

  // ---------------------------------------------------------------- fenced form

  /** `^` in multi-line mode matches at `p`. */
  predicate LineStartAt(t: string, p: nat)
    requires p <= |t|
  {
    p == 0 || t[p - 1] == '\n'
  }

  /** `-{3}` matches at `p`. */
  predicate DashesAt(t: string, p: nat) {
    p + 3 <= |t| && t[p] == '-' && t[p + 1] == '-' && t[p + 2] == '-'
  }

  /** `re.search(r"^-{3,}", t, re.MULTILINE)` from `p` on: the start of the
      leftmost match. */
  function FenceSearch(t: string, p: nat): (r: Option<nat>)
    requires p <= |t|
    ensures r.Some? ==> p <= r.value < |t| && LineStartAt(t, r.value) && DashesAt(t, r.value)
    decreases |t| - p
  {
    if LineStartAt(t, p) && DashesAt(t, p) then Some(p)
    else if p == |t| then None
    else FenceSearch(t, p + 1)
  }

  /** The end of the greedy run of dashes at `p` (`match.end()`). */
  function DashEnd(t: string, p: nat): (e: nat)
    requires p <= |t|
    ensures p <= e <= |t|
    ensures e < |t| ==> t[e] != '-'
    decreases |t| - p
  {
    if p < |t| && t[p] == '-' then DashEnd(t, p + 1) else p
  }

  /** `DashEnd(t, p)` is the end of the greedy run of dashes at `p`: every
      character from `p` up to it is a dash, and the one at it is not. */
  lemma {:induction false} DashEndRun(t: string, p: nat)
    requires p <= |t|
    ensures var e := DashEnd(t, p);
            p <= e <= |t| && (forall j :: p <= j < e ==> t[j] == '-') && (e < |t| ==> t[e] != '-')
    decreases |t| - p
  {
    if p < |t| && t[p] == '-' {
      DashEndRun(t, p + 1);
    }
  }

  /** `content.splitlines()[1:]` */
  function AfterFirstLine(content: string): seq<string> {
    var lines := SplitLines(content);
    if lines == [] then [] else lines[1..]
  }

  /** The fenced form: the lines after the opening line, joined with "\n",
      cut at the next fence. */
  function FencedSplit(content: string): (string, string) {
    CutAtFence(JoinLines(AfterFirstLine(content)))
  }

  /** The text before the first fence, and the text after it: the body
      resumes one character after the run of dashes (`content[match.end() + 1:]`). */
  function CutAtFence(t: string): (string, string) {
    match FenceSearch(t, 0)
    case None => (t, "")
    case Some(p) => CutAtDashes(t, p)
  }

  /** The text before the dash run at `p`, and the text after the line break that ends it. */
  function CutAtDashes(t: string, p: nat): (string, string)
    requires p < |t|
  {
    var e := DashEnd(t, p);
    (t[..p], if e < |t| then t[e + 1..] else "")
  }

  /** The option text is a prefix of the searched text and the body a
      suffix of it; without a match the text is all option text. */
  lemma CutAtFenceParts(t: string)
    ensures var (yaml, body) := CutAtFence(t);
            StartsWith(t, yaml) && IsSuffix(body, t)
            && (FenceSearch(t, 0).None? <==> yaml == t && body == "")
  {
    match FenceSearch(t, 0)
    case None =>
    case Some(p) =>
      var e := DashEnd(t, p);
      assert t[..p] == t[..p];
      if e < |t| {
        assert t[|t| - |t[e + 1..]|..] == t[e + 1..];
      }
  }

  /** The option block of a directive's content. */
  function SplitOptionBlock(content: string, line: Option<int>): (r: OptionBlock)
    ensures r.source.Some? <==> StartsWith(content, "---") || StartsWith(LStrip(content), ":")
    ensures r.source.None? ==> r.body == content && r.line == line
  {
    if StartsWith(content, "---") then
      var (yaml, body) := FencedSplit(content);
      OptionBlock(Some(Dedent(yaml)), body, match line case None => None case Some(n) => Some(n + 1))
    else if StartsWith(LStrip(content), ":") then
      var lines := SplitLines(content);
      var n := ColonRun(lines);
      OptionBlock(Some(JoinLines(Payloads(lines[..n]))), JoinLines(lines[n..]), line)
    else
      OptionBlock(None, content, line)
  }

  // ------------------------------------------------ the fence, line by line

  /** The first line from `i` on that starts with `---`. */
  function FirstFenceLine(lines: seq<string>, i: nat): (r: Option<nat>)
    requires i <= |lines|
    ensures r.Some? ==> i <= r.value < |lines| && StartsWith(lines[r.value], "---")
    decreases |lines| - i
  {
    if i == |lines| then None
    else if StartsWith(lines[i], "---") then Some(i)
    else FirstFenceLine(lines, i + 1)
  }

  /** Where line `i` starts in `"\n".join(lines)`. */
  function LineOffset(lines: seq<string>, i: nat): nat
    requires i < |lines|
  {
    if i == 0 then 0 else |JoinLines(lines[..i])| + 1
  }

  /** The joined text from the start of line `i` on is lines `i..` joined. */
  lemma LineSuffix(lines: seq<string>, i: nat)
    requires i < |lines|
    ensures var t := JoinLines(lines);
            LineOffset(lines, i) <= |t| && t[LineOffset(lines, i)..] == JoinLines(lines[i..])
            && (i > 0 ==> t[LineOffset(lines, i) - 1] == '\n')
  {
    if i > 0 {
      JoinLinesSplit(lines, i);
    }
  }

  lemma NextLineOffset(lines: seq<string>, i: nat)
    requires i + 1 < |lines|
    ensures LineOffset(lines, i + 1) == LineOffset(lines, i) + |lines[i]| + 1
  {
    if i > 0 {
      var pre := lines[..i + 1];
      JoinLinesSplit(pre, i);
      assert pre[..i] == lines[..i] && pre[i..] == [lines[i]];
    }
  }

  /** Positions holding no match do not change where the search ends up. */
  lemma {:induction false} FenceSearchSkip(t: string, p: nat, q: nat)
    requires p <= q <= |t|
    requires forall r :: p <= r < q ==> !(LineStartAt(t, r) && DashesAt(t, r))
    ensures FenceSearch(t, p) == FenceSearch(t, q)
    decreases q - p
  {
    if p < q {
      FenceSearchSkip(t, p + 1, q);
    }
  }

  /** Within a line that does not start with `---` there is no match. */
  lemma NoFenceInLine(lines: seq<string>, i: nat)
    requires i < |lines| && NoNewline(lines[i]) && !StartsWith(lines[i], "---")
    ensures var t := JoinLines(lines);
            var q := LineOffset(lines, i);
            q + |lines[i]| <= |t|
            && (i + 1 == |lines| ==> q + |lines[i]| == |t|)
            && forall r :: q <= r <= q + |lines[i]| && r <= |t| ==> !(LineStartAt(t, r) && DashesAt(t, r))
  {
    var t := JoinLines(lines);
    var q := LineOffset(lines, i);
    var x := lines[i];
    LineSuffix(lines, i);
    var u := JoinLines(lines[i..]);
    assert t[q..] == u;
    if i + 1 < |lines| {
      assert u == x + "\n" + JoinLines(lines[i + 1..]);
    } else {
      assert lines[i..] == [x];
    }
    assert u[..|x|] == x;
    forall r | q <= r <= q + |x| && r <= |t| ensures !(LineStartAt(t, r) && DashesAt(t, r)) {
      if r > q {
        assert t[r - 1] == u[r - 1 - q] == x[r - 1 - q];
      }
    }
  }

  /** `"\n".join` of the lines after the current one, with its leading "\n". */
  function JoinedTail(rest: seq<string>): string {
    if rest == [] then "" else "\n" + JoinLines(rest)
  }

  lemma JoinCons(x: string, rest: seq<string>)
    ensures JoinLines([x] + rest) == x + JoinedTail(rest)
  {
    if rest != [] {
      assert ([x] + rest)[1..] == rest;
    }
  }

  /** The joined text from the start of line `i` on is that line, then the rest. */
  lemma LineAndTail(lines: seq<string>, i: nat)
    requires i < |lines|
    ensures LineOffset(lines, i) <= |JoinLines(lines)|
    ensures JoinLines(lines)[LineOffset(lines, i)..] == lines[i] + JoinedTail(lines[i + 1..])
  {
    LineSuffix(lines, i);
    assert lines[i..] == [lines[i]] + lines[i + 1..];
    JoinCons(lines[i], lines[i + 1..]);
  }

  /** A line that starts with `---` holds a match at its start. */
  lemma FenceAtLine(lines: seq<string>, i: nat)
    requires i < |lines| && StartsWith(lines[i], "---")
    ensures LineOffset(lines, i) <= |JoinLines(lines)|
    ensures var t := JoinLines(lines);
            LineStartAt(t, LineOffset(lines, i)) && DashesAt(t, LineOffset(lines, i))
  {
    LineSuffix(lines, i);
    LineAndTail(lines, i);
    DashesAtLine(JoinLines(lines), LineOffset(lines, i), lines[i], JoinedTail(lines[i + 1..]));
  }

  lemma DashesAtLine(t: string, q: nat, x: string, tail: string)
    requires q <= |t| && t[q..] == x + tail && StartsWith(x, "---")
    ensures DashesAt(t, q)
  {
    assert t[q] == (x + tail)[0] == x[0];
    assert t[q + 1] == (x + tail)[1] == x[1];
    assert t[q + 2] == (x + tail)[2] == x[2];
  }

  /** The regular-expression search over the joined lines finds the start of
      the first line that begins with `---`, and nothing when there is none. */
  lemma {:induction false} FenceSearchLines(lines: seq<string>, i: nat)
    requires i < |lines|
    requires forall k :: 0 <= k < |lines| ==> NoNewline(lines[k])
    ensures LineOffset(lines, i) <= |JoinLines(lines)|
    ensures FenceSearch(JoinLines(lines), LineOffset(lines, i))
            == match FirstFenceLine(lines, i) case None => None case Some(j) => Some(LineOffset(lines, j))
    decreases |lines| - i
  {
    var t := JoinLines(lines);
    var q := LineOffset(lines, i);
    LineSuffix(lines, i);
    if StartsWith(lines[i], "---") {
      FenceAtLine(lines, i);
      assert FirstFenceLine(lines, i) == Some(i);
    } else {
      assert FirstFenceLine(lines, i) == FirstFenceLine(lines, i + 1);
      NoFenceInLine(lines, i);
      if i + 1 < |lines| {
        var q' := q + |lines[i]| + 1;
        assert q' == LineOffset(lines, i + 1) by { NextLineOffset(lines, i); }
        assert FenceSearch(t, q) == FenceSearch(t, q') by {
          LineSuffix(lines, i + 1);
          FenceSearchSkip(t, q, q');
        }
        FenceSearchLines(lines, i + 1);
      } else {
        assert FenceSearch(t, q) == FenceSearch(t, |t|) by { FenceSearchSkip(t, q, |t|); }
        assert FenceSearch(t, |t|) == None;
      }
    }
  }

  /** Inside a line, `DashEnd` stops where the line's own dashes stop. */
  lemma {:induction false} DashEndInLine(t: string, q: nat, x: string, j: nat)
    requires q + |x| <= |t| && t[q..q + |x|] == x && j <= |x|
    requires q + |x| < |t| ==> t[q + |x|] == '\n'
    ensures DashEnd(t, q + j) == q + DashEnd(x, j)
    decreases |x| - j
  {
    if j < |x| {
      assert t[q + j] == x[j];
      DashEndInLine(t, q, x, j + 1);
    }
  }

  /** `s[1:]` */
  function Drop1(s: string): string {
    if s == [] then [] else s[1..]
  }

  /** What precedes line `i` in the joined text. */
  lemma LinePrefix(lines: seq<string>, i: nat)
    requires i < |lines|
    ensures LineOffset(lines, i) <= |JoinLines(lines)|
    ensures JoinLines(lines)[..LineOffset(lines, i)] == if i == 0 then "" else JoinLines(lines[..i]) + "\n"
  {
    LineSuffix(lines, i);
    if i > 0 {
      JoinLinesSplit(lines, i);
    }
  }

  /** What follows the dashes that open line `i` in the joined text. */
  lemma FenceCut(lines: seq<string>, i: nat)
    requires i < |lines|
    ensures LineOffset(lines, i) <= |JoinLines(lines)|
    ensures var t := JoinLines(lines);
            var q := LineOffset(lines, i);
            var d := DashEnd(lines[i], 0);
            DashEnd(t, q) == q + d && t[q + d..] == JoinLines([lines[i][d..]] + lines[i + 1..])
  {
    var x := lines[i];
    LineAndTail(lines, i);
    JoinCons(x[DashEnd(x, 0)..], lines[i + 1..]);
    DashRunCut(JoinLines(lines), LineOffset(lines, i), x, JoinedTail(lines[i + 1..]));
  }

  /** Where text from `q` on is a line `x` then nothing or a "\n": the dashes
      at `q` are those that open `x`. */
  lemma DashRunCut(t: string, q: nat, x: string, tail: string)
    requires q <= |t| && t[q..] == x + tail
    requires tail == "" || tail[0] == '\n'
    ensures DashEnd(t, q) == q + DashEnd(x, 0)
    ensures t[q + DashEnd(x, 0)..] == x[DashEnd(x, 0)..] + tail
  {
    var d := DashEnd(x, 0);
    ConcatSlices(x, tail, d);
    SliceOfSuffix(t, q, |x|);
    if tail != "" {
      assert t[q + |x|] == (x + tail)[|x|] == '\n';
    }
    DashEndInLine(t, q, x, 0);
  }

  /** The fenced form line by line. With `L` the content lines after the
      opening one: without a line starting with `---`, all of `L` is the
      option source and the body is empty; otherwise the source is the lines
      before the first such line (each followed by "\n"), and the body is
      what follows that line's leading dashes, less one character. */
  lemma FencedSplitLines(content: string)
    ensures var lines := AfterFirstLine(content);
            var (yaml, body) := FencedSplit(content);
            if lines == [] then yaml == "" && body == ""
            else match FirstFenceLine(lines, 0)
              case None => yaml == JoinLines(lines) && body == ""
              case Some(i) =>
                yaml == (if i == 0 then "" else JoinLines(lines[..i]) + "\n")
                && body == Drop1(JoinLines([lines[i][DashEnd(lines[i], 0)..]] + lines[i + 1..]))
  {
    var lines := AfterFirstLine(content);
    if lines != [] {
      AfterFirstLineNoNewline(content);
      CutAtFenceLines(lines);
    }
  }

  /** The option source and body when `lines[i]` is the first line that
      starts with `---`. */
  function FenceLineCut(lines: seq<string>, i: nat): (string, string)
    requires i < |lines|
  {
    (if i == 0 then "" else JoinLines(lines[..i]) + "\n",
     Drop1(JoinLines([lines[i][DashEnd(lines[i], 0)..]] + lines[i + 1..])))
  }

  lemma CutAtFenceLines(lines: seq<string>)
    requires lines != []
    requires forall k :: 0 <= k < |lines| ==> NoNewline(lines[k])
    ensures CutAtFence(JoinLines(lines))
            == match FirstFenceLine(lines, 0)
               case None => (JoinLines(lines), "")
               case Some(i) => FenceLineCut(lines, i)
  {
    match FirstFenceLine(lines, 0)
    case None => CutAtNoFence(lines);
    case Some(i) => CutAtFirstFence(lines, i);
  }

  lemma CutAtNoFence(lines: seq<string>)
    requires lines != []
    requires forall k :: 0 <= k < |lines| ==> NoNewline(lines[k])
    requires FirstFenceLine(lines, 0).None?
    ensures CutAtFence(JoinLines(lines)) == (JoinLines(lines), "")
  {
    FenceSearchLines(lines, 0);
  }

  lemma CutAtFirstFence(lines: seq<string>, i: nat)
    requires lines != []
    requires forall k :: 0 <= k < |lines| ==> NoNewline(lines[k])
    requires FirstFenceLine(lines, 0) == Some(i)
    ensures i < |lines| && CutAtFence(JoinLines(lines)) == FenceLineCut(lines, i)
  {
    FenceSearchLines(lines, 0);
    CutAtLine(lines, i);
  }

  lemma CutAtLine(lines: seq<string>, i: nat)
    requires i < |lines| && LineOffset(lines, i) <= |JoinLines(lines)|
    requires FenceSearch(JoinLines(lines), 0) == Some(LineOffset(lines, i))
    ensures var (yaml, body) := CutAtFence(JoinLines(lines));
            yaml == (if i == 0 then "" else JoinLines(lines[..i]) + "\n")
            && body == Drop1(JoinLines([lines[i][DashEnd(lines[i], 0)..]] + lines[i + 1..]))
  {
    var t := JoinLines(lines);
    var q := LineOffset(lines, i);
    var d := DashEnd(lines[i], 0);
    FenceCut(lines, i);
    LinePrefix(lines, i);
    CutAt(t, q, d, if i == 0 then "" else JoinLines(lines[..i]) + "\n", JoinLines([lines[i][d..]] + lines[i + 1..]));
  }

  lemma CutAt(t: string, q: nat, d: nat, before: string, after: string)
    requires FenceSearch(t, 0) == Some(q) && DashEnd(t, q) == q + d
    requires t[..q] == before && t[q + d..] == after
    ensures CutAtFence(t) == (before, Drop1(after))
  {
    assert CutAtFence(t) == CutAtDashes(t, q);
    CutAtDashesAt(t, q, d, before, after);
  }

  lemma CutAtDashesAt(t: string, q: nat, d: nat, before: string, after: string)
    requires q < |t| && DashEnd(t, q) == q + d
    requires t[..q] == before && t[q + d..] == after
    ensures CutAtDashes(t, q) == (before, Drop1(after))
  {
    DropAt(t, q + d);
  }

  lemma DropAt(t: string, e: nat)
    requires e <= |t|
    ensures Drop1(t[e..]) == if e < |t| then t[e + 1..] else ""
  {
  }

  /** No line after the opening one holds a "\n". */
  lemma AfterFirstLineNoNewline(content: string)
    ensures forall k :: 0 <= k < |AfterFirstLine(content)| ==> NoLineBreak(AfterFirstLine(content)[k])
    ensures forall k :: 0 <= k < |AfterFirstLine(content)| ==> NoNewline(AfterFirstLine(content)[k])
  {
    var all := SplitLines(content);
    SplitLinesNoBreak(content);
    var lines := AfterFirstLine(content);
    forall k | 0 <= k < |lines| ensures NoLineBreak(lines[k]) && NoNewline(lines[k]) {
      assert lines[k] == all[k + 1];
      NoLineBreakNoNewline(all[k + 1]);
    }
  }

  /** A fence line made of dashes alone: the body is exactly the lines after it. */
  lemma FencedSplitDashLine(content: string, i: nat)
    requires var lines := AfterFirstLine(content);
             lines != [] && FirstFenceLine(lines, 0) == Some(i) && DashEnd(lines[i], 0) == |lines[i]|
    ensures FencedSplit(content).1 == JoinLines(AfterFirstLine(content)[i + 1..])
  {
    FencedSplitLines(content);
    var lines := AfterFirstLine(content);
    var rest := lines[i + 1..];
    assert lines[i][|lines[i]|..] == "";
    if rest != [] {
      assert JoinLines([""] + rest) == "" + "\n" + JoinLines(rest);
    }
  }

  // ------------------------------------------------ facts about the block

  /** Only the fenced form moves the line number on, by one. */
  lemma BlockLine(content: string, line: Option<int>)
    ensures SplitOptionBlock(content, line).line
            == if StartsWith(content, "---") && line.Some? then Some(line.value + 1) else line
  {
  }

  /** The colon form: the source is the option text of the leading colon
      lines, and the body is the remaining lines, unchanged. */
  lemma ColonBlock(content: string, line: Option<int>)
    requires !StartsWith(content, "---") && StartsWith(LStrip(content), ":")
    ensures var lines := SplitLines(content);
            var n := ColonRun(lines);
            var b := SplitOptionBlock(content, line);
            b.source == Some(JoinLines(Payloads(lines[..n])))
            && b.body == JoinLines(lines[n..])
            && (forall k :: 0 <= k < n ==> IsColonLine(lines[k]))
            && (n < |lines| ==> !IsColonLine(lines[n]))
  {
    ColonRunMaximal(SplitLines(content));
  }

  /** Content whose first line is blank (empty or whitespace only) and whose
      first non-whitespace character is a colon takes the colon branch, yet
      the run of colon lines is empty: the source is the empty text and the
      body is the whole content. */
  lemma ColonBranchLeadingBlank(content: string, line: Option<int>)
    requires !StartsWith(content, "---") && StartsWith(LStrip(content), ":")
    requires SplitLines(content) != [] && IsBlank(SplitLines(content)[0])
    ensures SplitOptionBlock(content, line).source == Some("")
    ensures SplitOptionBlock(content, line).body == JoinLines(SplitLines(content))
  {
    var lines := SplitLines(content);
    assert LStrip(lines[0]) == "" by {
      assert SpaceEnd(lines[0], 0) == |lines[0]|;
    }
    assert ColonRun(lines) == 0;
    assert lines[0..] == lines;
  }

  /** The body never has more lines than the content. */
  lemma BodyLineCount(content: string, line: Option<int>)
    ensures |SplitLines(SplitOptionBlock(content, line).body)| <= |SplitLines(content)|
  {
    if StartsWith(content, "---") {
      FencedBodyLineCount(content);
    } else if StartsWith(LStrip(content), ":") {
      var all := SplitLines(content);
      SplitLinesNoBreak(content);
      var n := ColonRun(all);
      CountLinesOfJoin(all[n..]);
    }
  }

  lemma FencedBodyLineCount(content: string)
    ensures |SplitLines(FencedSplit(content).1)| < |SplitLines(content)| || SplitLines(content) == []
  {
    FencedSplitLines(content);
    AfterFirstLineNoNewline(content);
    var lines := AfterFirstLine(content);
    if lines != [] {
      match FirstFenceLine(lines, 0)
      case None =>
      case Some(i) =>
        var x := lines[i];
        var y := x[DashEnd(x, 0)..];
        assert NoLineBreak(y) by {
          forall j | 0 <= j < |y| ensures !IsLineBreak(y[j]) {
            assert y[j] == x[DashEnd(x, 0) + j];
          }
        }
        DropJoinCount([y] + lines[i + 1..]);
    }
  }

  /** Dropping the first character of a join of boundary-free lines leaves
      no more lines than there were. */
  lemma DropJoinCount(lines: seq<string>)
    requires lines != []
    requires forall k :: 0 <= k < |lines| ==> NoLineBreak(lines[k])
    ensures |SplitLines(Drop1(JoinLines(lines)))| <= |lines|
  {
    var x := lines[0];
    var rest := lines[1..];
    assert lines == [x] + rest;
    if x != [] {
      var parts := [x[1..]] + rest;
      assert Drop1(JoinLines(lines)) == JoinLines(parts) by { DropJoin(x, rest); }
      assert forall k :: 0 <= k < |parts| ==> NoLineBreak(parts[k]) by {
        forall k | 0 <= k < |parts| ensures NoLineBreak(parts[k]) {
          if k == 0 {
            forall j | 0 <= j < |x| - 1 ensures !IsLineBreak(x[1..][j]) {
              assert x[1..][j] == x[j + 1];
            }
          } else {
            assert parts[k] == lines[k];
          }
        }
      }
      CountLinesOfJoin(parts);
    } else if rest != [] {
      assert Drop1(JoinLines(lines)) == JoinLines(rest) by { JoinLinesCons(x, rest); }
      assert forall k :: 0 <= k < |rest| ==> NoLineBreak(rest[k]) by {
        forall k | 0 <= k < |rest| ensures NoLineBreak(rest[k]) { assert rest[k] == lines[k + 1]; }
      }
      CountLinesOfJoin(rest);
    }
  }

  /** Dropping the first character of a join whose first line is non-empty
      drops it from that line. */
  lemma DropJoin(x: string, rest: seq<string>)
    requires x != []
    ensures Drop1(JoinLines([x] + rest)) == JoinLines([x[1..]] + rest)
  {
    if rest != [] {
      JoinLinesCons(x, rest);
      JoinLinesCons(x[1..], rest);
      assert (x + "\n" + JoinLines(rest))[1..] == x[1..] + "\n" + JoinLines(rest);
    } else {
      assert [x] + rest == [x] && [x[1..]] + rest == [x[1..]];
    }
  }
}

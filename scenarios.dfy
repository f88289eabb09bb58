/** Worked inputs from the module's docstring and its documentation. */
module Scenarios {
  import opened Wrappers
  import opened PyStr
  import opened TextWrap
  import opened OptionBlocks
  import opened Arguments
  import opened DirectiveTypes
  import opened Dicts
  import opened DirectiveOptions
  import opened Directives

  /** A line of printable ASCII holds no line boundary. */
  lemma AsciiLine(x: string)
    requires forall i :: 0 <= i < |x| ==> 0x20 <= x[i] as int < 0x7F
    ensures NoLineBreak(x)
  {
  }

  /** Lines without boundaries, the last non-empty, survive join-then-split. */
  lemma JoinedLines(lines: seq<string>)
    requires forall i :: 0 <= i < |lines| ==> NoLineBreak(lines[i])
    requires lines != [] && lines[|lines| - 1] != ""
    ensures SplitLines(JoinLines(lines)) == lines
  {
    SplitLinesOfJoin(lines);
  }

  lemma ColonRunTwo(a: string, b: string, c: string)
    requires IsColonLine(a) && IsColonLine(b)
    ensures ColonRun([a, b, "", c]) == 2
  {
    var lines := [a, b, "", c];
    assert lines[1..] == [b, "", c] && lines[1..][1..] == ["", c];
    assert ColonRun(["", c]) == 0;
  }

  /** A line that starts with a colon is a colon line. */
  lemma ColonFirst(x: string)
    ensures IsColonLine(":" + x) && ColonPayload(":" + x) == x
  {
    assert SpaceEnd(":" + x, 0) == 0;
  }

  lemma ColonLineNoBreak(x: string)
    requires NoLineBreak(x)
    ensures NoLineBreak(":" + x)
  {
    assert forall i :: 0 < i < |":" + x| ==> (":" + x)[i] == x[i - 1];
  }

  /** The lines of two colon lines, a blank separator and a content line. */
  lemma ColonContentLines(x: string, y: string, c: string)
    requires NoLineBreak(x) && NoLineBreak(y) && NoLineBreak(c) && c != ""
    ensures SplitLines(":" + x + "\n" + (":" + y + "\n" + ("" + "\n" + c))) == [":" + x, ":" + y, "", c]
  {
    var a, b := ":" + x, ":" + y;
    var lines := [a, b, "", c];
    ColonLineNoBreak(x);
    ColonLineNoBreak(y);
    assert JoinLines(lines[2..]) == "" + "\n" + c;
    assert JoinLines(lines[1..]) == b + "\n" + ("" + "\n" + c);
    assert JoinLines(lines) == a + "\n" + (b + "\n" + ("" + "\n" + c));
    JoinedLines(lines);
  }

  /** Two colon lines, a blank separator and one line of content: the
      option source is the two lines without their colons, and the body is
      the separator and the content line. */
  lemma TwoColonLines(x: string, y: string, c: string, line: Option<int>)
    requires NoLineBreak(x) && NoLineBreak(y) && NoLineBreak(c) && c != ""
    ensures SplitOptionBlock(":" + x + "\n" + (":" + y + "\n" + ("" + "\n" + c)), line)
            == OptionBlock(Some(x + "\n" + y), "\n" + c, line)
  {
    var a, b := ":" + x, ":" + y;
    var content := a + "\n" + (b + "\n" + ("" + "\n" + c));
    var lines := [a, b, "", c];
    assert SplitLines(content) == lines by { ColonContentLines(x, y, c); }
    ColonFirst(x);
    ColonFirst(y);
    assert ColonRun(lines) == 2 by { ColonRunTwo(a, b, c); }
    assert Payloads(lines[..2]) == [x, y];
    assert JoinLines(lines[2..]) == "\n" + c by {
      assert lines[2..] == ["", c];
    }
    assert !StartsWith(content, "---") && StartsWith(LStrip(content), ":") by {
      assert content[0] == ':';
      assert SpaceEnd(content, 0) == 0;
    }
    ColonBlock(content, line);
  }

  /** The fenced block of the module's docstring: the option source is the
      dedented option lines, each ending in "\n", the body is the line after
      the closing fence, and the line number moves on by one. */
  lemma FencedTwoLines(x: string, y: string, c: string, line: Option<int>)
    requires NoLineBreak(x) && NoLineBreak(y) && NoLineBreak(c) && c != ""
    requires !StartsWith(x, "---") && !StartsWith(y, "---")
    ensures SplitOptionBlock("---" + "\n" + (x + "\n" + (y + "\n" + ("---" + "\n" + c))), line)
            == OptionBlock(Some(Dedent(x + "\n" + y + "\n")), c,
                           match line case None => None case Some(n) => Some(n + 1))
  {
    var content := "---" + "\n" + (x + "\n" + (y + "\n" + ("---" + "\n" + c)));
    assert FencedSplit(content) == (x + "\n" + y + "\n", c) by { FencedTwoSplit(x, y, c); }
    assert StartsWith(content, "---");
  }

  /** The option source and the body the fenced block above splits into. */
  lemma FencedTwoSplit(x: string, y: string, c: string)
    requires NoLineBreak(x) && NoLineBreak(y) && NoLineBreak(c) && c != ""
    requires !StartsWith(x, "---") && !StartsWith(y, "---")
    ensures FencedSplit("---" + "\n" + (x + "\n" + (y + "\n" + ("---" + "\n" + c))))
            == (x + "\n" + y + "\n", c)
  {
    var content := "---" + "\n" + (x + "\n" + (y + "\n" + ("---" + "\n" + c)));
    var lines := [x, y, "---", c];
    assert AfterFirstLine(content) == lines by { FencedContentLines(x, y, c); }
    assert FirstFenceLine(lines, 0) == Some(2) by {
      assert StartsWith(lines[2], "---");
      assert FirstFenceLine(lines, 1) == FirstFenceLine(lines, 2);
    }
    assert DashEnd(lines[2], 0) == 3 by {
      assert DashEnd("---", 3) == 3;
    }
    assert FencedSplit(content).0 == x + "\n" + y + "\n" by {
      FencedSplitLines(content);
      assert lines[..2] == [x, y];
      assert JoinLines([x, y]) == x + "\n" + y;
    }
    assert FencedSplit(content).1 == c by {
      FencedSplitDashLine(content, 2);
      assert lines[3..] == [c];
    }
  }

  /** The lines after the opening fence of the fenced block above. */
  lemma FencedContentLines(x: string, y: string, c: string)
    requires NoLineBreak(x) && NoLineBreak(y) && NoLineBreak(c) && c != ""
    ensures AfterFirstLine("---" + "\n" + (x + "\n" + (y + "\n" + ("---" + "\n" + c)))) == [x, y, "---", c]
  {
    var f := "---";
    assert NoLineBreak(f) by { AsciiLine(f); }
    var all := [f, x, y, f, c];
    assert JoinLines(all[3..]) == f + "\n" + c;
    assert JoinLines(all[2..]) == y + "\n" + (f + "\n" + c);
    assert JoinLines(all[1..]) == x + "\n" + (y + "\n" + (f + "\n" + c));
    assert JoinLines(all) == "---" + "\n" + (x + "\n" + (y + "\n" + ("---" + "\n" + c)));
    JoinedLines(all);
    assert all[1..] == [x, y, "---", c];
  }

  /** One argument slot with `final_argument_whitespace`: the whole line,
      inner whitespace included, is the argument. */
  lemma FinalArgumentExample()
    ensures ParseDirectiveArguments<int>(DirectiveSchema(1, 0, true, true, [], false), " a  b c ")
            == Success(["a  b c "])
  {
  }

  /** The colon block through `parse_directive_text`: the blank separator is
      dropped from the body, so the one content line is the body, and the
      offset counts the two option lines and the separator. */
  lemma ColonDirective<V>(schema: DirectiveSchema<V>, firstLine: string, x: string, y: string, c: string,
                          line: Option<int>, additional: Dict<string>, toDict: ToDict)
    requires NoLineBreak(x) && NoLineBreak(y) && NoLineBreak(c) && c != ""
    requires schema.optionSpec != [] && !NoArgumentSlots(schema)
    requires ParseDirectiveArguments(schema, firstLine).Success?
    ensures var r := DirectiveText(schema, firstLine, ":" + x + "\n" + (":" + y + "\n" + ("" + "\n" + c)), line, additional, toDict);
            r.Success? && r.value.body == [c] && r.value.bodyOffset == 3
  {
    var content := ":" + x + "\n" + (":" + y + "\n" + ("" + "\n" + c));
    var opts := OptionsPart(schema, content, line, additional, toDict);
    assert opts.body == "\n" + c by {
      OptionsPartBody(schema, content, line, additional, toDict);
      TwoColonLines(x, y, c, line);
    }
    assert CandidateLines(schema, firstLine, opts.body) == ["", c] by {
      JoinedLines(["", c]);
      assert JoinLines(["", c]) == "\n" + c;
    }
    assert DirectiveText(schema, firstLine, content, line, additional, toDict).Success? by {
      TextFailure(schema, firstLine, content, line, additional, toDict);
    }
    var r := DirectiveText(schema, firstLine, content, line, additional, toDict).value;
    assert r.body == [c] by {
      BlankFirstLine(schema, firstLine, content, line, additional, toDict);
    }
    assert |SplitLines(content)| == 4 by { ColonContentLines(x, y, c); }
    BodyOffset(schema, firstLine, content, line, additional, toDict);
  }
}

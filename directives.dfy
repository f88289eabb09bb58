/**
  `parse_directive_text`: the arguments, options and body of a directive,
  from the text on the directive's first line and the text after it.
*/
module Directives {
  import opened Wrappers
  import opened PyStr
  import opened Dicts
  import opened DirectiveTypes
  import opened OptionBlocks
  import opened OptionValidation
  import opened Arguments
  import opened DirectiveOptions

  /** The directive takes no arguments at all, so its first line is body. */
  predicate NoArgumentSlots<V>(schema: DirectiveSchema<V>) {
    schema.requiredArguments == 0 && schema.optionalArguments == 0
  }

  /** The option stage: an option block is looked for only when the
      directive has an `option_spec`; otherwise the whole content is body. */
  function OptionsPart<V>(schema: DirectiveSchema<V>, content: string, line: Option<int>,
                          additional: Dict<string>, toDict: ToDict): ParsedOptions<V>
  {
    if schema.optionSpec != [] then ParseOptions(content, schema, line, additional, toDict)
    else ParsedOptions(content, [], [])
  }

  /** The body lines before a blank first line is removed: the lines of the
      option stage's body, after the first line when it is body. */
  function CandidateLines<V>(schema: DirectiveSchema<V>, firstLine: string, body: string): seq<string> {
    if NoArgumentSlots(schema) && firstLine != [] then [firstLine] + SplitLines(body) else SplitLines(body)
  }

  /** The result once the arguments are known: the body lines less a blank
      first line, and the check for permitted content. */
  function Finish<V>(schema: DirectiveSchema<V>, firstLine: string, content: string, opts: ParsedOptions<V>,
                     arguments: seq<string>): DirectiveParsingResult<V>
  {
    var offset := |SplitLines(content)| - |SplitLines(opts.body)|;
    var lines := CandidateLines(schema, firstLine, opts.body);
    var blankFirst := lines != [] && IsBlank(lines[0]);
    var body := if blankFirst then lines[1..] else lines;
    var warnings := if body != [] && !schema.hasContent
                    then opts.errors + [Diagnostic(ContentNotPermitted, None)] else opts.errors;
    DirectiveParsingResult(arguments, opts.options, body, if blankFirst then offset + 1 else offset, warnings)
  }

  /** What follows the option stage. A `Failure` is the `MarkupError` of the
      argument parser. */
  function Assemble<V>(schema: DirectiveSchema<V>, firstLine: string, content: string, opts: ParsedOptions<V>)
    : Result<DirectiveParsingResult<V>, MarkupError>
  {
    var arguments := if NoArgumentSlots(schema) then Success([]) else ParseDirectiveArguments(schema, firstLine);
    match arguments
    case Failure(e) => Failure(e)
    case Success(args) => Success(Finish(schema, firstLine, content, opts, args))
  }

  /** The result of `parse_directive_text` with `validate_options` true. */
  function DirectiveText<V>(schema: DirectiveSchema<V>, firstLine: string, content: string, line: Option<int>,
                            additional: Dict<string>, toDict: ToDict): Result<DirectiveParsingResult<V>, MarkupError>
  {
    Assemble(schema, firstLine, content, OptionsPart(schema, content, line, additional, toDict))
  }

  /** `parse_directive_text`: the option stage, then the rest. */
  method ParseDirectiveText<V>(schema: DirectiveSchema<V>, firstLine: string, content: string, line: Option<int>,
                               additional: Dict<string>, toDict: ToDict)
    returns (r: Result<DirectiveParsingResult<V>, MarkupError>)
    ensures r == DirectiveText(schema, firstLine, content, line, additional, toDict)
  {
    var opts: ParsedOptions<V> := ParsedOptions(content, [], []);
    if schema.optionSpec != [] {
      var body, options, optionErrors := ParseDirectiveOptions(content, schema, line, additional, toDict);
      opts := ParsedOptions(body, options, optionErrors);
    }
    r := AssembleText(schema, firstLine, content, opts);
  }

  /** The rest of `parse_directive_text`, updating its locals as it goes.
      Without an option block the body is the whole content, so the offset
      starts at 0. */
  method AssembleText<V>(schema: DirectiveSchema<V>, firstLine: string, content: string, opts: ParsedOptions<V>)
    returns (r: Result<DirectiveParsingResult<V>, MarkupError>)
    ensures r == Assemble(schema, firstLine, content, opts)
  {
    var parseErrors := opts.errors;
    var bodyLines := SplitLines(opts.body);
    var contentOffset := |SplitLines(content)| - |bodyLines|;

    var arguments: seq<string>;
    if NoArgumentSlots(schema) {
      if firstLine != [] {
        bodyLines := [firstLine] + bodyLines;
      }
      arguments := [];
    } else {
      var parsed := ParseDirectiveArguments(schema, firstLine);
      if parsed.Failure? {
        return Failure(parsed.error);
      }
      arguments := parsed.value;
    }
    assert bodyLines == CandidateLines(schema, firstLine, opts.body);
    assert Assemble(schema, firstLine, content, opts) == Success(Finish(schema, firstLine, content, opts, arguments));

    if bodyLines != [] && IsBlank(bodyLines[0]) {
      bodyLines := bodyLines[1..];
      contentOffset := contentOffset + 1;
    }
    if bodyLines != [] && !schema.hasContent {
      parseErrors := parseErrors + [Diagnostic(ContentNotPermitted, None)];
    }
    r := Success(DirectiveParsingResult(arguments, opts.options, bodyLines, contentOffset, parseErrors));
  }

  // ------------------------------------------------------------ properties

  /** The only fatal error is the argument parser's, and only a directive
      with argument slots parses arguments; their result is passed through. */
  lemma TextFailure<V>(schema: DirectiveSchema<V>, firstLine: string, content: string, line: Option<int>,
                       additional: Dict<string>, toDict: ToDict)
    ensures var r := DirectiveText(schema, firstLine, content, line, additional, toDict);
            var a := ParseDirectiveArguments(schema, firstLine);
            (r.Failure? <==> !NoArgumentSlots(schema) && a.Failure?)
            && (r.Failure? ==> r.error == a.error)
            && (r.Success? && !NoArgumentSlots(schema) ==> r.value.arguments == a.value)
  {
  }

  /** Without argument slots there are no arguments, and a first line with
      any non-whitespace text is the first body line. */
  lemma FirstLineIsBody<V>(schema: DirectiveSchema<V>, firstLine: string, content: string, line: Option<int>,
                           additional: Dict<string>, toDict: ToDict)
    requires NoArgumentSlots(schema)
    ensures var r := DirectiveText(schema, firstLine, content, line, additional, toDict);
            r.Success? && r.value.arguments == []
            && (!IsBlank(firstLine) ==>
                  r.value.body == [firstLine] + SplitLines(OptionsPart(schema, content, line, additional, toDict).body))
  {
  }

  /** The option stage's body is the option block's body, whose line count
      never exceeds the content's. */
  lemma OptionsPartBody<V>(schema: DirectiveSchema<V>, content: string, line: Option<int>,
                           additional: Dict<string>, toDict: ToDict)
    ensures var body := OptionsPart(schema, content, line, additional, toDict).body;
            |SplitLines(body)| <= |SplitLines(content)|
            && (schema.optionSpec != [] ==> body == SplitOptionBlock(content, line).body)
  {
    BodyLineCount(content, line);
  }

  /** The body is the candidate lines less at most one blank first line. */
  lemma BlankFirstLine<V>(schema: DirectiveSchema<V>, firstLine: string, content: string, line: Option<int>,
                          additional: Dict<string>, toDict: ToDict)
    requires DirectiveText(schema, firstLine, content, line, additional, toDict).Success?
    ensures var r := DirectiveText(schema, firstLine, content, line, additional, toDict).value;
            var lines := CandidateLines(schema, firstLine, OptionsPart(schema, content, line, additional, toDict).body);
            var dropped := |lines| - |r.body|;
            0 <= dropped <= 1 && r.body == lines[dropped..]
            && (dropped == 1 <==> lines != [] && IsBlank(lines[0]))
  {
    var opts := OptionsPart(schema, content, line, additional, toDict);
    assert DirectiveText(schema, firstLine, content, line, additional, toDict) == Assemble(schema, firstLine, content, opts);
    AssembleLines(schema, firstLine, content, opts);
  }

  /** `BlankFirstLine` for any result of the option stage. */
  lemma AssembleLines<V>(schema: DirectiveSchema<V>, firstLine: string, content: string, opts: ParsedOptions<V>)
    requires Assemble(schema, firstLine, content, opts).Success?
    ensures var r := Assemble(schema, firstLine, content, opts).value;
            var lines := CandidateLines(schema, firstLine, opts.body);
            var dropped := |lines| - |r.body|;
            0 <= dropped <= 1 && r.body == lines[dropped..]
            && (dropped == 1 <==> lines != [] && IsBlank(lines[0]))
  {
    AssembleFinish(schema, firstLine, content, opts);
    var r := Assemble(schema, firstLine, content, opts).value;
    var lines := CandidateLines(schema, firstLine, opts.body);
    assert r == Finish(schema, firstLine, content, opts, r.arguments);
    if lines != [] && IsBlank(lines[0]) {
      assert r.body == lines[1..];
    } else {
      assert r.body == lines[0..];
    }
  }

  /** The offset counts every content line that is not body: the body and
      its offset together span the content's lines, plus the first line
      when that is body. So the offset is never negative. */
  lemma BodyOffset<V>(schema: DirectiveSchema<V>, firstLine: string, content: string, line: Option<int>,
                      additional: Dict<string>, toDict: ToDict)
    requires DirectiveText(schema, firstLine, content, line, additional, toDict).Success?
    ensures var r := DirectiveText(schema, firstLine, content, line, additional, toDict).value;
            r.bodyOffset + |r.body| == |SplitLines(content)| + (if NoArgumentSlots(schema) && firstLine != [] then 1 else 0)
            && 0 <= r.bodyOffset
  {
    var opts := OptionsPart(schema, content, line, additional, toDict);
    assert |SplitLines(opts.body)| <= |SplitLines(content)| by {
      OptionsPartBody(schema, content, line, additional, toDict);
    }
    assert DirectiveText(schema, firstLine, content, line, additional, toDict) == Assemble(schema, firstLine, content, opts);
    AssembleFinish(schema, firstLine, content, opts);
    var r := Assemble(schema, firstLine, content, opts).value;
    FinishBody(schema, firstLine, content, opts, r.arguments);
  }

  /** A successful result is `Finish` applied to the arguments it holds. */
  lemma AssembleFinish<V>(schema: DirectiveSchema<V>, firstLine: string, content: string, opts: ParsedOptions<V>)
    ensures var r := Assemble(schema, firstLine, content, opts);
            r.Success? ==> r.value == Finish(schema, firstLine, content, opts, r.value.arguments)
  {
  }

  lemma FinishBody<V>(schema: DirectiveSchema<V>, firstLine: string, content: string, opts: ParsedOptions<V>,
                      arguments: seq<string>)
    requires |SplitLines(opts.body)| <= |SplitLines(content)|
    ensures var r := Finish(schema, firstLine, content, opts, arguments);
            var lines := CandidateLines(schema, firstLine, opts.body);
            var dropped := |lines| - |r.body|;
            0 <= dropped <= 1 && r.body == lines[dropped..]
            && (dropped == 1 <==> lines != [] && IsBlank(lines[0]))
            && r.bodyOffset + |r.body| == |SplitLines(content)| + (if NoArgumentSlots(schema) && firstLine != [] then 1 else 0)
            && 0 <= r.bodyOffset
  {
    var lines := CandidateLines(schema, firstLine, opts.body);
    var n := |SplitLines(content)|;
    var m := |SplitLines(opts.body)|;
    assert |lines| == m + (if NoArgumentSlots(schema) && firstLine != [] then 1 else 0);
    var r := Finish(schema, firstLine, content, opts, arguments);
    if lines != [] && IsBlank(lines[0]) {
      assert r.body == lines[1..] && r.bodyOffset == n - m + 1;
    } else {
      assert r.body == lines && r.bodyOffset == n - m;
      assert r.body == lines[0..];
    }
  }

  /** The warnings are the option stage's diagnostics, followed by one
      saying that the directive has content although it permits none,
      exactly when that is so. */
  lemma ContentWarning<V>(schema: DirectiveSchema<V>, firstLine: string, content: string, line: Option<int>,
                          additional: Dict<string>, toDict: ToDict)
    requires DirectiveText(schema, firstLine, content, line, additional, toDict).Success?
    ensures var r := DirectiveText(schema, firstLine, content, line, additional, toDict).value;
            var opts := OptionsPart(schema, content, line, additional, toDict);
            var extra := r.body != [] && !schema.hasContent;
            r.options == opts.options
            && r.warnings == opts.errors + (if extra then [Diagnostic(ContentNotPermitted, None)] else [])
            && (Diagnostic(ContentNotPermitted, None) in r.warnings <==> extra)
  {
    var opts := OptionsPart(schema, content, line, additional, toDict);
    if schema.optionSpec != [] {
      DiagnosticLines(content, schema, line, additional, toDict);
    }
    assert Diagnostic(ContentNotPermitted, None) !in opts.errors;
  }

  /** Without an `option_spec` no option block is looked for: there are no
      options, the candidate body lines are the content's lines (after the
      first line when it is body), and the offset is 1 exactly when a blank
      first candidate line is dropped. */
  lemma NoOptionSpec<V>(schema: DirectiveSchema<V>, firstLine: string, content: string, line: Option<int>,
                        additional: Dict<string>, toDict: ToDict)
    requires schema.optionSpec == []
    requires DirectiveText(schema, firstLine, content, line, additional, toDict).Success?
    ensures var r := DirectiveText(schema, firstLine, content, line, additional, toDict).value;
            var lines := CandidateLines(schema, firstLine, content);
            r.options == [] && (r.warnings == [] <==> r.body == [] || schema.hasContent)
            && if lines != [] && IsBlank(lines[0]) then r.body == lines[1..] && r.bodyOffset == 1
               else r.body == lines && r.bodyOffset == 0
  {
    var opts := OptionsPart(schema, content, line, additional, toDict);
    assert opts == ParsedOptions(content, [], []);
  }

}

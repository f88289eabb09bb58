/**
  `parse_directive_options` on its validating path: find the option block,
  turn its text into a dict with `options_to_dict`, then either hand the
  dict back unconverted (the test directive) or merge the additional options
  underneath it and validate the result.
*/
module DirectiveOptions {
  import opened Wrappers
  import opened PyStr
  import opened TextWrap
  import opened Dicts
  import opened DirectiveTypes
  import opened OptionBlocks
  import opened OptionValidation

  /** `options_to_dict`: the option text as a string dict, or the `problem`
      of the `TokenizeError` it raises. */
  type ToDict = string -> Result<Dict<string>, string>

  /** The `(content, options, validation_errors)` triple. */
  datatype ParsedOptions<V> = ParsedOptions(body: string, options: Dict<OptionValue<V>>, errors: seq<Diagnostic>)

  /** Every value kept as the unconverted string. */
  function RawValues<V>(options: Dict<string>): (r: Dict<OptionValue<V>>)
    ensures Keys(r) == Keys(options)
    ensures forall k :: Lookup(r, k) == match Lookup(options, k) case None => None case Some(v) => Some(Raw(v))
  {
    var r := seq(|options|, i requires 0 <= i < |options| => (options[i].0, Raw(options[i].1)));
    assert Keys(r) == Keys(options);
    KeysDistinct(r, options);
    forall k ensures Lookup(r, k) == match Lookup(options, k) case None => None case Some(v) => Some(Raw(v)) {
      RawLookup(options, r, k);
    }
    r
  }

  lemma {:induction false} RawLookup<V>(options: seq<(string, string)>, r: seq<(string, OptionValue<V>)>, k: string)
    requires |r| == |options| && forall i :: 0 <= i < |r| ==> r[i] == (options[i].0, Raw(options[i].1))
    ensures Lookup(r, k) == match Lookup(options, k) case None => None case Some(v) => Some(Raw(v))
  {
    if r != [] {
      RawLookup(options[1..], r[1..], k);
    }
  }

  /** `{**additional_options, **options}` when there are additional options. */
  function WithAdditional(additional: Dict<string>, options: Dict<string>): Dict<string> {
    if additional == [] then options else Merge(additional, options)
  }

  /** The result of `parse_directive_options` with `as_yaml` false. */
  function ParseOptions<V>(content: string, schema: DirectiveSchema<V>, line: Option<int>,
                           additional: Dict<string>, toDict: ToDict): ParsedOptions<V>
  {
    ParseBlock(SplitOptionBlock(content, line), schema, additional, toDict)
  }

  /** What `parse_directive_options` makes of the option block once it is
      found: its text through `options_to_dict`, then validation. */
  function ParseBlock<V>(block: OptionBlock, schema: DirectiveSchema<V>,
                         additional: Dict<string>, toDict: ToDict): ParsedOptions<V>
  {
    var parsed := match block.source case None => Success([]) case Some(text) => toDict(text);
    match parsed
    case Failure(problem) => ParsedOptions(block.body, [], [Diagnostic(InvalidOptionsFormat(problem), block.line)])
    case Success(options) =>
      if schema.acceptsAnyOption then ParsedOptions(block.body, RawValues(options), [])
      else
        var (accepted, errors) := Validate(schema.optionSpec, block.line, WithAdditional(additional, options));
        ParsedOptions(block.body, accepted, errors)
  }

  /** `parse_directive_options`, step by step. */
  method ParseDirectiveOptions<V>(content: string, schema: DirectiveSchema<V>, line: Option<int>,
                                  additional: Dict<string>, toDict: ToDict)
    returns (body: string, options: Dict<OptionValue<V>>, errors: seq<Diagnostic>)
    ensures ParsedOptions(body, options, errors) == ParseOptions(content, schema, line, additional, toDict)
  {
    var source: Option<string> := None;
    var lineNo := line;
    body := content;
    if StartsWith(content, "---") {
      lineNo := if line.None? then None else Some(line.value + 1);
      var (yaml, rest) := FencedSplit(content);
      source := Some(Dedent(yaml));
      body := rest;
    } else if StartsWith(LStrip(content), ":") {
      var lines := SplitLines(content);
      var payloads, rest := CollectColonLines(lines);
      assert payloads == Payloads(lines[..|payloads|]);
      source := Some(JoinLines(payloads));
      body := JoinLines(rest);
    }
    assert OptionBlock(source, body, lineNo) == SplitOptionBlock(content, line);
    assert ParseOptions(content, schema, line, additional, toDict)
        == ParseBlock(OptionBlock(source, body, lineNo), schema, additional, toDict);

    var parsed: Dict<string> := [];
    if source.Some? {
      var r := toDict(source.value);
      if r.Failure? {
        options := [];
        errors := [Diagnostic(InvalidOptionsFormat(r.error), lineNo)];
        return;
      }
      parsed := r.value;
    }
    if schema.acceptsAnyOption {
      options := RawValues(parsed);
      errors := [];
      return;
    }
    if additional != [] {
      parsed := Merge(additional, parsed);
    }
    options, errors := ValidateOptions(schema.optionSpec, lineNo, parsed);
  }

  // ------------------------------------------------------------ properties

  /** A `TokenizeError` from `options_to_dict` ends the parse with no
      options and the one diagnostic that reports it. */
  lemma OptionsFormatError<V>(content: string, schema: DirectiveSchema<V>, line: Option<int>,
                              additional: Dict<string>, toDict: ToDict)
    requires var block := SplitOptionBlock(content, line);
             block.source.Some? && toDict(block.source.value).Failure?
    ensures var block := SplitOptionBlock(content, line);
            var r := ParseOptions(content, schema, line, additional, toDict);
            r.body == block.body && r.options == []
            && r.errors == [Diagnostic(InvalidOptionsFormat(toDict(block.source.value).error), block.line)]
  {
  }

  /** The test directive takes every option, unconverted, with no
      diagnostics, and ignores the additional options. */
  lemma AcceptsAnyOption<V>(content: string, schema: DirectiveSchema<V>, line: Option<int>,
                            additional: Dict<string>, toDict: ToDict, k: string)
    requires schema.acceptsAnyOption
    requires var block := SplitOptionBlock(content, line);
             block.source.Some? && toDict(block.source.value).Success?
    ensures var parsed := toDict(SplitOptionBlock(content, line).source.value).value;
            var r := ParseOptions(content, schema, line, additional, toDict);
            r.errors == [] && Keys(r.options) == Keys(parsed)
            && Lookup(r.options, k) == (match Lookup(parsed, k) case None => None case Some(v) => Some(Raw(v)))
            && r == ParseOptions(content, schema, line, [], toDict)
  {
  }

  /** Outside the test directive, every option name ends up converted from
      the value the option block gives it when it gives one, and from the
      additional options otherwise; a name absent from `option_spec` or whose
      conversion fails is left out, with exactly one diagnostic for each
      failing name. */
  lemma ParsedOptionsWin<V>(content: string, schema: DirectiveSchema<V>, line: Option<int>,
                            additional: Dict<string>, toDict: ToDict, k: string)
    requires !schema.acceptsAnyOption
    requires var block := SplitOptionBlock(content, line);
             block.source.None? || toDict(block.source.value).Success?
    ensures var block := SplitOptionBlock(content, line);
            var parsed := if block.source.None? then [] else toDict(block.source.value).value;
            var merged := WithAdditional(additional, parsed);
            var r := ParseOptions(content, schema, line, additional, toDict);
            Lookup(merged, k) == (if Lookup(parsed, k).Some? then Lookup(parsed, k) else Lookup(additional, k))
            && Lookup(r.options, k) == Outcome(schema.optionSpec, merged, k)
            && CountInvalid(r.errors, k) == (if Fails(schema.optionSpec, merged, k) then 1 else 0)
  {
    var block := SplitOptionBlock(content, line);
    var parsed: Dict<string> := if block.source.None? then [] else toDict(block.source.value).value;
    ValidateOption(schema.optionSpec, block.line, WithAdditional(additional, parsed), k);
    if additional == [] {
      assert Lookup(additional, k) == None;
    }
  }

  /** Outside the test directive, no unknown name is among the options, and
      one diagnostic covers all unknown names. */
  lemma UnknownOptions<V>(content: string, schema: DirectiveSchema<V>, line: Option<int>,
                          additional: Dict<string>, toDict: ToDict)
    requires !schema.acceptsAnyOption
    requires var block := SplitOptionBlock(content, line);
             block.source.None? || toDict(block.source.value).Success?
    ensures var block := SplitOptionBlock(content, line);
            var parsed := if block.source.None? then [] else toDict(block.source.value).value;
            var r := ParseOptions(content, schema, line, additional, toDict);
            (forall k :: k in Keys(r.options) ==> k in Keys(schema.optionSpec))
            && CountUnknown(r.errors) == if HasUnknown(schema.optionSpec, WithAdditional(additional, parsed)) then 1 else 0
  {
    var block := SplitOptionBlock(content, line);
    var parsed: Dict<string> := if block.source.None? then [] else toDict(block.source.value).value;
    ValidateUnknownCount(schema.optionSpec, block.line, WithAdditional(additional, parsed));
  }

  /** Every diagnostic carries the block's line number, which is one past
      the given one for the fenced form; none is about the body. */
  lemma DiagnosticLines<V>(content: string, schema: DirectiveSchema<V>, line: Option<int>,
                           additional: Dict<string>, toDict: ToDict)
    ensures var r := ParseOptions(content, schema, line, additional, toDict);
            forall d :: d in r.errors ==> d.line == SplitOptionBlock(content, line).line && !d.warning.ContentNotPermitted?
  {
    var block := SplitOptionBlock(content, line);
    var parsed := match block.source case None => Success([]) case Some(text) => toDict(text);
    if parsed.Success? && !schema.acceptsAnyOption {
      var merged := WithAdditional(additional, parsed.value);
      ValidateLines(schema.optionSpec, block.line, merged);
    }
  }

  lemma ValidateLines<V>(spec: Dict<Converter<V>>, line: Option<int>, options: Dict<string>)
    ensures forall d :: d in Validate(spec, line, options).1 ==> d.line == line && !d.warning.ContentNotPermitted?
  {
    TallyLines(spec, line, options);
  }

  lemma {:induction false} TallyLines<V>(spec: Dict<Converter<V>>, line: Option<int>, items: seq<(string, string)>)
    ensures forall d :: d in TallyOf(spec, line, items).errors ==> d.line == line && d.warning.InvalidOptionValue?
  {
    if items != [] {
      TallyLines(spec, line, items[..|items| - 1]);
    }
  }
}

/** The values the directive parser reads and produces. */
module DirectiveTypes {
  import opened Wrappers
  import opened Dicts

  /** An option converter of a directive's `option_spec`: docutils' `flag`,
      or any other callable. A `Failure` stands for the `ValueError` or
      `TypeError` the callable raises, with its message. */
  datatype Converter<V> =
    | Flag
    | Custom(convert: Option<string> -> Result<V, string>)

  /** A value in the returned options: an unconverted string (the test
      directive, which skips validation), what `flag` returns, or what a
      custom converter returns. */
  datatype OptionValue<V> = Raw(text: string) | Flagged | Converted(value: V)

  /** The directive class, as far as the parser consults it.
      `acceptsAnyOption` holds for docutils' `TestDirective` and its subclasses. */
  datatype DirectiveSchema<V> = DirectiveSchema(
    requiredArguments: nat,
    optionalArguments: nat,
    finalArgumentWhitespace: bool,
    hasContent: bool,
    optionSpec: Dict<Converter<V>>,
    acceptsAnyOption: bool)

  /** What a non-fatal diagnostic reports; the message text is not modelled. */
  datatype Warning =
    | InvalidOptionsFormat(problem: string)
    | InvalidOptionValue(name: string, value: Option<string>, reason: string)
    | UnknownOptionKeys(unknown: seq<string>, allowed: seq<string>)
    | ContentNotPermitted

  /** A `(message, line_number)` pair. */
  datatype Diagnostic = Diagnostic(warning: Warning, line: Option<int>)

  /** The fatal `MarkupError` of the argument parser. */
  datatype MarkupError =
    | TooFewArguments(required: nat, supplied: nat)
    | TooManyArguments(maximum: nat, supplied: nat)

  datatype DirectiveParsingResult<V> = DirectiveParsingResult(
    arguments: seq<string>,
    options: Dict<OptionValue<V>>,
    body: seq<string>,
    bodyOffset: int,
    warnings: seq<Diagnostic>)
}

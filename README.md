# Directive text parser

A Dafny model of `myst_parser/parsers/directives.py` from MyST-Parser. This is
the code that takes a fenced directive block, such as

    ```{name} arguments
    :option: value

    content
    ```

and splits it into arguments, options, body lines and a body offset. Along the
way it collects non-fatal warnings. The directive class is modelled as an
immutable `DirectiveSchema`. It gives the required and optional argument
counts, `final_argument_whitespace`, `has_content`, the `option_spec` and
whether the class is docutils' `TestDirective`.

The model has these modules:

- `PyStr`: the Python string operations the parser relies on, with CPython's
  semantics written out. These are `str.isspace`, `splitlines()` with all of
  its line boundaries, `split()`, `split(None, maxsplit)`, `lstrip()`,
  `"\n".join` and `split("\n")`.
- `TextWrap`: `textwrap.dedent`, done line by line.
- `Dicts`: insertion-ordered string dicts, stored as entry lists with
  distinct keys. `{**a, **b}` is `Merge`.
- `Sorting`: `sorted` on a list of strings.
- `OptionBlocks`: the top of `parse_directive_options`. It finds the fenced
  (`---`) or colon-prefixed option block. The `re.search(r"^-{3,}", …,
  re.MULTILINE)` call is modelled character by character and then proved
  equal to a line scan.
- `OptionValidation`: the bottom of `parse_directive_options`. This is the
  `for name, value in options.items()` loop, as a method proved against a
  fold over the dict.
- `DirectiveOptions`: `parse_directive_options` on the validating path.
- `Arguments`: `parse_directive_arguments`.
- `Directives`: `parse_directive_text`, as a method proved against a
  function.
- `Scenarios`: the option-block layouts of the module docstring, worked
  through the model.

`options_to_dict` from `myst_parser/parsers/options.py` is not part of this
model. It is a function parameter (`ToDict`) that returns a string dict or
the `problem` of its `TokenizeError`. An option converter is either docutils'
`flag` or an arbitrary function from `Option<string>` to a result.
`MarkupError` is the `Failure` case of the result of `ParseDirectiveText`.

Where the code's behaviour is not what a plain reading of the format
suggests, the model follows the code:

- After the closing fence, the body resumes one character after the run of
  dashes (`content[match.end() + 1:]`). So a closing line `---x` costs the
  body its first character. `FencedSplitLines` states this.
- Only the opening fence moves the line number of diagnostics on.
  `BlockLine` states this.
- Content whose first line is blank (empty or whitespace only) and whose
  first non-whitespace character is a colon takes the colon branch. The
  colon run is then empty, so the option text is empty and every line of
  the content stays in the body, re-joined with `"\n"`.
  `ColonBranchLeadingBlank` states this.
- When the first line is prepended to the body (no argument slots and a
  non-empty first line), `bodyOffset + |body|` is the content's line count
  plus one. Otherwise it is the content's line count. `BodyOffset` states
  this.

## Model

| member | source | states |
|---|---|---|
| `Arguments.ParseDirectiveArguments` | myst_parser/parsers/directives.py:233-250 | A successful parse has at least `required_arguments` arguments, and at most `required + optional` unless that sum is 0. |
| `Arguments.ArgumentsFailure` | myst_parser/parsers/directives.py:237-249 | The argument parse fails exactly when there are fewer whitespace tokens than `required_arguments`, or more than `required + optional` without `final_argument_whitespace`. The error gives the required count (or the maximum) and the number of tokens supplied. |
| `Arguments.ArgumentsInRange` | myst_parser/parsers/directives.py:239-250 | With a token count between `required` and `required + optional`, the arguments are exactly the whitespace tokens, in order. Each token is non-empty and holds no whitespace. |
| `Arguments.ArgumentsAbsorbRest` | myst_parser/parsers/directives.py:242-244 | With too many tokens and `final_argument_whitespace`, there are exactly `required + optional` arguments. All but the last equal the first tokens. The last is a suffix of the line that starts at a non-space character and splits into exactly the remaining tokens. |
| `Arguments.ArgumentsWithoutSlots` | myst_parser/parsers/directives.py:244 | With no argument slots, `split(None, -1)` sets no limit, so every token is returned. |
| `Scenarios.FinalArgumentExample` | myst_parser/parsers/directives.py:242-244 | One slot with `final_argument_whitespace`: `" a  b c "` gives the single argument `"a  b c "`, with inner and trailing whitespace kept. |
| `PyStr.Split` | myst_parser/parsers/directives.py:239 | Every token of `split()` is non-empty and holds no whitespace. |
| `PyStr.SplitWords` | myst_parser/parsers/directives.py:239 | The tokens of `split()` are the words of the string in order: blank text, a token, then whitespace or the end, and so on, ending in blank text. |
| `PyStr.SplitCanonical` | myst_parser/parsers/directives.py:239 | Any list of non-empty, whitespace-free words of the string equals `split()`, so its result is fully determined. |
| `PyStr.LStrip` | myst_parser/parsers/directives.py:155-161 | The result of `lstrip()` is empty or starts with a non-whitespace character. |
| `PyStr.LStripParts` | myst_parser/parsers/directives.py:155-161 | `lstrip()` returns a suffix of the string, and the prefix it removes is whitespace only. |
| `PyStr.LStripCanonical` | myst_parser/parsers/directives.py:155-161 | Any suffix of the string after a whitespace-only prefix that is empty or starts with a non-whitespace character equals `lstrip()`, so exactly the leading whitespace is removed. |
| `PyStr.SplitMax` | myst_parser/parsers/directives.py:244 | `split(None, n)` equals `split()` when `n` is negative or at least the token count. Otherwise it has `n + 1` elements, and the first `n` are the first tokens. |
| `PyStr.SplitMaxOverflow` | myst_parser/parsers/directives.py:244 | `s.split(None, n)` with more than `n` tokens: `n + 1` elements, the first `n` being the tokens and the last the rest of `s` from the next token on. |
| `PyStr.SplitLines` | myst_parser/parsers/directives.py:93 | `splitlines()` gives no lines exactly for the empty string. |
| `PyStr.SplitLinesNoBreak` | myst_parser/parsers/directives.py:93 | No line of `splitlines()` holds a line boundary. |
| `PyStr.SplitLinesOfJoin` | myst_parser/parsers/directives.py:163 | `"\n".join` then `splitlines()` gives back lines without boundaries, except a final empty line. |
| `OptionBlocks.CollectColonLines` | myst_parser/parsers/directives.py:156-163 | The `while content_lines` loop keeps the option text (left-stripped, first `:` dropped) of exactly the leading run of colon lines. It leaves the rest of the lines unchanged, starting with a line that is not a colon line. |
| `OptionBlocks.ColonRunMaximal` | myst_parser/parsers/directives.py:158-161 | The colon run is the maximal prefix of lines whose left-stripped form starts with `:`. |
| `OptionBlocks.ColonBlock` | myst_parser/parsers/directives.py:155-163 | In the colon form, the option source is the joined option text of the maximal colon run. The body is the joined lines after the run. |
| `OptionBlocks.ColonBranchLeadingBlank` | myst_parser/parsers/directives.py:155-163 | Content not starting with `---`, whose first line is blank (empty or whitespace only) and whose first non-whitespace character is `:`, gives an empty option source and leaves all its lines as body, re-joined with `"\n"`. |
| `OptionBlocks.FenceSearch` | myst_parser/parsers/directives.py:147 | A match of `^-{3,}` lies at a line start and begins with three dashes. |
| `OptionBlocks.DashEndRun` | myst_parser/parsers/directives.py:147-150 | `match.end()` is the end of the greedy run of dashes: every character from the match start up to it is a dash, and the one at it, if any, is not. |
| `OptionBlocks.FenceSearchLines` | myst_parser/parsers/directives.py:146-147 | Over the `"\n"`-joined lines, the regular-expression search finds the start of the first line that begins with `---`, and nothing when there is none. |
| `OptionBlocks.SplitOptionBlock` | myst_parser/parsers/directives.py:143-163 | There is an option source exactly when the content starts with `---` or its first non-whitespace character is `:`. Without one, the body is the whole content and the line number is unchanged. |
| `OptionBlocks.CutAtFenceParts` | myst_parser/parsers/directives.py:147-153 | Cutting at the fence leaves a prefix of the searched text as option text and a suffix of it as body. With no match, the whole text is option text and the body is empty. |
| `OptionBlocks.FencedSplitLines` | myst_parser/parsers/directives.py:144-153 | In the fenced form, the opening line is dropped. With no later `---` line, everything else is the option source and the body is empty. Otherwise the source is the lines before that line, each ending in `"\n"`, and the body is what follows that line's dashes, less one character. |
| `OptionBlocks.FencedSplitDashLine` | myst_parser/parsers/directives.py:148-150 | A closing line made of dashes alone leaves exactly the lines after it as body. |
| `OptionBlocks.BlockLine` | myst_parser/parsers/directives.py:144-145 | Only the fenced form moves the diagnostics' line number on, by one. |
| `OptionBlocks.BodyLineCount` | myst_parser/parsers/directives.py:143-163 | The body left by the option block never has more lines than the content. |
| `TextWrap.MarginSpec` | myst_parser/parsers/directives.py:154 | The margin that dedent settles on is the longest common prefix of the indents of the lines that are not whitespace-only. It is absent exactly when every line is whitespace-only. |
| `TextWrap.Dedent` | myst_parser/parsers/directives.py:154 | `textwrap.dedent` keeps the number of `"\n"`-separated lines. |
| `TextWrap.DedentUnindented` | myst_parser/parsers/directives.py:154 | Text whose every line is empty or starts with neither a space nor a tab comes back unchanged. |
| `TextWrap.DedentSpec` | myst_parser/parsers/directives.py:154 | Dedenting keeps the number of lines. A whitespace-only line becomes empty, and every other line loses exactly the margin, which it starts with. |
| `Scenarios.TwoColonLines` | myst_parser/parsers/directives.py:19-29 | Two colon lines, a blank line and content: the option source is the two lines without their colons, and the body is the blank line and the content. |
| `Scenarios.FencedTwoLines` | myst_parser/parsers/directives.py:5-17 | Fence, two option lines, fence, content: the option source is the dedented option lines and the body is the content line. The line number moves on by one. |
| `Dicts.Lookup` | myst_parser/parsers/directives.py:200-201 | A lookup fails exactly for a key the dict does not hold. |
| `Dicts.Merge` | myst_parser/parsers/directives.py:189-191 | `{**additional, **options}`: a key takes its value from the parsed options when they hold it, and from the additional options otherwise. |
| `Sorting.SortSpec` | myst_parser/parsers/directives.py:224-225 | `sorted` returns a sorted permutation of its input. |
| `Sorting.SortCanonical` | myst_parser/parsers/directives.py:224-225 | Any sorted permutation of the input equals `sorted` of it, so the two properties determine the result. |
| `OptionValidation.ConverterArgument` | myst_parser/parsers/directives.py:205-211 | A converter is called with `None` exactly when the value is empty or the converter is `flag`, and with the value itself otherwise. |
| `OptionValidation.ValidateOptions` | myst_parser/parsers/directives.py:193-230 | The validation loop and the unknown-names diagnostic produce exactly the fold `Validate` over the dict's entries, in order. |
| `OptionValidation.AcceptedKeys` | myst_parser/parsers/directives.py:199-219 | Accepted options are distinct and both present and known. |
| `OptionValidation.AcceptedLookup` | myst_parser/parsers/directives.py:205-219 | Each name maps to its converter's output when it is present and known and its conversion succeeds. It maps to nothing otherwise. |
| `OptionValidation.FailureDiagnostics` | myst_parser/parsers/directives.py:212-217 | Each failing conversion yields exactly one diagnostic, naming the option with the value passed and the converter's message. Other options yield none. |
| `OptionValidation.UnknownNames` | myst_parser/parsers/directives.py:199-204 | A name is among the collected unknown names exactly when it is one of the dict's names and absent from `option_spec`. |
| `OptionValidation.UnknownOnce` | myst_parser/parsers/directives.py:199-204 | Over a dict with distinct names, no unknown name is collected twice. |
| `OptionValidation.ValidateUnknownCount` | myst_parser/parsers/directives.py:199-228 | Unknown names never appear among the returned options. Exactly one unknown-keys diagnostic is produced when there are unknown names, and none otherwise. |
| `OptionValidation.ValidateUnknownList` | myst_parser/parsers/directives.py:221-228 | The unknown-keys diagnostic comes last and carries the block's line. It lists the unknown names sorted, each exactly once, and the allowed names sorted. |
| `OptionValidation.ValidateOption` | myst_parser/parsers/directives.py:199-219 | Per name, the validated options hold the conversion outcome. There is one invalid-value diagnostic exactly when the conversion fails. |
| `DirectiveOptions.RawValues` | myst_parser/parsers/directives.py:184-187 | The test directive's options are the parsed strings, unconverted, under the same keys. |
| `DirectiveOptions.ParseDirectiveOptions` | myst_parser/parsers/directives.py:132-230 | `parse_directive_options` with `as_yaml` false, step by step, gives exactly `ParseOptions`. |
| `DirectiveOptions.OptionsFormatError` | myst_parser/parsers/directives.py:178-182 | A `TokenizeError` gives no options and exactly one diagnostic, and the body is still split off. |
| `DirectiveOptions.AcceptsAnyOption` | myst_parser/parsers/directives.py:184-187 | The test directive takes every parsed option unconverted, with no diagnostics, and ignores the additional options. |
| `DirectiveOptions.ParsedOptionsWin` | myst_parser/parsers/directives.py:189-219 | Parsed options win over additional ones. Each name is converted from the merged value, and a failing one is dropped with exactly one diagnostic. |
| `DirectiveOptions.UnknownOptions` | myst_parser/parsers/directives.py:193-228 | Outside the test directive, every returned option is in `option_spec`. One diagnostic covers all unknown names. |
| `DirectiveOptions.DiagnosticLines` | myst_parser/parsers/directives.py:143-228 | Every option diagnostic carries the block's line number. None is the content diagnostic. |
| `Directives.ParseDirectiveText` | myst_parser/parsers/directives.py:69-129 | `parse_directive_text` with `validate_options` true, step by step, gives exactly `DirectiveText`. |
| `Directives.AssembleText` | myst_parser/parsers/directives.py:107-129 | The steps after the option stage give exactly `Assemble`. |
| `Directives.TextFailure` | myst_parser/parsers/directives.py:109-115 | The only fatal error is the argument parser's, and only a directive with argument slots parses arguments. |
| `Directives.FirstLineIsBody` | myst_parser/parsers/directives.py:109-113 | With no argument slots, the arguments are empty and a first line that is not blank is body line 0. |
| `Directives.OptionsPartBody` | myst_parser/parsers/directives.py:96-107 | The body comes from the option block only when there is an `option_spec`. It never has more lines than the content. |
| `Directives.BlankFirstLine` | myst_parser/parsers/directives.py:117-121 | At most one leading line is removed from the body, and exactly when it is blank. |
| `Directives.BodyOffset` | myst_parser/parsers/directives.py:94-121 | The offset plus the body's line count is the content's line count, plus one when the first line was prepended. The offset is never negative. |
| `Directives.ContentWarning` | myst_parser/parsers/directives.py:123-125 | The warnings are the option diagnostics plus exactly one content diagnostic when there is a body but no content is permitted. The body is still returned. |
| `Directives.NoOptionSpec` | myst_parser/parsers/directives.py:93-125 | Without an `option_spec` there are no options. The body is the content's lines, after the first line when that is body, less a blank first line. The offset is 1 exactly when that blank line is dropped. There are warnings exactly when there is a body and no content is permitted. |
| `Scenarios.ColonDirective` | myst_parser/parsers/directives.py:19-33 | The docstring's colon example parses to the single content line as body, with offset 3. |

## Left out

- The `as_yaml` path (`validate_options` false, lines 165-175) is not modelled. It calls `yaml.safe_load`, a full YAML loader outside this code.
- `myst_parser/parsers/options.py` is not part of this model. `options_to_dict` is the parameter `toDict`, and its `TokenizeError` is a `Failure` holding the problem text.
- Message text is not modelled. Each warning records the names, values and lists its message is built from, as the `Warning` datatype.
- Converters that raise anything other than `ValueError` or `TypeError` are not modelled. In the source such an exception propagates out of the parser.
- `convertor is flag` is an identity test. The model has a distinct `Flag` converter, so a wrapper around `flag` counts as a custom converter.
- `textwrap.dedent` follows the regular-expression implementation of CPython up to 3.13. Lines are separated at `"\n"` only.
- A directive class whose `option_spec` is `None` is modelled as an empty spec. Both are falsy at line 96.
- Running the parser twice on the same input gives the same result, because every operation is a function of its inputs. There is no separate statement of this.
- `tests/conftest.py` and `tests/test_sphinx/sourcedirs/heading_slug_func/conf.py` are test plumbing and configuration with no parsing logic.

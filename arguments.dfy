/** `parse_directive_arguments`: the arguments on the directive's first line. */
module Arguments {
  import opened Wrappers
  import opened PyStr
  import opened DirectiveTypes

  /** Splits the argument text on whitespace and checks the count against
      the directive's required and optional arguments. With too many tokens
      and `final_argument_whitespace`, the text is split again so that the
      last argument keeps the rest of the line. */
  function ParseDirectiveArguments<V>(schema: DirectiveSchema<V>, argText: string): (r: Result<seq<string>, MarkupError>)
    ensures var m := schema.requiredArguments + schema.optionalArguments;
            r.Success? ==> schema.requiredArguments <= |r.value| && (|r.value| <= m || m == 0)
  {
    var required := schema.requiredArguments;
    var optional := schema.optionalArguments;
    var arguments := Split(argText);
    if |arguments| < required then Failure(TooFewArguments(required, |arguments|))
    else if |arguments| > required + optional then
      if schema.finalArgumentWhitespace then Success(SplitMax(argText, required + optional - 1))
      else Failure(TooManyArguments(required + optional, |arguments|))
    else Success(arguments)
  }

  /** The parse fails exactly when there are fewer tokens than required, or
      more than required plus optional without `final_argument_whitespace`;
      the error gives the bound and the number of tokens. */
  lemma ArgumentsFailure<V>(schema: DirectiveSchema<V>, argText: string)
    ensures var n := |Split(argText)|;
            var r := schema.requiredArguments;
            var m := r + schema.optionalArguments;
            (ParseDirectiveArguments(schema, argText).Failure? <==> n < r || (n > m && !schema.finalArgumentWhitespace))
            && (n < r ==> ParseDirectiveArguments(schema, argText) == Failure(TooFewArguments(r, n)))
            && (r <= n && n > m && !schema.finalArgumentWhitespace ==>
                  ParseDirectiveArguments(schema, argText) == Failure(TooManyArguments(m, n)))
  {
  }

  /** Within bounds the arguments are the whitespace-separated tokens, in
      order; each is non-empty and holds no whitespace. */
  lemma ArgumentsInRange<V>(schema: DirectiveSchema<V>, argText: string)
    requires schema.requiredArguments <= |Split(argText)| <= schema.requiredArguments + schema.optionalArguments
    ensures ParseDirectiveArguments(schema, argText) == Success(Split(argText))
    ensures forall k :: 0 <= k < |Split(argText)| ==> Split(argText)[k] != [] && NoSpace(Split(argText)[k])
  {
    SplitFromTokens(argText, 0);
  }

  /** Too many tokens with `final_argument_whitespace`: exactly as many
      arguments as slots; all but the last are the first tokens, and the
      last is the rest of the line from a token start on, from where the
      line splits into precisely the remaining tokens. */
  lemma ArgumentsAbsorbRest<V>(schema: DirectiveSchema<V>, argText: string)
    requires schema.finalArgumentWhitespace
    requires 1 <= schema.requiredArguments + schema.optionalArguments < |Split(argText)|
    ensures var m := schema.requiredArguments + schema.optionalArguments;
            var result := ParseDirectiveArguments(schema, argText);
            result.Success? && |result.value| == m
            && result.value[..m - 1] == Split(argText)[..m - 1]
            && var last := result.value[m - 1];
               IsSuffix(last, argText) && last != [] && !IsSpace(last[0])
               && SplitFrom(argText, |argText| - |last|) == Split(argText)[m - 1..]
  {
    var k: nat := schema.requiredArguments + schema.optionalArguments - 1;
    var v := SplitMax(argText, k);
    assert ParseDirectiveArguments(schema, argText) == Success(v);
    SplitMaxOverflow(argText, k);
    assert |v| == k + 1 && v[..k] == Split(argText)[..k];
  }

  /** A directive with no argument slots, `final_argument_whitespace` and
      some text: `split(None, -1)` sets no limit, so every token comes back. */
  lemma ArgumentsWithoutSlots<V>(schema: DirectiveSchema<V>, argText: string)
    requires schema.finalArgumentWhitespace
    requires schema.requiredArguments == 0 && schema.optionalArguments == 0 && Split(argText) != []
    ensures ParseDirectiveArguments(schema, argText) == Success(Split(argText))
  {
  }
}

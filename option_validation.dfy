/**
  The bottom of `parse_directive_options`: checking each parsed option
  against the directive's `option_spec` in dict order, converting the known
  ones, and collecting one diagnostic per failed conversion plus a single
  combined diagnostic for all unknown names.
*/
module OptionValidation {
  import opened Wrappers
  import opened Sorting
  import opened Dicts
  import opened DirectiveTypes

  /** What a converter is called with: `None` for an empty value and for
      any value of a `flag` option, the value itself otherwise. */
  function ConverterArgument<V>(conv: Converter<V>, value: string): (arg: Option<string>)
    ensures arg.None? <==> conv.Flag? || value == ""
    ensures arg.Some? ==> arg.value == value
  {
    var v := if value == "" then None else Some(value);
    if conv.Flag? then None else v
  }

  /** `convertor(value)`: `flag(None)` always succeeds; a custom converter
      may fail with the message of the exception it raises. */
  function Convert<V>(conv: Converter<V>, arg: Option<string>): Result<OptionValue<V>, string> {
    match conv
    case Flag => Success(Flagged)
    case Custom(f) =>
      match f(arg)
      case Success(v) => Success(Converted(v))
      case Failure(e) => Failure(e)
  }

  /** The state of the `for name, value in options.items()` loop:
      `new_options`, `validation_errors` and `unknown_options`. */
  datatype Tally<V> = Tally(accepted: seq<(string, OptionValue<V>)>, errors: seq<Diagnostic>, unknown: seq<string>)

  /** One iteration of the loop. */
  function Step<V>(spec: Dict<Converter<V>>, line: Option<int>, t: Tally<V>, name: string, value: string): Tally<V> {
    match Lookup(spec, name)
    case None => t.(unknown := t.unknown + [name])
    case Some(conv) =>
      var arg := ConverterArgument(conv, value);
      match Convert(conv, arg)
      case Success(v) => t.(accepted := t.accepted + [(name, v)])
      case Failure(e) => t.(errors := t.errors + [Diagnostic(InvalidOptionValue(name, arg, e), line)])
  }

  /** The loop state after visiting `items` in order. */
  function TallyOf<V>(spec: Dict<Converter<V>>, line: Option<int>, items: seq<(string, string)>): Tally<V> {
    if items == [] then Tally([], [], [])
    else
      var k := |items| - 1;
      Step(spec, line, TallyOf(spec, line, items[..k]), items[k].0, items[k].1)
  }

  /** The combined diagnostic for unknown names, when there are any. */
  function UnknownDiagnostic<V>(spec: Dict<Converter<V>>, line: Option<int>, unknown: seq<string>): seq<Diagnostic> {
    if unknown == [] then [] else [Diagnostic(UnknownOptionKeys(Sort(unknown), Sort(Keys(spec))), line)]
  }

  /** The converted options and the diagnostics of validating `options`. */
  function Validate<V>(spec: Dict<Converter<V>>, line: Option<int>, options: Dict<string>): (Dict<OptionValue<V>>, seq<Diagnostic>) {
    var t := TallyOf(spec, line, options);
    AcceptedKeys(spec, line, options);
    (t.accepted, t.errors + UnknownDiagnostic(spec, line, t.unknown))
  }

  /** The validation loop. */
  method ValidateOptions<V>(spec: Dict<Converter<V>>, line: Option<int>, options: Dict<string>)
    returns (accepted: Dict<OptionValue<V>>, errors: seq<Diagnostic>)
    ensures (accepted, errors) == Validate(spec, line, options)
  {
    var unknown: seq<string> := [];
    var acc: seq<(string, OptionValue<V>)> := [];
    errors := [];
    for i := 0 to |options|
      invariant Tally(acc, errors, unknown) == TallyOf(spec, line, options[..i])
    {
      var (name, value) := options[i];
      assert options[..i + 1][..i] == options[..i];
      match Lookup(spec, name) {
        case None =>
          unknown := unknown + [name];
        case Some(conv) =>
          var arg := ConverterArgument(conv, value);
          match Convert(conv, arg) {
            case Success(v) =>
              acc := acc + [(name, v)];
            case Failure(e) =>
              errors := errors + [Diagnostic(InvalidOptionValue(name, arg, e), line)];
          }
      }
    }
    assert options[..|options|] == options;
    AcceptedKeys(spec, line, options);
    accepted := acc;
    if unknown != [] {
      errors := errors + [Diagnostic(UnknownOptionKeys(Sort(unknown), Sort(Keys(spec))), line)];
    } else {
      assert errors + [] == errors;
    }
  }

  // ------------------------------------------------------------ properties

  /** What the option named `name` turns into: nothing when it is absent or
      unknown or its conversion fails, the converted value otherwise. */
  function Outcome<V>(spec: Dict<Converter<V>>, options: seq<(string, string)>, name: string): Option<OptionValue<V>> {
    match Lookup(options, name)
    case None => None
    case Some(value) =>
      match Lookup(spec, name)
      case None => None
      case Some(conv) =>
        match Convert(conv, ConverterArgument(conv, value))
        case Success(v) => Some(v)
        case Failure(_) => None
  }

  /** The option named `name` is present and known, and its conversion fails. */
  predicate Fails<V>(spec: Dict<Converter<V>>, options: seq<(string, string)>, name: string) {
    match Lookup(options, name)
    case None => false
    case Some(value) => ConversionFails(spec, name, value)
  }

  /** `name` is known and its converter rejects `value`. */
  predicate ConversionFails<V>(spec: Dict<Converter<V>>, name: string, value: string) {
    match Lookup(spec, name)
    case None => false
    case Some(conv) => Convert(conv, ConverterArgument(conv, value)).Failure?
  }

  /** The diagnostic for a rejected `value` of `name`. */
  function InvalidDiagnostic<V>(spec: Dict<Converter<V>>, line: Option<int>, name: string, value: string): Diagnostic
    requires ConversionFails(spec, name, value)
  {
    var conv := Lookup(spec, name).value;
    var arg := ConverterArgument(conv, value);
    Diagnostic(InvalidOptionValue(name, arg, Convert(conv, arg).error), line)
  }

  /** The number of diagnostics about an invalid value of `name`. */
  function CountInvalid(ds: seq<Diagnostic>, name: string): nat {
    if ds == [] then 0
    else
      var d := ds[|ds| - 1];
      CountInvalid(ds[..|ds| - 1], name) + if d.warning.InvalidOptionValue? && d.warning.name == name then 1 else 0
  }

  /** The number of combined unknown-name diagnostics. */
  function CountUnknown(ds: seq<Diagnostic>): nat {
    if ds == [] then 0
    else CountUnknown(ds[..|ds| - 1]) + if ds[|ds| - 1].warning.UnknownOptionKeys? then 1 else 0
  }

  lemma {:induction false} CountsAppend(a: seq<Diagnostic>, b: seq<Diagnostic>, name: string)
    ensures CountInvalid(a + b, name) == CountInvalid(a, name) + CountInvalid(b, name)
    ensures CountUnknown(a + b) == CountUnknown(a) + CountUnknown(b)
    decreases |b|
  {
    if b == [] {
      assert a + b == a;
    } else {
      var c := a + b;
      assert c[..|c| - 1] == a + b[..|b| - 1];
      CountsAppend(a, b[..|b| - 1], name);
    }
  }

  lemma LookupLast<V>(init: seq<(string, V)>, last: (string, V), k: string)
    ensures Lookup(init + [last], k) == if k in Keys(init) then Lookup(init, k) else if k == last.0 then Some(last.1) else None
  {
    LookupAppend(init, [last], k);
    assert Keys([last]) == [last.0];
  }

  /** Only options that are present and known are accepted, each once and in
      dict order. */
  lemma {:induction false} AcceptedKeys<V>(spec: Dict<Converter<V>>, line: Option<int>, items: seq<(string, string)>)
    requires DistinctKeys(items)
    ensures DistinctKeys(TallyOf(spec, line, items).accepted)
    ensures forall k :: k in Keys(TallyOf(spec, line, items).accepted) ==> k in Keys(items) && k in Keys(spec)
  {
    if items != [] {
      var n := |items| - 1;
      var init := items[..n];
      var t := TallyOf(spec, line, init);
      AcceptedKeys(spec, line, init);
      var name := items[n].0;
      assert Keys(items) == Keys(init) + [name];
      assert name !in Keys(init) by {
        forall j | 0 <= j < n ensures init[j].0 != name {
          assert init[j] == items[j];
        }
      }
      match Lookup(spec, name)
      case None =>
      case Some(conv) =>
        match Convert(conv, ConverterArgument(conv, items[n].1))
        case Success(v) =>
          assert Keys([(name, v)]) == [name];
          DistinctAppend(t.accepted, [(name, v)]);
          assert Keys(t.accepted + [(name, v)]) == Keys(t.accepted) + [name];
        case Failure(_) =>
    }
  }

  /** The accepted dict holds, for every name, exactly the outcome of
      converting that name's value. */
  lemma {:induction false} AcceptedLookup<V>(spec: Dict<Converter<V>>, line: Option<int>, items: seq<(string, string)>, k: string)
    requires DistinctKeys(items)
    ensures Lookup(TallyOf(spec, line, items).accepted, k) == Outcome(spec, items, k)
  {
    if items != [] {
      var n := |items| - 1;
      var init := items[..n];
      var name := items[n].0;
      var t := TallyOf(spec, line, init);
      AcceptedLookup(spec, line, init, k);
      AcceptedKeys(spec, line, init);
      assert items == init + [items[n]];
      LookupLast(init, items[n], k);
      assert name !in Keys(init) by {
        forall j | 0 <= j < n ensures init[j].0 != name {
          assert init[j] == items[j];
        }
      }
      match Lookup(spec, name)
      case None =>
      case Some(conv) =>
        match Convert(conv, ConverterArgument(conv, items[n].1))
        case Success(v) =>
          LookupLast(t.accepted, (name, v), k);
        case Failure(_) =>
    }
  }

  /** Each option whose conversion fails gets exactly one diagnostic, naming
      it with the value its converter was given and the converter's message;
      no other option gets one. */
  lemma {:induction false} FailureDiagnostics<V>(spec: Dict<Converter<V>>, line: Option<int>, items: seq<(string, string)>, k: string)
    requires DistinctKeys(items)
    ensures CountInvalid(TallyOf(spec, line, items).errors, k) == if Fails(spec, items, k) then 1 else 0
    ensures Fails(spec, items, k) ==>
      var value := Lookup(items, k).value;
      var conv := Lookup(spec, k).value;
      var arg := ConverterArgument(conv, value);
      Diagnostic(InvalidOptionValue(k, arg, Convert(conv, arg).error), line) in TallyOf(spec, line, items).errors
    ensures CountUnknown(TallyOf(spec, line, items).errors) == 0
  {
    if items != [] {
      var n := |items| - 1;
      var init := items[..n];
      var (name, value) := items[n];
      var t := TallyOf(spec, line, init);
      FailureDiagnostics(spec, line, init, k);
      assert name !in Keys(init) by {
        forall j | 0 <= j < n ensures init[j].0 != name {
          assert init[j] == items[j];
        }
      }
      assert Lookup(items, k) == if k == name then Some(value) else Lookup(init, k) by {
        assert items == init + [items[n]];
        LookupLast(init, items[n], k);
      }
      assert TallyOf(spec, line, items) == Step(spec, line, t, name, value);
      StepErrors(spec, line, t, name, value, k);
    }
  }

  /** One step adds a diagnostic exactly when the conversion fails, and
      never an unknown-name one. */
  lemma StepErrors<V>(spec: Dict<Converter<V>>, line: Option<int>, t: Tally<V>, name: string, value: string, k: string)
    ensures var e := Step(spec, line, t, name, value).errors;
            var fails := ConversionFails(spec, name, value);
            CountUnknown(e) == CountUnknown(t.errors)
            && CountInvalid(e, k) == CountInvalid(t.errors, k) + (if fails && k == name then 1 else 0)
            && (forall d :: d in t.errors ==> d in e)
            && (fails ==> InvalidDiagnostic(spec, line, name, value) in e)
  {
    if ConversionFails(spec, name, value) {
      var d := InvalidDiagnostic(spec, line, name, value);
      assert Step(spec, line, t, name, value).errors == t.errors + [d];
      assert (t.errors + [d])[..|t.errors|] == t.errors;
    } else {
      assert Step(spec, line, t, name, value).errors == t.errors;
    }
  }

  /** The unknown names are exactly the names absent from `option_spec`, in
      dict order. */
  lemma {:induction false} UnknownNames<V>(spec: Dict<Converter<V>>, line: Option<int>, items: seq<(string, string)>)
    ensures forall k :: k in TallyOf(spec, line, items).unknown <==> k in Keys(items) && k !in Keys(spec)
  {
    if items != [] {
      var n := |items| - 1;
      UnknownNames(spec, line, items[..n]);
      assert Keys(items) == Keys(items[..n]) + [items[n].0];
    }
  }

  /** No name occurs twice. */
  predicate NoRepeats(s: seq<string>) {
    forall i, j :: 0 <= i < j < |s| ==> s[i] != s[j]
  }

  /** A dict visits each name once, so each unknown name is collected once. */
  lemma {:induction false} UnknownOnce<V>(spec: Dict<Converter<V>>, line: Option<int>, items: seq<(string, string)>)
    requires DistinctKeys(items)
    ensures NoRepeats(TallyOf(spec, line, items).unknown)
  {
    if items != [] {
      var n := |items| - 1;
      var init := items[..n];
      var name := items[n].0;
      var u := TallyOf(spec, line, init).unknown;
      UnknownOnce(spec, line, init);
      assert name !in u by {
        UnknownNames(spec, line, init);
        forall j | 0 <= j < n ensures init[j].0 != name {
          assert init[j] == items[j];
        }
      }
      if Lookup(spec, name).None? {
        var w := u + [name];
        assert TallyOf(spec, line, items).unknown == w;
        forall i, j | 0 <= i < j < |w| ensures w[i] != w[j] {
          if j == |u| {
            assert w[i] == u[i] && w[j] == name;
          } else {
            assert w[i] == u[i] && w[j] == u[j];
          }
        }
      } else {
        assert TallyOf(spec, line, items).unknown == u;
      }
    }
  }

  /** In a list without repeats every member occurs exactly once. */
  lemma {:induction false} NoRepeatsCount(s: seq<string>, k: string)
    requires NoRepeats(s)
    ensures multiset(s)[k] == if k in s then 1 else 0
  {
    if s != [] {
      var t, x := s[..|s| - 1], s[|s| - 1];
      assert s == t + [x];
      assert NoRepeats(t) by {
        forall i, j | 0 <= i < j < |t| ensures t[i] != t[j] {
          assert t[i] == s[i] && t[j] == s[j];
        }
      }
      NoRepeatsCount(t, k);
      assert x !in t by {
        forall i | 0 <= i < |t| ensures t[i] != x {
          assert t[i] == s[i];
        }
      }
    }
  }

  /** Some name of `options` is absent from `option_spec`. */
  predicate HasUnknown<V>(spec: Dict<Converter<V>>, options: seq<(string, string)>) {
    exists k :: k in Keys(options) && k !in Keys(spec)
  }

  lemma UnknownPresent<V>(spec: Dict<Converter<V>>, line: Option<int>, options: seq<(string, string)>)
    ensures TallyOf(spec, line, options).unknown != [] <==> HasUnknown(spec, options)
  {
    var u := TallyOf(spec, line, options).unknown;
    UnknownNames(spec, line, options);
    if u != [] {
      assert u[0] in u;
    }
  }

  /** Unknown names never reach the returned options, and all of them
      together produce exactly one diagnostic. */
  lemma ValidateUnknownCount<V>(spec: Dict<Converter<V>>, line: Option<int>, options: Dict<string>)
    ensures forall k :: k in Keys(Validate(spec, line, options).0) ==> k in Keys(spec)
    ensures CountUnknown(Validate(spec, line, options).1) == if HasUnknown(spec, options) then 1 else 0
  {
    var t := TallyOf(spec, line, options);
    AcceptedKeys(spec, line, options);
    UnknownPresent(spec, line, options);
    FailureDiagnostics(spec, line, options, "");
    var u := UnknownDiagnostic(spec, line, t.unknown);
    CountsAppend(t.errors, u, "");
    if t.unknown != [] {
      assert u[..0] == [];
    }
  }

  /** The diagnostic for unknown names comes last and lists the unknown
      names sorted, each exactly once, and the allowed names sorted. */
  lemma ValidateUnknownList<V>(spec: Dict<Converter<V>>, line: Option<int>, options: Dict<string>)
    requires HasUnknown(spec, options)
    ensures |Validate(spec, line, options).1| > 0
    ensures var errors := Validate(spec, line, options).1;
            var w := errors[|errors| - 1].warning;
            errors[|errors| - 1].line == line && w.UnknownOptionKeys?
            && Sorted(w.unknown) && (forall k :: k in w.unknown <==> k in Keys(options) && k !in Keys(spec))
            && (forall k :: multiset(w.unknown)[k] == if k in Keys(options) && k !in Keys(spec) then 1 else 0)
            && Sorted(w.allowed) && multiset(w.allowed) == multiset(Keys(spec))
  {
    var t := TallyOf(spec, line, options);
    UnknownPresent(spec, line, options);
    UnknownNames(spec, line, options);
    UnknownOnce(spec, line, options);
    SortSpec(t.unknown);
    SortSpec(Keys(spec));
    forall k ensures k in Sort(t.unknown) <==> k in t.unknown {
      assert k in multiset(Sort(t.unknown)) <==> k in multiset(t.unknown);
    }
    forall k ensures multiset(Sort(t.unknown))[k] == if k in Keys(options) && k !in Keys(spec) then 1 else 0 {
      NoRepeatsCount(t.unknown, k);
    }
  }

  /** The combined result of validation, option by option. */
  lemma ValidateOption<V>(spec: Dict<Converter<V>>, line: Option<int>, options: Dict<string>, k: string)
    ensures var (accepted, errors) := Validate(spec, line, options);
            Lookup(accepted, k) == Outcome(spec, options, k)
            && CountInvalid(errors, k) == (if Fails(spec, options, k) then 1 else 0)
  {
    var t := TallyOf(spec, line, options);
    AcceptedLookup(spec, line, options, k);
    FailureDiagnostics(spec, line, options, k);
    CountsAppend(t.errors, UnknownDiagnostic(spec, line, t.unknown), k);
    if t.unknown != [] {
      assert UnknownDiagnostic(spec, line, t.unknown)[..0] == [];
    }
  }
}

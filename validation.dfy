/** The type validation pass of src/options-parser.js (`validateType_`,
    `validateTypes_`), the integer validator of types.js, and the default
    error handlers of both entry points, which turn an error descriptor
    into a thrown exception. */
module Validation {
  import opened Common
  import opened Schema
  import TokenParser
  import Helper

  // ---------------------------------------------------------------------
  // validators

  /** What a validator does with one value: the value it hands to
      `replace` (the last one, if it calls `replace` more than once) and
      the message it returns when it returns a string. */
  datatype Verdict = Verdict(replacement: Option<Value>, message: Option<string>)

  /** The validators of a schema, by option name: the `type` functions of
      the options whose config has one. */
  type Validators = (string, Value) -> Verdict

  predicate IsDigit(c: char)
  {
    '0' <= c <= '9'
  }

  /** The pattern `^-?[0-9]+$`. */
  predicate IsIntString(s: string)
  {
    var digits := if s != [] && s[0] == '-' then s[1..] else s;
    digits != [] && forall k :: 0 <= k < |digits| ==> IsDigit(digits[k])
  }

  /** 10^21: from this magnitude on, `String(n)` writes a number in
      exponent form (`1e+21`), which the pattern rejects. */
  const Exp21 := 1_000_000_000_000_000_000_000

  /** Whether the string a value converts to matches `^-?[0-9]+$`: a string
      is matched as it is; `true` and `false` never match; an integer's
      decimal form does, when it is below 10^21 in magnitude and so has no
      exponent; an array converts to its elements joined by commas, so it
      matches only when it has exactly one element that matches. */
  predicate IntMatches(v: Value)
    decreases v
  {
    match v
    case Str(s) => IsIntString(s)
    case Bool(_) => false
    case Num(n) => -Exp21 < n < Exp21
    case List(items) => |items| == 1 && IntMatches(items[0])
  }

  const DefaultIntMessage := "Expected value to be an integer"

  /** `type.int(msg)` applied to a value: it never replaces, and it returns
      its message (the default one when msg is empty) exactly when the
      value does not match. */
  function IntValidator(msg: string, v: Value): (r: Verdict)
    ensures r.replacement.None?
    ensures r.message.None? <==> IntMatches(v)
    ensures r.message.Some? ==> r.message.value == (if msg != "" then msg else DefaultIntMessage) && r.message.value != ""
  {
    Verdict(None, if IntMatches(v) then None else Some(if msg != "" then msg else DefaultIntMessage))
  }

  /** An optional minus sign followed by at least one digit is an integer,
      and nothing else is. */
  lemma IntStrings(sign: string, digits: string)
    requires sign == "" || sign == "-"
    requires forall k :: 0 <= k < |digits| ==> IsDigit(digits[k])
    ensures IsIntString(sign + digits) <==> digits != []
  {
    if sign == "-" {
      assert (sign + digits)[1..] == digits;
    } else {
      assert sign + digits == digits;
      if digits != [] {
        assert digits[0] != '-' by { assert IsDigit(digits[0]); }
      }
    }
  }

  // ---------------------------------------------------------------------
  // validateType_ and validateTypes_

  /** The value after the validator ran on it. */
  function Replaced(verdict: Verdict, v: Value): Value
  {
    if verdict.replacement.Some? then verdict.replacement.value else v
  }

  /** The error callbacks of one validation: `{validation: msg}` when the
      validator returned a string. */
  function Reports(verdict: Verdict): (r: seq<ParseError>)
    ensures r == [] <==> verdict.message.None?
    ensures verdict.message.Some? ==> r == [Validation(verdict.message.value)]
  {
    if verdict.message.Some? then [Validation(verdict.message.value)] else []
  }

  /** The `forEach` over an array value: every element is validated in
      index order and replaced in place at its own index. */
  function ValidateItems(validate: Validators, name: string, items: seq<Value>): (r: (seq<Value>, seq<ParseError>))
    ensures |r.0| == |items|
    ensures forall k {:trigger r.0[k]} :: 0 <= k < |items| ==> r.0[k] == Replaced(validate(name, items[k]), items[k])
    ensures forall e :: e in r.1 ==> e.Validation?
    decreases |items|
  {
    if items == [] then ([], [])
    else
      var n := |items| - 1;
      var prev := ValidateItems(validate, name, items[..n]);
      var verdict := validate(name, items[n]);
      (prev.0 + [Replaced(verdict, items[n])], prev.1 + Reports(verdict))
  }

  /** An array value reports nothing exactly when no element's validator
      returns a string. */
  lemma {:induction false} ItemReports(validate: Validators, name: string, items: seq<Value>)
    ensures ValidateItems(validate, name, items).1 == [] <==>
      forall k :: 0 <= k < |items| ==> validate(name, items[k]).message.None?
    decreases |items|
  {
    if items != [] {
      var n := |items| - 1;
      var front := items[..n];
      ItemReports(validate, name, front);
      var prev := ValidateItems(validate, name, front).1;
      var last := Reports(validate(name, items[n]));
      assert ValidateItems(validate, name, items).1 == prev + last;
      if prev + last == [] {
        forall k | 0 <= k < |items|
          ensures validate(name, items[k]).message.None?
        {
          if k < n {
            assert front[k] == items[k];
          }
        }
      } else if prev != [] {
        var k :| 0 <= k < n && validate(name, front[k]).message.Some?;
        assert front[k] == items[k];
      }
    }
  }

  /** An array value reports `{validation: m}` exactly when the validator
      returns the string m for one of its elements. */
  lemma {:induction false} ItemMessages(validate: Validators, name: string, items: seq<Value>, m: string)
    ensures Validation(m) in ValidateItems(validate, name, items).1 <==>
      exists k :: 0 <= k < |items| && validate(name, items[k]).message == Some(m)
    decreases |items|
  {
    if items != [] {
      var n := |items| - 1;
      var front := items[..n];
      ItemMessages(validate, name, front, m);
      var prev := ValidateItems(validate, name, front).1;
      var last := Reports(validate(name, items[n]));
      assert ValidateItems(validate, name, items).1 == prev + last;
      if Validation(m) in prev {
        var k :| 0 <= k < n && validate(name, front[k]).message == Some(m);
        assert front[k] == items[k];
      } else if Validation(m) in last {
        assert validate(name, items[n]).message == Some(m);
      } else {
        forall k | 0 <= k < |items|
          ensures validate(name, items[k]).message != Some(m)
        {
          if k < n {
            assert front[k] == items[k];
          }
        }
      }
    }
  }

  /** An option the validation pass looks at: an object config with a
      validator, and a value in the result. */
  predicate Checked(c: Config, name: string, opt: map<string, Value>)
  {
    c.Spec? && c.spec.hasType && name in opt
  }

  /** The validator returns a string for the value, or for one of its
      elements when the value is an array. */
  predicate Complains(validate: Validators, name: string, v: Value)
  {
    match v
    case List(items) => exists k :: 0 <= k < |items| && validate(name, items[k]).message.Some?
    case _ => validate(name, v).message.Some?
  }

  /** One entry of `validateTypes_`: a boolean shorthand, an option
      without a validator and an option absent from the result are passed
      over; an array value is validated element by element, any other
      value as a whole. Only the option's own key can change. */
  function ValidateOption(validate: Validators, name: string, c: Config, opt: map<string, Value>): (r: (map<string, Value>, seq<ParseError>))
    ensures r.0.Keys == opt.Keys
    ensures forall n :: n in opt && n != name ==> r.0[n] == opt[n]
    ensures c.Shorthand? || !c.spec.hasType || name !in opt ==> r == (opt, [])
    ensures forall e :: e in r.1 ==> e.Validation?
    ensures Checked(c, name, opt) && !opt[name].List? ==>
              r.0[name] == Replaced(validate(name, opt[name]), opt[name]) && r.1 == Reports(validate(name, opt[name]))
    ensures Checked(c, name, opt) && opt[name].List? ==>
              r.0[name] == List(ValidateItems(validate, name, opt[name].items).0) &&
              r.1 == ValidateItems(validate, name, opt[name].items).1
  {
    if c.Shorthand? || !c.spec.hasType || name !in opt then (opt, [])
    else
      match opt[name]
      case List(items) =>
        var (vs, calls) := ValidateItems(validate, name, items);
        (opt[name := List(vs)], calls)
      case v =>
        var verdict := validate(name, v);
        (opt[name := Replaced(verdict, v)], Reports(verdict))
  }

  /** One entry reports nothing exactly when its validator returns no
      string for the value, nor for any element of an array value. */
  lemma OptionReports(validate: Validators, name: string, c: Config, opt: map<string, Value>)
    ensures ValidateOption(validate, name, c, opt).1 == [] <==> !(Checked(c, name, opt) && Complains(validate, name, opt[name]))
  {
    if Checked(c, name, opt) && opt[name].List? {
      ItemReports(validate, name, opt[name].items);
    }
  }

  /** `validateTypes_`: the entries of the schema in key order, each one
      working on the result the entries before it left. */
  function ValidateAll(validate: Validators, opts: Opts, opt: map<string, Value>): (r: (map<string, Value>, seq<ParseError>))
    ensures r.0.Keys == opt.Keys
    ensures forall e :: e in r.1 ==> e.Validation?
    decreases |opts|
  {
    if opts == [] then (opt, [])
    else
      var n := |opts| - 1;
      var prev := ValidateAll(validate, opts[..n], opt);
      var last := ValidateOption(validate, opts[n].0, opts[n].1, prev.0);
      (last.0, prev.1 + last.1)
  }

  /** `validateTypes_` on the parse result, with the error callback
      modelled as the sequence of its calls. */
  method ValidateTypes(validate: Validators, opts: Opts, result: TokenParser.ParseResult) returns (calls: seq<ParseError>)
    modifies result`opt
    ensures (result.opt, calls) == ValidateAll(validate, opts, old(result.opt))
  {
    calls := [];
    var i := 0;
    while i < |opts|
      invariant 0 <= i <= |opts|
      invariant (result.opt, calls) == ValidateAll(validate, opts[..i], old(result.opt))
    {
      assert opts[..i + 1][..i] == opts[..i];
      var (name, config) := opts[i];
      var more := ValidateEntry(validate, name, config, result);
      calls := calls + more;
      i := i + 1;
    }
    assert opts[..i] == opts;
  }

  /** The callback `validateTypes_` runs for one entry of the schema. */
  method ValidateEntry(validate: Validators, name: string, config: Config, result: TokenParser.ParseResult) returns (calls: seq<ParseError>)
    modifies result`opt
    ensures (result.opt, calls) == ValidateOption(validate, name, config, old(result.opt))
  {
    calls := [];
    if config.Shorthand? {
      return;
    }
    if name in result.opt && config.spec.hasType {
      var value := result.opt[name];
      if value.List? {
        var items;
        items, calls := ValidateArray(validate, name, value.items);
        result.opt := result.opt[name := List(items)];
      } else {
        var verdict := validate(name, value);
        result.opt := result.opt[name := Replaced(verdict, value)];
        calls := Reports(verdict);
      }
    }
  }

  /** The `forEach` over an array value, each element replaced at its own
      index. */
  method ValidateArray(validate: Validators, name: string, value: seq<Value>) returns (items: seq<Value>, calls: seq<ParseError>)
    ensures (items, calls) == ValidateItems(validate, name, value)
  {
    items := value;
    calls := [];
    var index := 0;
    while index < |value|
      invariant 0 <= index <= |value|
      invariant items == ValidateItems(validate, name, value[..index]).0 + value[index..]
      invariant calls == ValidateItems(validate, name, value[..index]).1
    {
      var verdict := validate(name, value[index]);
      ValidateItemsStep(validate, name, value, index);
      ReplaceNext(ValidateItems(validate, name, value[..index]).0, value, index, Replaced(verdict, value[index]));
      items := items[index := Replaced(verdict, value[index])];
      calls := calls + Reports(verdict);
      index := index + 1;
    }
    assert value[..index] == value && value[index..] == [];
    var r := ValidateItems(validate, name, value);
    assert r.0 + [] == r.0;
  }

  lemma ValidateItemsStep(validate: Validators, name: string, value: seq<Value>, i: nat)
    requires i < |value|
    ensures var verdict := validate(name, value[i]);
      ValidateItems(validate, name, value[..i + 1]) ==
      (ValidateItems(validate, name, value[..i]).0 + [Replaced(verdict, value[i])],
       ValidateItems(validate, name, value[..i]).1 + Reports(verdict))
  {
    assert value[..i + 1][..i] == value[..i];
  }

  /** Replacing the first element of the part not yet visited. */
  lemma ReplaceNext<T>(done: seq<T>, value: seq<T>, i: nat, x: T)
    requires |done| == i < |value|
    ensures (done + value[i..])[i := x] == (done + [x]) + value[i + 1..]
  {
  }

  // ---------------------------------------------------------------------
  // properties of the validation pass

  /** Validation changes only the values of options that have a
      validator. */
  lemma {:induction false} ValidationTouchesTypedOnly(validate: Validators, opts: Opts, opt: map<string, Value>, n: string)
    requires n in opt
    requires forall k :: 0 <= k < |opts| && opts[k].0 == n ==> SpecOf(opts[k].1).hasType == false
    ensures ValidateAll(validate, opts, opt).0[n] == opt[n]
    decreases |opts|
  {
    if opts != [] {
      var m := |opts| - 1;
      assert forall k :: 0 <= k < m ==> opts[..m][k] == opts[k];
      ValidationTouchesTypedOnly(validate, opts[..m], opt, n);
    }
  }

  /** An entry reads and writes only its own option: on two results that
      agree on its name, it reports the same and leaves the same value. */
  lemma OptionIsLocal(validate: Validators, name: string, c: Config, o1: map<string, Value>, o2: map<string, Value>)
    requires name in o1 <==> name in o2
    requires name in o1 ==> o1[name] == o2[name]
    ensures ValidateOption(validate, name, c, o1).1 == ValidateOption(validate, name, c, o2).1
    ensures name in o1 ==> ValidateOption(validate, name, c, o1).0[name] == ValidateOption(validate, name, c, o2).0[name]
  {
  }

  /** The last entry of a schema with distinct names sees the parse result
      as it was: the entries before it changed only their own options. */
  lemma ValidateLast(validate: Validators, opts: Opts, opt: map<string, Value>)
    requires opts != [] && DistinctNames(opts)
    ensures var n := |opts| - 1;
      ValidateAll(validate, opts, opt).1 ==
        ValidateAll(validate, opts[..n], opt).1 + ValidateOption(validate, opts[n].0, opts[n].1, opt).1
    ensures var n := |opts| - 1;
      opts[n].0 in opt ==>
        ValidateAll(validate, opts, opt).0[opts[n].0] == ValidateOption(validate, opts[n].0, opts[n].1, opt).0[opts[n].0]
  {
    var n := |opts| - 1;
    var (name, c) := opts[n];
    var prev := ValidateAll(validate, opts[..n], opt);
    if name in opt {
      ValidationTouchesTypedOnly(validate, opts[..n], opt, name);
    }
    OptionIsLocal(validate, name, c, prev.0, opt);
  }

  /** The validation pass reports nothing exactly when no validated value
      (no element of a validated array) gets a string from its validator. */
  lemma {:induction false} ValidationReports(validate: Validators, opts: Opts, opt: map<string, Value>)
    requires DistinctNames(opts)
    ensures ValidateAll(validate, opts, opt).1 == [] <==>
      forall k :: 0 <= k < |opts| ==> !(Checked(opts[k].1, opts[k].0, opt) && Complains(validate, opts[k].0, opt[opts[k].0]))
    decreases |opts|
  {
    if opts != [] {
      var n := |opts| - 1;
      var front := opts[..n];
      var (name, c) := opts[n];
      assert DistinctNames(front);
      ValidationReports(validate, front, opt);
      var prev := ValidateAll(validate, front, opt);
      ValidateLast(validate, opts, opt);
      OptionReports(validate, name, c, opt);
      var last := ValidateOption(validate, name, c, opt).1;
      if prev.1 + last == [] {
        forall k | 0 <= k < |opts|
          ensures !(Checked(opts[k].1, opts[k].0, opt) && Complains(validate, opts[k].0, opt[opts[k].0]))
        {
          if k < n {
            assert front[k] == opts[k];
          }
        }
      } else if prev.1 != [] {
        var k :| 0 <= k < n && Checked(front[k].1, front[k].0, opt) && Complains(validate, front[k].0, opt[front[k].0]);
        assert front[k] == opts[k];
      }
    }
  }

  /** The validation of one entry on the result reports the message m. */
  predicate EntryReports(validate: Validators, entry: (string, Config), opt: map<string, Value>, m: string)
  {
    Validation(m) in ValidateOption(validate, entry.0, entry.1, opt).1
  }

  /** The validation pass reports `{validation: m}` exactly when the
      validation of some entry on the parse result does. */
  lemma {:induction false} ValidationMessages(validate: Validators, opts: Opts, opt: map<string, Value>, m: string)
    requires DistinctNames(opts)
    ensures Validation(m) in ValidateAll(validate, opts, opt).1 <==>
      exists k :: 0 <= k < |opts| && EntryReports(validate, opts[k], opt, m)
    decreases |opts|
  {
    if opts != [] {
      var n := |opts| - 1;
      var front := opts[..n];
      var (name, c) := opts[n];
      assert DistinctNames(front);
      ValidationMessages(validate, front, opt, m);
      var prev := ValidateAll(validate, front, opt);
      ValidateLast(validate, opts, opt);
      var last := ValidateOption(validate, name, c, opt).1;
      assert Validation(m) in last <==> EntryReports(validate, opts[n], opt, m);
      if Validation(m) in prev.1 {
        var k :| 0 <= k < n && EntryReports(validate, front[k], opt, m);
        assert front[k] == opts[k];
      } else if !(Validation(m) in last) {
        forall k | 0 <= k < |opts|
          ensures !EntryReports(validate, opts[k], opt, m)
        {
          if k < n {
            assert front[k] == opts[k];
          }
        }
      }
    }
  }

  /** Each validated option ends with the value its own validation gives
      the parsed value: `replace` overwrites it, or the array elements at
      their indices, whatever the entries before it did. */
  lemma {:induction false} ValidatedValues(validate: Validators, opts: Opts, opt: map<string, Value>, k: nat)
    requires DistinctNames(opts)
    requires k < |opts| && opts[k].0 in opt
    ensures ValidateAll(validate, opts, opt).0[opts[k].0] == ValidateOption(validate, opts[k].0, opts[k].1, opt).0[opts[k].0]
    decreases |opts|
  {
    var n := |opts| - 1;
    var name := opts[k].0;
    assert forall j :: 0 <= j < n ==> opts[..n][j] == opts[j];
    assert DistinctNames(opts[..n]);
    var prev := ValidateAll(validate, opts[..n], opt);
    if k == n {
      ValidateLast(validate, opts, opt);
    } else {
      ValidatedValues(validate, opts[..n], opt, k);
    }
  }

  /** Validators that never replace leave the result unchanged, whatever
      they report. */
  lemma {:induction false} CheckOnlyKeepsResult(validate: Validators, opts: Opts, opt: map<string, Value>)
    requires forall name, v :: validate(name, v).replacement.None?
    ensures ValidateAll(validate, opts, opt).0 == opt
    decreases |opts|
  {
    if opts != [] {
      var m := |opts| - 1;
      CheckOnlyKeepsResult(validate, opts[..m], opt);
      var (name, c) := opts[m];
      if !(c.Shorthand? || !c.spec.hasType || name !in opt) && opt[name].List? {
        var items := opt[name].items;
        assert ValidateItems(validate, name, items).0 == items;
      }
    }
  }

  /** The integer validator on every typed option: the result is kept,
      and a `{validation: msg}` is reported for each value (each element
      of an array value) that is not an integer. */
  lemma IntValidationKeepsResult(msg: string, opts: Opts, opt: map<string, Value>)
    ensures ValidateAll((name, v) => IntValidator(msg, v), opts, opt).0 == opt
  {
    CheckOnlyKeepsResult((name, v) => IntValidator(msg, v), opts, opt);
  }

  /** The validator of `MultiReplacement`: a non-empty string is replaced
      by the code of its first character, and nothing is reported. */
  function FirstCode(name: string, v: Value): Verdict
  {
    Verdict(if v.Str? && v.s != [] then Some(Num(v.s[0] as int)) else None, None)
  }

  /** A replacement at one index of a `multi` value changes that element
      only: the values `ab`, `ba`, `zzo` of a `multi` option become 97, 98
      and 122 under a validator replacing a value by its first character
      code. */
  lemma MultiReplacement(opts: Opts, opt: map<string, Value>)
    requires opts == [("name", Spec(EmptySpec.(short := "n", multi := true, hasType := true)))]
    requires opt == map["name" := List([Str("ab"), Str("ba"), Str("zzo")])]
    ensures ValidateAll(FirstCode, opts, opt) == (map["name" := List([Num(97), Num(98), Num(122)])], [])
  {
    MultiOption(opts, opt);
    ValidateLast(FirstCode, opts, opt);
    assert opts[..0] == [];
    var all := ValidateAll(FirstCode, opts, opt);
    assert all.0.Keys == {"name"};
    assert all.0 == map["name" := List([Num(97), Num(98), Num(122)])];
  }

  /** The entry of `MultiReplacement` on its own. */
  lemma MultiOption(opts: Opts, opt: map<string, Value>)
    requires opts == [("name", Spec(EmptySpec.(short := "n", multi := true, hasType := true)))]
    requires opt == map["name" := List([Str("ab"), Str("ba"), Str("zzo")])]
    ensures ValidateOption(FirstCode, "name", opts[0].1, opt).0["name"] == List([Num(97), Num(98), Num(122)])
    ensures ValidateOption(FirstCode, "name", opts[0].1, opt).1 == []
  {
    MultiItems([Str("ab"), Str("ba"), Str("zzo")]);
  }

  /** The elements of `MultiReplacement`, each replaced at its index. */
  lemma MultiItems(items: seq<Value>)
    requires items == [Str("ab"), Str("ba"), Str("zzo")]
    ensures ValidateItems(FirstCode, "name", items) == ([Num(97), Num(98), Num(122)], [])
  {
    var r := ValidateItems(FirstCode, "name", items);
    assert r.0[0] == Num(97) && r.0[1] == Num(98) && r.0[2] == Num(122);
    assert r.0 == [Num(97), Num(98), Num(122)];
    ItemReports(FirstCode, "name", items);
    assert forall k :: 0 <= k < |items| ==> FirstCode("name", items[k]).message.None?;
  }

  // ---------------------------------------------------------------------
  // the default error handlers

  /** What an error callback does with one descriptor: return, or throw an
      `Error` with a message. `TypeError` stands for the exception the
      runtime raises when the handler calls a method the payload lacks. */
  datatype Reaction = Return | Throw(message: string) | TypeError

  /** `util.format(template, arg)` for a template with one `%s` and a
      string argument. */
  function Format(template: string, arg: string): string
    decreases |template|
  {
    if |template| < 2 then template
    else if template[..2] == "%s" then arg + template[2..]
    else [template[0]] + Format(template[1..], arg)
  }

  const ErrUnknown := "Unknown option %s"
  const ErrRequired := "Option %s missing required argument"
  const ErrArgument := "Options %s does not take an argument"
  const ErrMissing := "Options %s are required"

  /** The string an array converts to: its elements joined by commas. */
  function SubjectText(s: Subject): string
  {
    match s
    case Word(w) => w
    case Pair(name, inline) => name + "," + inline
  }

  function JoinComma(names: seq<string>): string
    decreases |names|
  {
    if names == [] then "" else if |names| == 1 then names[0] else names[0] + ", " + JoinComma(names[1..])
  }

  /** The payload of a descriptor is truthy: a non-empty string, or an
      array. */
  predicate PayloadTruthy(e: ParseError)
  {
    match e
    case Required(s) => s.Pair? || s.text != ""
    case Unknown(w) => w != ""
    case Argument(n) => n != ""
    case Missing(_) => true
    case MissingName(n) => n != ""
    case Validation(m) => m != ""
  }

  /** `defaultErrorHandler` of options-parser.js: a descriptor with a
      truthy payload throws the formatted message; there is no validation
      branch. */
  function RootDefaultHandler(e: ParseError): (r: Reaction)
    ensures r.Throw? <==> PayloadTruthy(e) && !e.Validation? && !e.MissingName?
    ensures r != TypeError
  {
    match e
    case Required(s) => if PayloadTruthy(e) then Throw(Format(ErrRequired, SubjectText(s))) else Return
    case Argument(n) => if n != "" then Throw(Format(ErrArgument, n)) else Return
    case Missing(names) => Throw(Format(ErrMissing, JoinComma(names)))
    case Unknown(w) => if w != "" then Throw(Format(ErrUnknown, w)) else Return
    case _ => Return
  }

  /** `defaultErrorHandler` of src/options-parser.js as written. The newer
      parser reports each missing option in its own `{missing: name}`,
      with a string payload, while the handler still calls
      `err.missing.join(', ')`, which strings lack. */
  function SrcDefaultHandlerAsWritten(e: ParseError): (r: Reaction)
    ensures e.MissingName? && e.name != "" ==> r == TypeError
  {
    match e
    case Required(s) => if PayloadTruthy(e) then Throw(Format(ErrRequired, SubjectText(s))) else Return
    case Argument(n) => if n != "" then Throw(Format(ErrArgument, n)) else Return
    case Missing(names) => Throw(Format(ErrMissing, JoinComma(names)))
    case MissingName(n) => if n != "" then TypeError else Return
    case Validation(m) => if m != "" then Throw(m) else Return
    case Unknown(w) => if w != "" then Throw(Format(ErrUnknown, w)) else Return
  }

  /** The handler as evidently intended: a single missing name is reported
      with the same message as a list of one. */
  function SrcDefaultHandler(e: ParseError): (r: Reaction)
    ensures r.Throw? <==> PayloadTruthy(e)
    ensures r != TypeError
    ensures e.MissingName? && e.name != "" ==> r == RootDefaultHandler(Missing([e.name]))
    ensures !e.MissingName? ==> r == SrcDefaultHandlerAsWritten(e)
  {
    match e
    case MissingName(n) => if n != "" then Throw(Format(ErrMissing, n)) else Return
    case _ => SrcDefaultHandlerAsWritten(e)
  }

  /** A missing required option makes the handler as written raise a
      `TypeError`, where the intended handler throws "Options <name> are
      required", as options-parser.js does for a list of one name. */
  lemma MissingNameTypeError(name: string)
    requires name != ""
    ensures SrcDefaultHandlerAsWritten(MissingName(name)) == TypeError
    ensures SrcDefaultHandler(MissingName(name)) == Throw("Options " + name + " are required")
    ensures SrcDefaultHandler(MissingName(name)) == RootDefaultHandler(Missing([name]))
  {
    FormatFills("Options ", " are required", name);
    MissingTemplate();
  }

  /** Where the `%s` of the message for missing options sits. */
  lemma MissingTemplate()
    ensures ErrMissing == "Options " + "%s" + " are required"
  {
    var t := "Options " + "%s" + " are required";
    assert |t| == |ErrMissing|;
    assert forall k :: 0 <= k < |t| ==> t[k] == ErrMissing[k];
  }

  /** `%s` is replaced by the argument. */
  lemma {:induction false} FormatFills(prefix: string, suffix: string, arg: string)
    requires '%' !in prefix
    ensures Format(prefix + "%s" + suffix, arg) == prefix + arg + suffix
    decreases |prefix|
  {
    var t := prefix + "%s" + suffix;
    if prefix == [] {
      assert t[..2] == "%s" && t[2..] == suffix;
    } else {
      assert t[..2] != "%s" by { assert t[0] == prefix[0]; }
      assert t[1..] == prefix[1..] + "%s" + suffix;
      FormatFills(prefix[1..], suffix, arg);
      assert [prefix[0]] + (prefix[1..] + arg + suffix) == prefix + arg + suffix;
    }
  }

  /** The first call the handler throws at ends `parse`; the calls before
      it returned. */
  function FirstThrow(handler: ParseError -> Reaction, calls: seq<ParseError>): (r: Option<nat>)
    ensures r.Some? ==> r.value < |calls| && handler(calls[r.value]) != Return &&
                        forall j :: 0 <= j < r.value ==> handler(calls[j]) == Return
    ensures r.None? ==> forall j :: 0 <= j < |calls| ==> handler(calls[j]) == Return
    decreases |calls|
  {
    if calls == [] then None
    else if handler(calls[0]) != Return then Some(0)
    else match FirstThrow(handler, calls[1..])
      case None => None
      case Some(j) => Some(j + 1)
  }
}

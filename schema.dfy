/** The option schema both parsers and the help printer read: an object
    whose keys are option names and whose values configure each option.
    JavaScript iterates the keys in insertion order, so the schema is an
    ordered sequence of (name, config) entries. */
module Schema {
  import opened Common
  import Helper

  /** The options object handed to `help`, which is also what an option's
      `showHelp` holds. Absent settings are written as the JavaScript
      falsy value they read as: an empty separator or banner, zero columns. */
  datatype HelpOptions = HelpOptions(
    paddingLeft: Option<int>,   // Some(n) when a number was given
    separator: string,
    columns: int,
    banner: string,
    skipEmpty: bool,
    noExit: bool,
    hasCallback: bool)

  /** The settings of one option. `short` is "" when there is no alias and
      `flag` is None when the key `flag` is absent, which matters to
      `processHelpArgs_`. `hasType` says whether `type` is a validator
      function; the validator itself is a parameter of the validation pass. */
  datatype OptionSpec = OptionSpec(
    short: string,
    flag: Option<bool>,
    multi: bool,
    required: bool,
    default: Option<Value>,
    varName: string,
    help: string,
    showHelp: Option<HelpOptions>,
    hasType: bool)

  /** An option configured by an object with no settings (also what the
      numeric shorthand `1` reads as). */
  const EmptySpec := OptionSpec("", None, false, false, None, "", "", None, false)

  /** A config: the undocumented boolean shorthands `true`/`false`, or an
      object. */
  datatype Config = Shorthand(b: bool) | Spec(spec: OptionSpec)

  /** The schema, in key order. */
  type Opts = seq<(string, Config)>

  /** The settings a config exposes to property reads: a boolean shorthand
      has none, like the empty object. */
  function SpecOf(c: Config): (s: OptionSpec)
    ensures c.Spec? ==> s == c.spec
    ensures c.Shorthand? ==> s == EmptySpec
  {
    match c
    case Shorthand(_) => EmptySpec
    case Spec(s) => s
  }

  /** A truthy `flag` setting: the option takes no value. */
  predicate IsFlag(s: OptionSpec)
  {
    s.flag == Some(true)
  }

  /** A truthy `default` setting. */
  predicate HasDefault(s: OptionSpec)
  {
    s.default.Some? && Truthy(s.default.value)
  }

  /** The option names, in key order. */
  function Names(opts: Opts): (names: seq<string>)
    ensures |names| == |opts|
    ensures forall k :: 0 <= k < |opts| ==> names[k] == opts[k].0
  {
    if opts == [] then [] else [opts[0].0] + Names(opts[1..])
  }

  /** Object keys are unique. */
  predicate DistinctNames(opts: Opts)
  {
    forall j, k :: 0 <= j < k < |opts| ==> opts[j].0 != opts[k].0
  }

  /** `opts[name]`: the config stored under name, if any. */
  function Find(opts: Opts, name: string): (r: Option<OptionSpec>)
    ensures r.None? <==> forall k :: 0 <= k < |opts| ==> opts[k].0 != name
    ensures r.Some? ==> exists k :: 0 <= k < |opts| && opts[k].0 == name && r.value == SpecOf(opts[k].1)
  {
    if opts == [] then None
    else if opts[0].0 == name then Some(SpecOf(opts[0].1))
    else Find(opts[1..], name)
  }

  // ---------------------------------------------------------------------
  // storing values (shared by both parsers)

  /** Whether the option stored under key is a `multi` option. */
  predicate IsMulti(opts: Opts, key: string)
  {
    var f := Find(opts, key);
    f.Some? && f.value.multi
  }

  /** `setResult(key, value)` in parser.js and `addResultOption(name, value)` in
      src/parser.js: a `multi` option collects its values in a
      list, any other option keeps only the latest one; no other key
      changes. */
  function Store(opts: Opts, result: map<string, Value>, key: string, v: Value): (r: map<string, Value>)
    ensures r.Keys == result.Keys + {key}
    ensures forall k :: k in result && k != key ==> r[k] == result[k]
    ensures !IsMulti(opts, key) ==> r[key] == v
    ensures IsMulti(opts, key) && key in result && result[key].List? ==> r[key] == List(result[key].items + [v])
    ensures IsMulti(opts, key) && key !in result ==> r[key] == List([v])
  {
    if IsMulti(opts, key) then
      if key in result && result[key].List? then result[key := List(result[key].items + [v])]
      else result[key := List([v])]
    else result[key := v]
  }

  /** Setting values one after the other. */
  function SetAll(opts: Opts, result: map<string, Value>, key: string, vs: seq<Value>): map<string, Value>
    decreases |vs|
  {
    if vs == [] then result else SetAll(opts, Store(opts, result, key, vs[0]), key, vs[1..])
  }

  /** A `multi` option that had no value collects all its values, in the
      order they were given. */
  lemma {:induction false} MultiCollectsInOrder(opts: Opts, result: map<string, Value>, key: string, vs: seq<Value>, before: seq<Value>)
    requires IsMulti(opts, key)
    requires if before == [] then key !in result else key in result && result[key] == List(before)
    requires vs != [] || before != []
    ensures key in SetAll(opts, result, key, vs) && SetAll(opts, result, key, vs)[key] == List(before + vs)
    decreases |vs|
  {
    if vs == [] {
      assert before + vs == before;
    } else {
      var r := Store(opts, result, key, vs[0]);
      assert r[key] == List(before + [vs[0]]);
      MultiCollectsInOrder(opts, r, key, vs[1..], before + [vs[0]]);
      assert before + [vs[0]] + vs[1..] == before + vs;
    }
  }

  /** Any other option ends with its last value. */
  lemma {:induction false} LastValueWins(opts: Opts, result: map<string, Value>, key: string, vs: seq<Value>)
    requires !IsMulti(opts, key) && vs != []
    ensures key in SetAll(opts, result, key, vs) && SetAll(opts, result, key, vs)[key] == vs[|vs| - 1]
    decreases |vs|
  {
    if |vs| > 1 {
      LastValueWins(opts, Store(opts, result, key, vs[0]), key, vs[1..]);
    }
  }

  // ---------------------------------------------------------------------
  // the required check and the defaults (shared by both parsers)

  /** The reference list of missing options: the `required` options absent
      from the result, in key order. */
  function RequiredAbsent(opts: Opts, result: map<string, Value>): (names: seq<string>)
    ensures forall n :: n in names ==> n !in result
    ensures forall k :: 0 <= k < |opts| && SpecOf(opts[k].1).required && opts[k].0 !in result ==> opts[k].0 in names
    decreases |opts|
  {
    if opts == [] then []
    else (if SpecOf(opts[0].1).required && opts[0].0 !in result then [opts[0].0] else []) + RequiredAbsent(opts[1..], result)
  }

  lemma {:induction false} RequiredAbsentIgnores(opts: Opts, result: map<string, Value>, name: string, v: Value)
    requires forall k :: 0 <= k < |opts| ==> opts[k].0 != name
    ensures RequiredAbsent(opts, result[name := v]) == RequiredAbsent(opts, result)
    decreases |opts|
  {
    if opts != [] {
      RequiredAbsentIgnores(opts[1..], result, name, v);
    }
  }

  /** One step of injecting defaults: an absent option with a truthy
      default receives it. */
  function DefaultStep(result: map<string, Value>, name: string, c: Config): map<string, Value>
  {
    var spec := SpecOf(c);
    if HasDefault(spec) && name !in result then result[name := spec.default.value] else result
  }

  /** A value already present is never replaced by a default, and every
      option with a truthy default ends up present. */
  lemma {:induction false} DefaultsKeepSupplied(opts: Opts, result: map<string, Value>)
    ensures var r := Helper.FoldEntries(opts, DefaultStep, result);
      (forall n :: n in result ==> n in r && r[n] == result[n]) &&
      (forall k :: 0 <= k < |opts| && HasDefault(SpecOf(opts[k].1)) ==> opts[k].0 in r)
    decreases |opts|
  {
    if opts != [] {
      var filled := DefaultStep(result, opts[0].0, opts[0].1);
      DefaultsKeepSupplied(opts[1..], filled);
      var r := Helper.FoldEntries(opts, DefaultStep, result);
      forall k | 0 <= k < |opts| && HasDefault(SpecOf(opts[k].1))
        ensures opts[k].0 in r
      {
        if k > 0 {
          assert opts[1..][k - 1] == opts[k];
        }
      }
    }
  }

  /** Defaults fill only absent options: every value already present is
      kept, every absent option with a truthy default receives it, and no
      other key appears. */
  lemma {:induction false} DefaultsFillAbsent(opts: Opts, result: map<string, Value>)
    requires DistinctNames(opts)
    ensures var r := Helper.FoldEntries(opts, DefaultStep, result);
      (forall n :: n in result ==> n in r && r[n] == result[n]) &&
      (forall j :: 0 <= j < |opts| && opts[j].0 !in result && HasDefault(SpecOf(opts[j].1)) ==>
         opts[j].0 in r && r[opts[j].0] == SpecOf(opts[j].1).default.value) &&
      (forall n :: n in r && n !in result ==> exists j :: 0 <= j < |opts| && opts[j].0 == n && HasDefault(SpecOf(opts[j].1)))
    decreases |opts|
  {
    if opts != [] {
      var filled := DefaultStep(result, opts[0].0, opts[0].1);
      assert DistinctNames(opts[1..]);
      DefaultsFillAbsent(opts[1..], filled);
      var r := Helper.FoldEntries(opts, DefaultStep, result);
      assert r == Helper.FoldEntries(opts[1..], DefaultStep, filled);
      forall j | 0 <= j < |opts| && opts[j].0 !in result && HasDefault(SpecOf(opts[j].1))
        ensures opts[j].0 in r && r[opts[j].0] == SpecOf(opts[j].1).default.value
      {
        if j > 0 {
          assert opts[1..][j - 1] == opts[j];
        }
      }
      forall n | n in r && n !in result
        ensures exists j :: 0 <= j < |opts| && opts[j].0 == n && HasDefault(SpecOf(opts[j].1))
      {
        if n !in filled {
          var j :| 0 <= j < |opts[1..]| && opts[1..][j].0 == n && HasDefault(SpecOf(opts[1..][j].1));
          assert opts[j + 1] == opts[1..][j];
        }
      }
    }
  }
}

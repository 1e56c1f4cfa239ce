/** The newer parser of src/parser.js: a `Parser` object that reads a
    stream of classified tokens. It never stops at a problem: unknown
    options, missing and unexpected values and unclassified tokens are
    collected in lists, defaults are filled in, absent required options are
    listed, and only then is every collected problem handed to the error
    callback, in a fixed order. The classifier that turns words into tokens
    (src/tokenizer.js) is not part of this model: the parser reads a
    sequence of tokens. */
module TokenParser {
  import opened Common
  import opened Schema
  import Helper
  import RootParser

  // ---------------------------------------------------------------------
  // tokens and the token cursor

  /** A classified word: `VALUE`, `SHORT_ARG`, `LONG_ARG`,
      `LONG_ARG_WITH_VALUE` (whose value is the pair [name, value]), or a
      token of any other type. */
  datatype Token =
    | ValueToken(text: string)
    | ShortArg(text: string)
    | LongArg(text: string)
    | LongArgWithValue(name: string, inline: string)
    | OtherToken(text: string)

  predicate IsOptionToken(t: Token)
  {
    t.ShortArg? || t.LongArg? || t.LongArgWithValue?
  }

  /** The cursor over the tokens: `isEof`, `peek` and `next`. */
  class TokenStream {
    const tokens: seq<Token>
    var pos: nat

    constructor(tokens: seq<Token>)
      ensures this.tokens == tokens && pos == 0
    {
      this.tokens := tokens;
      pos := 0;
    }

    predicate IsEof()
      reads this
    {
      pos >= |tokens|
    }

    /** `peek().getType() == TokenType.VALUE`. Past the last token the
        cursor is taken to report a token that is not a VALUE. */
    predicate PeekIsValue()
      reads this
    {
      pos < |tokens| && tokens[pos].ValueToken?
    }

    method Next() returns (t: Token)
      requires pos < |tokens|
      modifies this
      ensures t == tokens[old(pos)] && pos == old(pos) + 1
    {
      t := tokens[pos];
      pos := pos + 1;
    }
  }

  // ---------------------------------------------------------------------
  // the constructor's preparation of the schema

  /** One step of `generateAliasMap`: a config with a non-empty `short`
      maps that alias to the option's name. */
  function AliasStep(alias: map<string, string>, name: string, c: Config): map<string, string>
  {
    var s := SpecOf(c).short;
    if s != "" then alias[s := name] else alias
  }

  /** `generateAliasMap`, read from the schema before it is normalised:
      its keys are the non-empty `short` values declared, each mapped to
      the last option, in key order, that declares it. */
  function AliasMap(opts: Opts): (alias: map<string, string>)
    ensures forall s :: s in alias <==> s != "" && LastAlias(opts, s).Some?
    ensures forall s :: s in alias ==> alias[s] == LastAlias(opts, s).value
  {
    AliasMapLastWins(opts, map[]);
    Helper.FoldEntries(opts, AliasStep, map[])
  }

  /** The reference definition: the name of the last option, in key order,
      whose `short` is s. */
  function LastAlias(opts: Opts, s: string): (r: Option<string>)
    ensures r.Some? <==> exists k :: 0 <= k < |opts| && SpecOf(opts[k].1).short == s
    ensures r.Some? ==> exists k :: 0 <= k < |opts| && SpecOf(opts[k].1).short == s && opts[k].0 == r.value &&
                          forall j :: k < j < |opts| ==> SpecOf(opts[j].1).short != s
    decreases |opts|
  {
    if opts == [] then None
    else
      var n := |opts| - 1;
      if SpecOf(opts[n].1).short == s then Some(opts[n].0)
      else
        var r := LastAlias(opts[..n], s);
        assert forall k :: 0 <= k < n ==> opts[..n][k] == opts[k];
        r
  }

  /** Every non-empty alias maps to the last option that declares it (a
      later duplicate overwrites an earlier one); other keys keep what the
      map held; the empty string never becomes a key. */
  lemma {:induction false} AliasMapLastWins(opts: Opts, acc: map<string, string>)
    ensures var r := Helper.FoldEntries(opts, AliasStep, acc);
      forall s :: s != "" ==>
        (LastAlias(opts, s).Some? ==> s in r && r[s] == LastAlias(opts, s).value) &&
        (LastAlias(opts, s).None? ==> (s in r <==> s in acc) && (s in acc ==> r[s] == acc[s]))
    ensures "" in Helper.FoldEntries(opts, AliasStep, acc) <==> "" in acc
    decreases |opts|
  {
    if opts != [] {
      var n := |opts| - 1;
      assert opts == opts[..n] + [opts[n]];
      Helper.FoldEntriesAppend(opts[..n], [opts[n]], AliasStep, acc);
      AliasMapLastWins(opts[..n], acc);
      var mid := Helper.FoldEntries(opts[..n], AliasStep, acc);
      assert Helper.FoldEntries([opts[n]], AliasStep, mid) == AliasStep(mid, opts[n].0, opts[n].1);
    }
  }

  /** `normalizeConfig` on one config: the shorthand `true` becomes
      `{flag: false}`, `false` becomes `{flag: true}`; an object is kept. */
  function Normalize(c: Config): (r: Config)
    ensures r.Spec?
    ensures c.Spec? ==> r == c
    ensures c.Shorthand? ==> (IsFlag(r.spec) <==> !c.b) && r.spec.(flag := None) == EmptySpec
  {
    match c
    case Shorthand(b) => Spec(EmptySpec.(flag := Some(!b)))
    case Spec(_) => c
  }

  /** `normalizeConfig` on the schema: names and their order are kept,
      every config becomes an object, objects are unchanged, and a
      shorthand is a flag exactly when it was `false`, with no other
      setting. */
  function NormalizeAll(opts: Opts): (r: Opts)
    ensures |r| == |opts|
    ensures forall k :: 0 <= k < |opts| ==> r[k].0 == opts[k].0 && r[k].1.Spec?
    ensures forall k :: 0 <= k < |opts| && opts[k].1.Spec? ==> r[k].1 == opts[k].1
    ensures forall k :: 0 <= k < |opts| && opts[k].1.Shorthand? ==>
      (IsFlag(r[k].1.spec) <==> !opts[k].1.b) && r[k].1.spec.(flag := None) == EmptySpec
    decreases |opts|
  {
    if opts == [] then [] else [(opts[0].0, Normalize(opts[0].1))] + NormalizeAll(opts[1..])
  }

  /** The shorthand `false` means opposite things to the two parsers:
      parser.js reads it as an option that takes a value, src/parser.js as
      a flag. */
  lemma {:induction false} FalseShorthandDiffers(opts: Opts, k: nat)
    requires k < |opts| && opts[k].1 == Shorthand(false) && |opts[k].0| != 1
    requires forall j :: 0 <= j < k ==> opts[j].0 != opts[k].0
    ensures RootParser.LookupArg(opts, opts[k].0) == Some((opts[k].0, true))
    ensures Find(NormalizeAll(opts), opts[k].0).Some? && IsFlag(Find(NormalizeAll(opts), opts[k].0).value)
    decreases k
  {
    assert Find(opts, opts[k].0) == Some(EmptySpec) by { FindFirst(opts, k); }
    var r := NormalizeAll(opts);
    assert r[k] == (opts[k].0, Spec(EmptySpec.(flag := Some(true))));
    FindFirst(r, k);
  }

  /** `opts[name]` finds the first entry carrying the name. */
  lemma {:induction false} FindFirst(opts: Opts, k: nat)
    requires k < |opts| && forall j :: 0 <= j < k ==> opts[j].0 != opts[k].0
    ensures Find(opts, opts[k].0) == Some(SpecOf(opts[k].1))
    decreases k
  {
    if k > 0 {
      FindFirst(opts[1..], k - 1);
    }
  }

  // ---------------------------------------------------------------------
  // getTruthValue

  predicate StartsWith(s: string, p: string)
  {
    |p| <= |s| && s[..|p|] == p
  }

  predicate EndsWith(s: string, p: string)
  {
    |p| <= |s| && s[|s| - |p|..] == p
  }

  /** `getTruthValue`: an empty value is true; otherwise the expression
      `/^(yes|1|true)|(no|0|false)$/i` is searched for. Its first
      alternative is anchored at the start only and the second at the end
      only, so a value that starts with yes, 1 or true is true, otherwise
      one that ends with no, 0 or false is false, and anything else is
      rejected (None stands for `null`). Every word parser.js accepts for
      a flag is read the same way, and a rejected word is one parser.js
      rejects too. */
  function GetTruthValue(value: string): (r: Option<bool>)
    ensures value == "" ==> r == Some(true)
    ensures RootParser.IsTrueWord(value) ==> r == Some(true)
    ensures RootParser.IsFalseWord(value) ==> r == Some(false)
    ensures r.None? ==> value != "" && !RootParser.IsTrueWord(value) && !RootParser.IsFalseWord(value)
  {
    if value == "" then Some(true)
    else
      var t := Lower(value);
      TruthWordsMatch(t);
      if StartsWith(t, "yes") || StartsWith(t, "1") || StartsWith(t, "true") then Some(true)
      else if EndsWith(t, "no") || EndsWith(t, "0") || EndsWith(t, "false") then Some(false)
      else None
  }

  lemma {:induction false} LowerAppend(a: string, b: string)
    ensures Lower(a + b) == Lower(a) + Lower(b)
    decreases |a|
  {
    if a == [] {
      assert a + b == b;
    } else {
      assert (a + b)[0] == a[0] && (a + b)[1..] == a[1..] + b;
      LowerAppend(a[1..], b);
      Helper.SeqAssoc(Lower(a[1..]), LowerChar(a[0]), Lower(b));
    }
  }

  /** The whole words `yes`, `1` and `true` match the first alternative;
      `no`, `0` and `false` match only the second. */
  lemma TruthWordsMatch(t: string)
    ensures t == "yes" || t == "1" || t == "true" ==> StartsWith(t, "yes") || StartsWith(t, "1") || StartsWith(t, "true")
    ensures t == "no" || t == "0" || t == "false" ==>
              !StartsWith(t, "yes") && !StartsWith(t, "1") && !StartsWith(t, "true") &&
              (EndsWith(t, "no") || EndsWith(t, "0") || EndsWith(t, "false"))
  {
    if t == "no" || t == "0" || t == "false" {
      assert !StartsWith(t, "yes") && !StartsWith(t, "1") && !StartsWith(t, "true") by {
        if t == "false" { assert t[..1] == "f" && t[..3] == "fal" && t[..4] == "fals"; }
        else if t == "no" { assert t[..1] == "n"; }
        else { assert t[..1] == "0"; }
      }
      if t == "no" { assert EndsWith(t, "no"); }
      else if t == "0" { assert EndsWith(t, "0"); }
      else { assert EndsWith(t, "false"); }
    }
    if t == "yes" || t == "1" || t == "true" {
      if t == "yes" { assert StartsWith(t, "yes"); }
      else if t == "1" { assert StartsWith(t, "1"); }
      else { assert StartsWith(t, "true"); }
    }
  }

  /** Any value starting with yes, 1 or true, in any case, is true, and
      whatever follows is ignored. */
  lemma TruthPrefixWins(p: string, rest: string)
    requires Lower(p) == "yes" || Lower(p) == "1" || Lower(p) == "true"
    ensures GetTruthValue(p + rest) == Some(true)
  {
    LowerAppend(p, rest);
    var t := Lower(p + rest);
    assert t[..|p|] == Lower(p);
  }

  /** Lower case leaves a text without capitals as it is. */
  lemma LowerKeeps(s: string)
    requires forall k :: 0 <= k < |s| ==> !('A' <= s[k] <= 'Z')
    ensures Lower(s) == s
  {
  }

  /** The looser matching in src/parser.js: a word parser.js rejects is
      read as true because of how it starts, even when its end alone
      would read as false... */
  lemma LooseTrueWord()
    ensures GetTruthValue("10") == Some(true)
    ensures !RootParser.IsTrueWord("10") && !RootParser.IsFalseWord("10")
  {
    LowerKeeps("10");
    assert "10"[..1] == "1";
  }

  /** ... or as false because of how it ends ... */
  lemma LooseFalseWord()
    ensures GetTruthValue("piano") == Some(false)
    ensures !RootParser.IsTrueWord("piano") && !RootParser.IsFalseWord("piano")
  {
    LowerKeeps("piano");
    PianoEnds();
  }

  lemma PianoEnds()
    ensures !StartsWith("piano", "yes") && !StartsWith("piano", "1") && !StartsWith("piano", "true")
    ensures EndsWith("piano", "no")
    ensures "piano" != "false" && "piano" != "true"
  {
    var t := "piano";
    assert t[..1] == "p" && t[..3] == "pia" && t[..4] == "pian" && t[3..] == "no";
    assert t != "false" by { assert t[0] != "false"[0]; }
  }

  /** ... while a word matching neither end is still rejected. */
  lemma UnmatchedWord()
    ensures GetTruthValue("maybe") == None
  {
    LowerKeeps("maybe");
    MaybeMatchesNeither();
  }

  lemma MaybeMatchesNeither()
    ensures !StartsWith("maybe", "yes") && !StartsWith("maybe", "1") && !StartsWith("maybe", "true")
    ensures !EndsWith("maybe", "no") && !EndsWith("maybe", "0") && !EndsWith("maybe", "false")
  {
    var t := "maybe";
    assert t[..1] == "m" && t[..3] == "may" && t[..4] == "mayb";
    assert t[4..] == "e" && t[3..] == "be" && t[0..] == t;
    assert t != "false" by { assert t[0] != "false"[0]; }
  }

  // ---------------------------------------------------------------------
  // the token loop as a function

  /** The error lists of `this.errors`: `required`, `unknown`,
      `expected_value`, `unexpected_value` and `invalid`. */
  datatype ErrorLists = ErrorLists(
    required: seq<string>,
    unknown: seq<string>,
    expectedValue: seq<Subject>,
    unexpectedValue: seq<string>,
    invalid: seq<string>)

  const NoErrors := ErrorLists([], [], [], [], [])

  /** What the loop has gathered: `result.opt`, `result.args` and the
      error lists. */
  datatype Collected = Collected(opt: map<string, Value>, args: seq<string>, errors: ErrorLists)

  datatype Cursor = Cursor(pos: nat, col: Collected)

  /** The option an option token names: a short option goes through the
      alias map and falls back to the raw character (also when the alias
      names the empty-string option, which is falsy). */
  function OptionName(alias: map<string, string>, t: Token): string
  {
    if t.ShortArg? then (if t.text in alias && alias[t.text] != "" then alias[t.text] else t.text)
    else if t.LongArgWithValue? then t.name
    else t.text
  }

  /** `argumentValue`: the inline value of `--name=value`, else "". */
  function Inline(t: Token): string
  {
    if t.LongArgWithValue? then t.inline else ""
  }

  /** The token's own value, as pushed to `expected_value`: the raw word,
      or the pair [name, value]. */
  function SubjectOf(t: Token): Subject
  {
    if t.LongArgWithValue? then Pair(t.name, t.inline) else Word(t.text)
  }

  /** Whether an option token makes the loop look at the next token: it
      names a known option that takes a value and carries no inline value. */
  predicate TakesNext(config: Opts, alias: map<string, string>, t: Token)
  {
    IsOptionToken(t) && Find(config, OptionName(alias, t)).Some? &&
    !IsFlag(Find(config, OptionName(alias, t)).value) && Inline(t) == ""
  }

  /** One pass of the body of the `while` loop of `parse`, reading the
      token at i (and the next one when a value is taken from it). */
  function Step(config: Opts, alias: map<string, string>, tokens: seq<Token>, i: nat, c: Collected): (r: Cursor)
    requires i < |tokens|
    ensures i < r.pos <= |tokens|
  {
    var t := tokens[i];
    if t.ValueToken? then Cursor(i + 1, c.(args := c.args + [t.text]))
    else if t.OtherToken? then Cursor(i + 1, c.(errors := c.errors.(invalid := c.errors.invalid + [t.text])))
    else
      var name := OptionName(alias, t);
      var found := Find(config, name);
      if found.None? then Cursor(i + 1, c.(errors := c.errors.(unknown := c.errors.unknown + [name])))
      else if IsFlag(found.value) then
        var truth := GetTruthValue(Inline(t));
        if truth.None? then Cursor(i + 1, c.(errors := c.errors.(unexpectedValue := c.errors.unexpectedValue + [name])))
        else Cursor(i + 1, c.(opt := Store(config, c.opt, name, Bool(truth.value))))
      else if Inline(t) != "" then Cursor(i + 1, c.(opt := Store(config, c.opt, name, Str(Inline(t)))))
      else if i + 1 < |tokens| && tokens[i + 1].ValueToken? then
        Cursor(i + 2, c.(opt := Store(config, c.opt, name, Str(tokens[i + 1].text))))
      else Cursor(i + 1, c.(errors := c.errors.(expectedValue := c.errors.expectedValue + [SubjectOf(t)])))
  }

  /** The whole `while(!tokenizer.isEof())` loop from token i on. */
  function Consume(config: Opts, alias: map<string, string>, tokens: seq<Token>, i: nat, c: Collected): Collected
    decreases |tokens| - i
  {
    if i >= |tokens| then c
    else
      var r := Step(config, alias, tokens, i, c);
      Consume(config, alias, tokens, r.pos, r.col)
  }

  /** After the loop: `setDefaults`, then the required check. */
  function Finish(config: Opts, c: Collected): Collected
  {
    var opt := Helper.FoldEntries(config, DefaultStep, c.opt);
    c.(opt := opt, errors := c.errors.(required := c.errors.required + RequiredAbsent(config, opt)))
  }

  /** `handleErrors`: the descriptors handed to the error callback, in
      order — `argument` for each unexpected value, `required` for each
      expected value, `unknown`, `missing` (one name per call), and
      `unknown` again for each unclassified token. */
  function ErrorCalls(e: ErrorLists): seq<ParseError>
  {
    Described(e.unexpectedValue, AsArgument) + Described(e.expectedValue, AsRequired) +
    Described(e.unknown, AsUnknown) + Described(e.required, AsMissingName) + Described(e.invalid, AsUnknown)
  }

  /** One descriptor per element of a list, in order. */
  function Described<T>(list: seq<T>, describe: T -> ParseError): (r: seq<ParseError>)
    ensures |r| == |list|
    ensures forall k :: 0 <= k < |list| ==> r[k] == describe(list[k])
  {
    seq(|list|, k requires 0 <= k < |list| => describe(list[k]))
  }

  function AsArgument(name: string): ParseError { Argument(name) }
  function AsRequired(subject: Subject): ParseError { Required(subject) }
  function AsUnknown(word: string): ParseError { Unknown(word) }
  function AsMissingName(name: string): ParseError { MissingName(name) }

  /** What `parse(opts, argv, error)` produces: the result `{opt, args}`,
      which it returns whatever the callback did, and the callback's calls. */
  datatype Outcome = Outcome(opt: map<string, Value>, args: seq<string>, calls: seq<ParseError>)

  function ParseSpec(opts: Opts, tokens: seq<Token>): Outcome
  {
    var config := NormalizeAll(opts);
    var c := Finish(config, Consume(config, AliasMap(opts), tokens, 0, Collected(map[], [], NoErrors)));
    Outcome(c.opt, c.args, ErrorCalls(c.errors))
  }

  // ---------------------------------------------------------------------
  // the objects

  /** `this.result`, returned by `parse` and later rewritten in place by
      the type validation. */
  class ParseResult {
    var opt: map<string, Value>
    var args: seq<string>

    constructor()
      ensures opt == map[] && args == []
    {
      opt := map[];
      args := [];
    }
  }

  class Parser {
    var config: Opts
    var alias: map<string, string>
    var errors: ErrorLists
    /** The descriptors the error callback has received, in order. */
    var calls: seq<ParseError>
    const argv: seq<Token>
    const result: ParseResult

    constructor(opts: Opts, argv: seq<Token>)
      ensures this.argv == argv && config == NormalizeAll(opts) && alias == AliasMap(opts)
      ensures errors == NoErrors && calls == []
      ensures fresh(result) && result.opt == map[] && result.args == []
    {
      config := opts;
      this.argv := argv;
      errors := NoErrors;
      calls := [];
      result := new ParseResult();
      new;
      GenerateAliasMap();
      NormalizeConfig();
    }

    method GenerateAliasMap()
      modifies this`alias
      ensures alias == AliasMap(config)
    {
      alias := Helper.Reduce(config, AliasStep, map[]);
    }

    method NormalizeConfig()
      modifies this`config
      ensures config == NormalizeAll(old(config))
    {
      config := NormalizeAll(config);
    }

    function Current(): Collected
      reads this, result
    {
      Collected(result.opt, result.args, errors)
    }

    /** `setDefaults`: the forEach over the schema. */
    method SetDefaults()
      modifies result`opt
      ensures result.opt == Helper.FoldEntries(config, DefaultStep, old(result.opt))
    {
      var i := 0;
      while i < |config|
        invariant 0 <= i <= |config|
        invariant Helper.FoldEntries(config[i..], DefaultStep, result.opt) == Helper.FoldEntries(config, DefaultStep, old(result.opt))
      {
        assert config[i..][1..] == config[i + 1..];
        var name := config[i].0;
        var spec := SpecOf(config[i].1);
        if HasDefault(spec) && name !in result.opt {
          result.opt := result.opt[name := spec.default.value];
        }
        i := i + 1;
      }
    }

    method AddResultOption(name: string, value: Value)
      modifies result`opt
      ensures result.opt == Store(config, old(result.opt), name, value)
    {
      if IsMulti(config, name) {
        if name in result.opt && result.opt[name].List? {
          result.opt := result.opt[name := List(result.opt[name].items + [value])];
        } else {
          result.opt := result.opt[name := List([value])];
        }
      } else {
        result.opt := result.opt[name := value];
      }
    }

    method AddResultArg(value: string)
      modifies result`args
      ensures result.args == old(result.args) + [value]
    {
      result.args := result.args + [value];
    }

    /** The check after the defaults: every `required` option absent from
        the result is pushed to `errors.required`, in key order. */
    method CheckRequired()
      modifies this`errors
      ensures errors == old(errors).(required := old(errors).required + RequiredAbsent(config, result.opt))
    {
      var i := 0;
      while i < |config|
        invariant 0 <= i <= |config|
        invariant errors.required + RequiredAbsent(config[i..], result.opt) == old(errors).required + RequiredAbsent(config, result.opt)
        invariant errors == old(errors).(required := errors.required)
      {
        assert config[i..][1..] == config[i + 1..];
        var name := config[i].0;
        ghost var here := if SpecOf(config[i].1).required && name !in result.opt then [name] else [];
        assert RequiredAbsent(config[i..], result.opt) == here + RequiredAbsent(config[i + 1..], result.opt);
        Helper.SeqAppendAssoc(errors.required, here, RequiredAbsent(config[i + 1..], result.opt));
        if SpecOf(config[i].1).required && name !in result.opt {
          errors := errors.(required := errors.required + [name]);
        } else {
          assert errors.required + here == errors.required;
        }
        i := i + 1;
      }
      assert config[i..] == [];
      assert errors.required + [] == errors.required;
    }

    method InvokeErrorHandler(e: ParseError)
      modifies this`calls
      ensures calls == old(calls) + [e]
    {
      calls := calls + [e];
    }

    /** `list.forEach(this.invokeErrorHandler.bind(this, type))`. */
    method ReportAll<T>(list: seq<T>, describe: T -> ParseError)
      modifies this`calls
      ensures calls == old(calls) + Described(list, describe)
    {
      var i := 0;
      while i < |list|
        invariant 0 <= i <= |list|
        invariant calls == old(calls) + Described(list[..i], describe)
      {
        InvokeErrorHandler(describe(list[i]));
        i := i + 1;
      }
    }

    method HandleErrors()
      modifies this`calls
      ensures calls == old(calls) + ErrorCalls(errors)
    {
      ghost var start := calls;
      ghost var a := Described(errors.unexpectedValue, AsArgument);
      ghost var b := Described(errors.expectedValue, AsRequired);
      ghost var c := Described(errors.unknown, AsUnknown);
      ghost var d := Described(errors.required, AsMissingName);
      ReportAll(errors.unexpectedValue, AsArgument);
      ReportAll(errors.expectedValue, AsRequired);
      Helper.SeqAppendAssoc(start, a, b);
      ReportAll(errors.unknown, AsUnknown);
      Helper.SeqAppendAssoc(start, a + b, c);
      ReportAll(errors.required, AsMissingName);
      Helper.SeqAppendAssoc(start, a + b + c, d);
      ReportAll(errors.invalid, AsUnknown);
      Helper.SeqAppendAssoc(start, a + b + c + d, Described(errors.invalid, AsUnknown));
    }

    /** The body of the token loop. */
    method ConsumeToken(stream: TokenStream)
      requires stream.tokens == argv && stream.pos < |argv|
      modifies this`errors, result, stream
      ensures Cursor(stream.pos, Current()) == Step(config, alias, argv, old(stream.pos), old(Current()))
    {
      var t := stream.Next();
      if t.ValueToken? {
        AddResultArg(t.text);
        return;
      }
      if t.OtherToken? {
        errors := errors.(invalid := errors.invalid + [t.text]);
        return;
      }
      var name := OptionName(alias, t);
      var argumentValue := Inline(t);
      var found := Find(config, name);
      if found.None? {
        errors := errors.(unknown := errors.unknown + [name]);
      } else if IsFlag(found.value) {
        var value := GetTruthValue(argumentValue);
        if value.None? {
          errors := errors.(unexpectedValue := errors.unexpectedValue + [name]);
        } else {
          AddResultOption(name, Bool(value.value));
        }
      } else if argumentValue != "" {
        AddResultOption(name, Str(argumentValue));
      } else if !stream.PeekIsValue() {
        errors := errors.(expectedValue := errors.expectedValue + [SubjectOf(t)]);
      } else {
        var next := stream.Next();
        AddResultOption(name, Str(next.text));
      }
    }

    /** `parse`: the token loop, the defaults, the required check and the
        error report; the result object is returned. */
    method Parse() returns (r: ParseResult)
      modifies this`errors, this`calls, result
      ensures r == result
      ensures Current() == Finish(config, Consume(config, alias, argv, 0, old(Current())))
      ensures calls == old(calls) + ErrorCalls(errors)
    {
      var stream := new TokenStream(argv);
      while !stream.IsEof()
        invariant stream.tokens == argv && stream.pos <= |argv|
        invariant Consume(config, alias, argv, stream.pos, Current()) == Consume(config, alias, argv, 0, old(Current()))
        invariant calls == old(calls)
        decreases |argv| - stream.pos
      {
        ConsumeToken(stream);
      }
      SetDefaults();
      CheckRequired();
      HandleErrors();
      r := result;
    }
  }

  /** `parse(opts, argv, error)`: a new `Parser` over the tokens. */
  method ParseTokens(opts: Opts, argv: seq<Token>) returns (result: ParseResult, calls: seq<ParseError>)
    ensures fresh(result)
    ensures Outcome(result.opt, result.args, calls) == ParseSpec(opts, argv)
  {
    var parser := new Parser(opts, argv);
    result := parser.Parse();
    calls := parser.calls;
  }

  // ---------------------------------------------------------------------
  // properties of the parse

  /** The name a token contributes to `errors.unknown`, if any. */
  function UnknownOf(config: Opts, alias: map<string, string>, t: Token): seq<string>
  {
    if IsOptionToken(t) && Find(config, OptionName(alias, t)).None? then [OptionName(alias, t)] else []
  }

  /** The text a token contributes to `errors.invalid`, if any. */
  function UnclassifiedOf(t: Token): seq<string>
  {
    if t.OtherToken? then [t.text] else []
  }

  /** The reference lists, from token i on: the names of unknown options,
      the values of unclassified tokens and the VALUE texts, in order. */
  function UnknownFrom(config: Opts, alias: map<string, string>, tokens: seq<Token>, i: nat): seq<string>
    decreases |tokens| - i
  {
    if i >= |tokens| then [] else UnknownOf(config, alias, tokens[i]) + UnknownFrom(config, alias, tokens, i + 1)
  }

  function UnclassifiedFrom(tokens: seq<Token>, i: nat): seq<string>
    decreases |tokens| - i
  {
    if i >= |tokens| then [] else UnclassifiedOf(tokens[i]) + UnclassifiedFrom(tokens, i + 1)
  }

  function ValuesFrom(tokens: seq<Token>, i: nat): seq<string>
    decreases |tokens| - i
  {
    if i >= |tokens| then [] else (if tokens[i].ValueToken? then [tokens[i].text] else []) + ValuesFrom(tokens, i + 1)
  }

  /** What one pass of the loop does to the lists: it moves one token on,
      or two when the second is a VALUE taken by the first; it adds the
      token's unknown name or unclassified value, if any; it never touches
      `errors.required`; and unless the token takes the next one, a VALUE
      token's text is appended to args and nothing else is. */
  lemma StepFacts(config: Opts, alias: map<string, string>, tokens: seq<Token>, i: nat, c: Collected)
    requires i < |tokens|
    ensures var r := Step(config, alias, tokens, i, c);
      (r.pos == i + 1 || (r.pos == i + 2 && TakesNext(config, alias, tokens[i]) && tokens[i + 1].ValueToken?)) &&
      r.col.errors.unknown == c.errors.unknown + UnknownOf(config, alias, tokens[i]) &&
      r.col.errors.invalid == c.errors.invalid + UnclassifiedOf(tokens[i]) &&
      r.col.errors.required == c.errors.required &&
      (!TakesNext(config, alias, tokens[i]) ==> r.pos == i + 1 && r.col.args == c.args + (if tokens[i].ValueToken? then [tokens[i].text] else []))
  {
    var t := tokens[i];
    if !t.ValueToken? && !t.OtherToken? {
      var found := Find(config, OptionName(alias, t));
      if found.Some? && IsFlag(found.value) {
        var truth := GetTruthValue(Inline(t));
      }
    }
  }

  /** One pass of the loop from i, then the rest of the loop. */
  lemma ConsumeStep(config: Opts, alias: map<string, string>, tokens: seq<Token>, i: nat, c: Collected) returns (r: Cursor)
    requires i < |tokens|
    ensures r == Step(config, alias, tokens, i, c)
    ensures Consume(config, alias, tokens, i, c) == Consume(config, alias, tokens, r.pos, r.col)
  {
    r := Step(config, alias, tokens, i, c);
  }

  /** No problem stops the loop: every unknown option is collected, in
      order, wherever it appears, and the loop itself never lists a
      required option. */
  lemma {:induction false} UnknownCollected(config: Opts, alias: map<string, string>, tokens: seq<Token>, i: nat, c: Collected)
    ensures Consume(config, alias, tokens, i, c).errors.unknown == c.errors.unknown + UnknownFrom(config, alias, tokens, i)
    ensures Consume(config, alias, tokens, i, c).errors.required == c.errors.required
    decreases |tokens| - i
  {
    if i < |tokens| {
      var r := ConsumeStep(config, alias, tokens, i, c);
      StepFacts(config, alias, tokens, i, c);
      UnknownCollected(config, alias, tokens, r.pos, r.col);
      var u, rest := UnknownOf(config, alias, tokens[i]), UnknownFrom(config, alias, tokens, i + 1);
      if r.pos == i + 2 {
        assert UnknownOf(config, alias, tokens[i + 1]) == [];
        assert rest == [] + UnknownFrom(config, alias, tokens, r.pos);
      }
      assert UnknownFrom(config, alias, tokens, i) == u + rest;
      Helper.SeqAppendAssoc(c.errors.unknown, u, rest);
    }
  }

  /** Likewise every unclassified token is collected, in order. */
  lemma {:induction false} UnclassifiedCollected(config: Opts, alias: map<string, string>, tokens: seq<Token>, i: nat, c: Collected)
    ensures Consume(config, alias, tokens, i, c).errors.invalid == c.errors.invalid + UnclassifiedFrom(tokens, i)
    decreases |tokens| - i
  {
    if i < |tokens| {
      var r := ConsumeStep(config, alias, tokens, i, c);
      StepFacts(config, alias, tokens, i, c);
      UnclassifiedCollected(config, alias, tokens, r.pos, r.col);
      var v := UnclassifiedOf(tokens[i]);
      if r.pos == i + 2 {
        assert UnclassifiedFrom(tokens, i + 1) == UnclassifiedFrom(tokens, r.pos);
      }
      assert UnclassifiedFrom(tokens, i) == v + UnclassifiedFrom(tokens, i + 1);
      Helper.SeqAppendAssoc(c.errors.invalid, v, UnclassifiedFrom(tokens, i + 1));
    }
  }

  /** When no option token waits for a value, every VALUE token becomes a
      positional argument, in order. */
  lemma {:induction false} ValuesToArgs(config: Opts, alias: map<string, string>, tokens: seq<Token>, i: nat, c: Collected)
    requires forall k :: i <= k < |tokens| ==> !TakesNext(config, alias, tokens[k])
    ensures Consume(config, alias, tokens, i, c).args == c.args + ValuesFrom(tokens, i)
    decreases |tokens| - i
  {
    if i < |tokens| {
      var r := ConsumeStep(config, alias, tokens, i, c);
      StepFacts(config, alias, tokens, i, c);
      ValuesToArgs(config, alias, tokens, i + 1, r.col);
      var v := if tokens[i].ValueToken? then [tokens[i].text] else [];
      assert ValuesFrom(tokens, i) == v + ValuesFrom(tokens, i + 1);
      Helper.SeqAppendAssoc(c.args, v, ValuesFrom(tokens, i + 1));
    }
  }

  /** A value option without an inline value (`--key` or `--key=`) takes
      the next token when it is a VALUE ... */
  lemma TakesFollowingValue(config: Opts, alias: map<string, string>, tokens: seq<Token>, i: nat, c: Collected)
    requires i + 1 < |tokens| && TakesNext(config, alias, tokens[i]) && tokens[i + 1].ValueToken?
    ensures var name := OptionName(alias, tokens[i]);
      Step(config, alias, tokens, i, c) == Cursor(i + 2, c.(opt := Store(config, c.opt, name, Str(tokens[i + 1].text))))
  {
  }

  /** ... and otherwise records the token's own value as expecting one,
      leaving the following token to be read on its own. */
  lemma ValueNotFollowing(config: Opts, alias: map<string, string>, tokens: seq<Token>, i: nat, c: Collected)
    requires i < |tokens| && TakesNext(config, alias, tokens[i])
    requires i + 1 == |tokens| || !tokens[i + 1].ValueToken?
    ensures Step(config, alias, tokens, i, c).pos == i + 1
    ensures Step(config, alias, tokens, i, c).col == c.(errors := c.errors.(expectedValue := c.errors.expectedValue + [SubjectOf(tokens[i])]))
  {
  }

  /** A short option resolves through the alias map to the last option
      declaring that alias. */
  lemma ShortResolvesToLastAlias(opts: Opts, s: string)
    requires s != "" && LastAlias(opts, s).Some? && LastAlias(opts, s).value != ""
    ensures OptionName(AliasMap(opts), ShortArg(s)) == LastAlias(opts, s).value
  {
  }

  /** The callback receives one `missing` descriptor per absent required
      name, carrying the name itself, and never a list of names. */
  lemma MissingOnePerName(e: ErrorLists)
    ensures forall n :: MissingName(n) in ErrorCalls(e) <==> n in e.required
    ensures forall names :: Missing(names) !in ErrorCalls(e)
    ensures |ErrorCalls(e)| == |e.unexpectedValue| + |e.expectedValue| + |e.unknown| + |e.required| + |e.invalid|
  {
    var a := |e.unexpectedValue| + |e.expectedValue| + |e.unknown|;
    var calls := ErrorCalls(e);
    forall n | n in e.required
      ensures MissingName(n) in calls
    {
      var k :| 0 <= k < |e.required| && e.required[k] == n;
      assert calls[a + k] == MissingName(n);
    }
  }

  /** Defaults are filled before the required check: an option with a
      truthy default is always in the result and never reported missing. */
  lemma DefaultSatisfiesRequired(opts: Opts, tokens: seq<Token>)
    ensures forall k :: 0 <= k < |opts| && HasDefault(SpecOf(opts[k].1)) ==>
      opts[k].0 in ParseSpec(opts, tokens).opt && MissingName(opts[k].0) !in ParseSpec(opts, tokens).calls
  {
    var config := NormalizeAll(opts);
    var c := Consume(config, AliasMap(opts), tokens, 0, Collected(map[], [], NoErrors));
    UnknownCollected(config, AliasMap(opts), tokens, 0, Collected(map[], [], NoErrors));
    var f := Finish(config, c);
    assert f.errors.required == RequiredAbsent(config, f.opt);
    DefaultsKeepSupplied(config, c.opt);
    MissingOnePerName(f.errors);
    forall k | 0 <= k < |opts| && HasDefault(SpecOf(opts[k].1))
      ensures opts[k].0 in f.opt
    {
      assert HasDefault(SpecOf(config[k].1));
    }
  }

  /** A value given on the command line is never replaced or merged with
      a default, even for a `multi` option. */
  lemma SuppliedBeatsDefault(opts: Opts, tokens: seq<Token>)
    ensures var c := Consume(NormalizeAll(opts), AliasMap(opts), tokens, 0, Collected(map[], [], NoErrors));
      forall n :: n in c.opt ==> n in ParseSpec(opts, tokens).opt && ParseSpec(opts, tokens).opt[n] == c.opt[n]
  {
    var config := NormalizeAll(opts);
    DefaultsKeepSupplied(config, Consume(config, AliasMap(opts), tokens, 0, Collected(map[], [], NoErrors)).opt);
  }

  // ---------------------------------------------------------------------
  // worked cases

  /** parser.js lists missing required options before filling defaults,
      src/parser.js after: a required option with a default fails the
      first parse and satisfies the second. */
  lemma DefaultMeetsRequiredOnlyHere()
    ensures var opts := [("user", Spec(EmptySpec.(required := true, default := Some(Str("joe")))))];
      RootParser.ParseSpec(opts, []) == RootParser.Error(Missing(["user"])) &&
      ParseSpec(opts, []) == Outcome(map["user" := Str("joe")], [], [])
  {
    var opts := [("user", Spec(EmptySpec.(required := true, default := Some(Str("joe")))))];
    assert NormalizeAll(opts) == opts;
    assert opts[1..] == [];
    var filled := map["user" := Str("joe")];
    assert RootParser.Run(opts, [], 0, RootParser.Init) == RootParser.Finished(RootParser.Init);
    assert RootParser.Complete(opts[1..], filled) == (filled, []);
    assert RootParser.Complete(opts, map[]).1 == ["user"] + [];
    assert ["user"] + [] == ["user"];
    assert RootParser.ParseSpec(opts, []) == RootParser.Error(Missing(RootParser.Complete(opts, map[]).1));
    assert AliasMap(opts) == map[] by {
      assert AliasStep(map[], "user", opts[0].1) == map[];
      assert Helper.FoldEntries(opts[1..], AliasStep, map[]) == map[];
    }
    assert Helper.FoldEntries(opts, DefaultStep, map[]) == filled by {
      assert DefaultStep(map[], "user", opts[0].1) == filled;
      assert Helper.FoldEntries(opts[1..], DefaultStep, filled) == filled;
    }
    assert RequiredAbsent(opts[1..], filled) == [];
    assert RequiredAbsent(opts, filled) == [];
  }

  /** A `multi` default is used only when the option is not given, and
      never merged with the given values. */
  lemma MultiDefaultNotMerged()
    ensures ParseSpec(MultiWithDefault, []).opt == map["i" := List([Str("janus")])]
    ensures ParseSpec(MultiWithDefault, [ShortArg("i"), ValueToken("a")]).opt == map["i" := List([Str("a")])]
    ensures ParseSpec(MultiWithDefault, [ShortArg("i"), ValueToken("a"), ShortArg("i"), ValueToken("b")]).opt ==
      map["i" := List([Str("a"), Str("b")])]
  {
    MultiWithDefaultSetup();
    MultiWithDefaultFill(map[]);
    MultiWithDefaultFill(map["i" := List([Str("a")])]);
    MultiWithDefaultFill(map["i" := List([Str("a"), Str("b")])]);
    MultiWithDefaultLoop();
  }

  /** A `multi` option `i` whose default is the list ["janus"]. */
  const MultiWithDefault: Opts := [("i", Spec(EmptySpec.(multi := true, default := Some(List([Str("janus")])))))]

  lemma MultiWithDefaultSetup()
    ensures NormalizeAll(MultiWithDefault) == MultiWithDefault && AliasMap(MultiWithDefault) == map[]
    ensures IsMulti(MultiWithDefault, "i")
  {
    var opts := MultiWithDefault;
    assert opts[1..] == [];
    assert AliasMap(opts) == map[] by {
      assert AliasStep(map[], "i", opts[0].1) == map[];
      assert Helper.FoldEntries(opts[1..], AliasStep, map[]) == map[];
    }
  }

  /** The default goes in only when `i` is absent. */
  lemma MultiWithDefaultFill(opt: map<string, Value>)
    ensures Helper.FoldEntries(MultiWithDefault, DefaultStep, opt) ==
      if "i" in opt then opt else opt["i" := List([Str("janus")])]
  {
    var opts := MultiWithDefault;
    assert opts[1..] == [];
    var filled := DefaultStep(opt, "i", opts[0].1);
    assert Helper.FoldEntries(opts[1..], DefaultStep, filled) == filled;
  }

  lemma MultiWithDefaultLoop()
    ensures Consume(MultiWithDefault, map[], [], 0, Collected(map[], [], NoErrors)) == Collected(map[], [], NoErrors)
    ensures Consume(MultiWithDefault, map[], [ShortArg("i"), ValueToken("a")], 0, Collected(map[], [], NoErrors)) ==
      Collected(map["i" := List([Str("a")])], [], NoErrors)
    ensures Consume(MultiWithDefault, map[], [ShortArg("i"), ValueToken("a"), ShortArg("i"), ValueToken("b")], 0,
                    Collected(map[], [], NoErrors)) ==
      Collected(map["i" := List([Str("a"), Str("b")])], [], NoErrors)
  {
    var opts := MultiWithDefault;
    assert IsMulti(opts, "i");
    var one := map["i" := List([Str("a")])];
    var two := map["i" := List([Str("a"), Str("b")])];
    var c0 := Collected(map[], [], NoErrors);
    var t1 := [ShortArg("i"), ValueToken("a")];
    assert Step(opts, map[], t1, 0, c0) == Cursor(2, c0.(opt := one));
    assert Consume(opts, map[], t1, 0, c0) == c0.(opt := one);
    var t2 := [ShortArg("i"), ValueToken("a"), ShortArg("i"), ValueToken("b")];
    assert Step(opts, map[], t2, 0, c0) == Cursor(2, c0.(opt := one));
    assert [Str("a")] + [Str("b")] == [Str("a"), Str("b")];
    assert Store(opts, one, "i", Str("b")) == two;
    assert Step(opts, map[], t2, 2, c0.(opt := one)) == Cursor(4, c0.(opt := two));
    assert Consume(opts, map[], t2, 2, c0.(opt := one)) == c0.(opt := two);
  }

  /** A value option followed by another option gets no value: its word is
      reported under `required`, the following flag is still read, and the
      option, being required and absent, is also reported missing. */
  lemma ValueMissingBeforeOption()
    ensures ParseSpec(RequiredAndFlag, [ShortArg("a"), ShortArg("b")]) ==
      Outcome(map["b" := Bool(true)], [], [Required(Word("a")), MissingName("a")])
  {
    RequiredAndFlagSetup();
    RequiredAndFlagLoop();
    RequiredAndFlagFinish();
  }

  /** A required option `a` that takes a value, and a flag `b`. */
  const RequiredAndFlag: Opts := [("a", Spec(EmptySpec.(required := true))), ("b", Spec(EmptySpec.(flag := Some(true))))]

  lemma RequiredAndFlagSetup()
    ensures NormalizeAll(RequiredAndFlag) == RequiredAndFlag && AliasMap(RequiredAndFlag) == map[]
  {
    var opts := RequiredAndFlag;
    assert opts[1..] == [opts[1]] && opts[1..][1..] == [];
    assert AliasMap(opts) == map[] by {
      assert AliasStep(map[], "a", opts[0].1) == map[];
      assert AliasStep(map[], "b", opts[1].1) == map[];
      assert Helper.FoldEntries(opts[1..][1..], AliasStep, map[]) == map[];
      assert Helper.FoldEntries(opts[1..], AliasStep, map[]) == map[];
    }
  }

  lemma RequiredAndFlagLoop()
    ensures Consume(RequiredAndFlag, map[], [ShortArg("a"), ShortArg("b")], 0, Collected(map[], [], NoErrors)) ==
      Collected(map["b" := Bool(true)], [], NoErrors.(expectedValue := [Word("a")]))
  {
    var opts := RequiredAndFlag;
    var tokens := [ShortArg("a"), ShortArg("b")];
    var c0 := Collected(map[], [], NoErrors);
    var c1 := c0.(errors := NoErrors.(expectedValue := [Word("a")]));
    assert Find(opts, "a") == Some(EmptySpec.(required := true));
    assert Find(opts, "b") == Some(EmptySpec.(flag := Some(true)));
    assert GetTruthValue("") == Some(true);
    assert Consume(opts, map[], tokens, 0, c0) == Consume(opts, map[], tokens, 1, c1);
  }

  lemma RequiredAndFlagFinish()
    ensures var c := Finish(RequiredAndFlag, Collected(map["b" := Bool(true)], [], NoErrors.(expectedValue := [Word("a")])));
      c.opt == map["b" := Bool(true)] && c.args == [] && ErrorCalls(c.errors) == [Required(Word("a")), MissingName("a")]
  {
    var opts := RequiredAndFlag;
    var opt := map["b" := Bool(true)];
    assert opts[1..] == [opts[1]] && opts[1..][1..] == [];
    assert Helper.FoldEntries(opts, DefaultStep, opt) == opt by {
      assert DefaultStep(opt, "a", opts[0].1) == opt;
      assert DefaultStep(opt, "b", opts[1].1) == opt;
      assert Helper.FoldEntries(opts[1..][1..], DefaultStep, opt) == opt;
      assert Helper.FoldEntries(opts[1..], DefaultStep, opt) == opt;
    }
    assert RequiredAbsent(opts[1..], opt) == [];
    assert RequiredAbsent(opts, opt) == ["a"];
  }
}

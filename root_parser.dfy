/** The argument parser of parser.js: one left-to-right pass over the
    words of the command line. Each word is a short option (`-x`), a long
    option (`--name`, `--name=value`), the terminator `--`, or an ordinary
    word, which is the value of a pending option or a positional argument.
    The first error ends the parse: `parse` returns whatever the error
    callback returns for it, which is modelled by returning the error
    descriptor itself. */
module RootParser {
  import opened Common
  import opened Schema
  import Helper

  // ---------------------------------------------------------------------
  // word shapes

  /** `-x` with x an ASCII letter or digit. Such a word is neither a long
      option nor the terminator. */
  predicate IsShortOption(w: string)
    ensures IsShortOption(w) ==> w != "--" && !IsLongOption(w)
  {
    |w| == 2 && w[0] == '-' && Helper.IsAlphaNumericAt(w, 1)
  }

  /** `--x...` with x an ASCII letter or digit: `--` followed by a
      non-empty name, so never the terminator itself. */
  predicate IsLongOption(w: string)
    ensures IsLongOption(w) ==> |w| > 2 && w[..2] == "--"
  {
    |w| > 2 && w[0] == '-' && w[1] == '-' && Helper.IsAlphaNumericAt(w, 2)
  }

  /** `s.split('=')` followed by `shift()` and `join('=')`: the text before
      the first `=`, and the text after it when there is one. */
  function CutAtEq(s: string): (r: (string, Option<string>))
    ensures '=' !in r.0
    ensures r.1.None? ==> r.0 == s
    ensures r.1.Some? ==> s == r.0 + "=" + r.1.value
  {
    if s == [] then ([], None)
    else if s[0] == '=' then ([], Some(s[1..]))
    else
      var r := CutAtEq(s[1..]);
      ([s[0]] + r.0, r.1)
  }

  /** The first `=` is where the cut happens, whatever follows it. */
  lemma {:induction false} CutAtEqOf(name: string, value: string)
    requires '=' !in name
    ensures CutAtEq(name + "=" + value) == (name, Some(value))
    decreases |name|
  {
    var s := name + "=" + value;
    if name == [] {
      assert s == "=" + value && s[1..] == value;
    } else {
      assert s[0] == name[0] && s[1..] == name[1..] + "=" + value;
      CutAtEqOf(name[1..], value);
      assert [name[0]] + name[1..] == name;
    }
  }

  /** `/^(false|0|no)$/i`. */
  predicate IsFalseWord(s: string)
  {
    var t := Lower(s);
    t == "false" || t == "0" || t == "no"
  }

  /** `/^(true|1|yes)$/i`. */
  predicate IsTrueWord(s: string)
  {
    var t := Lower(s);
    t == "true" || t == "1" || t == "yes"
  }

  // ---------------------------------------------------------------------
  // the closures lookupArg and setResult

  /** The first option whose `short` is ch, with its settings. */
  function FindShort(opts: Opts, ch: string): (r: Option<(string, OptionSpec)>)
    ensures r.None? <==> forall k :: 0 <= k < |opts| ==> SpecOf(opts[k].1).short != ch
    ensures r.Some? ==> exists k :: 0 <= k < |opts| && opts[k].0 == r.value.0 && SpecOf(opts[k].1) == r.value.1 && r.value.1.short == ch
  {
    if opts == [] then None
    else if SpecOf(opts[0].1).short == ch then Some((opts[0].0, SpecOf(opts[0].1)))
    else FindShort(opts[1..], ch)
  }

  /** `lookupArg(arg)`: the option arg names, either as a key or (for a
      single character) as some option's `short`, and whether that option
      expects a value, i.e. is not a flag. */
  function LookupArg(opts: Opts, arg: string): (r: Option<(string, bool)>)
    ensures r.None? <==> Find(opts, arg).None? && (|arg| != 1 || FindShort(opts, arg).None?)
    ensures r.Some? ==> exists k :: (0 <= k < |opts| && opts[k].0 == r.value.0 &&
      r.value.1 == !IsFlag(SpecOf(opts[k].1)) && (r.value.0 == arg || SpecOf(opts[k].1).short == arg))
    ensures r.Some? && |arg| != 1 ==> r.value.0 == arg
  {
    match Find(opts, arg)
    case Some(s) => Some((arg, !IsFlag(s)))
    case None =>
      if |arg| == 1 then
        match FindShort(opts, arg)
        case Some(found) => Some((found.0, !IsFlag(found.1)))
        case None => None
      else None
  }

  // ---------------------------------------------------------------------
  // the pass over the words

  /** The variables of `parse` between two words: the result so far, the
      positional arguments, the option last named and whether it still
      waits for its value. */
  datatype RootState = RootState(opt: map<string, Value>, args: seq<string>, last: string, expectsArg: bool)

  const Init := RootState(map[], [], "", false)

  /** How the pass goes on after a word: with the next word, not at all
      (after `--`), or with an error. */
  datatype Progress = Continue(st: RootState) | Finished(st: RootState) | Failed(error: ParseError)

  /** The treatment of one word w of the loop; rest holds the words after
      it, which `--` appends unread. Only `--` ends the pass, only an
      option word fails, and only an ordinary word with no option waiting
      becomes a positional argument. */
  function Step(opts: Opts, st: RootState, w: string, rest: seq<string>): (r: Progress)
    ensures r.Finished? <==> w == "--"
    ensures r.Finished? ==> r.st == st.(args := st.args + rest)
    ensures r.Failed? ==> IsShortOption(w) || IsLongOption(w)
    ensures r.Failed? ==> r.error.Required? || r.error.Unknown? || r.error.Argument?
    ensures r.Continue? ==> r.st.args == st.args + (if IsOrdinary(w) && !st.expectsArg then [w] else [])
  {
    if IsShortOption(w) then
      if st.expectsArg then Failed(Required(Word(st.last)))
      else
        match LookupArg(opts, [w[1]])
        case None => Failed(Unknown(w))
        case Some(found) =>
          var st := st.(last := found.0, expectsArg := found.1);
          if st.expectsArg then Continue(st) else Continue(st.(opt := Store(opts, st.opt, st.last, Bool(true))))
    else if IsLongOption(w) then
      if st.expectsArg then Failed(Required(Word(st.last)))
      else
        var (name, inline) := CutAtEq(w[2..]);
        if |name| < 2 then Failed(Unknown("--" + name))
        else
          match LookupArg(opts, name)
          case None => Failed(Unknown("--" + name))
          case Some(found) =>
            var st := st.(last := found.0, expectsArg := found.1);
            if st.expectsArg then
              if inline.Some? then Continue(st.(opt := Store(opts, st.opt, name, Str(inline.value)), expectsArg := false))
              else Continue(st)
            else if inline.None? then Continue(st.(opt := Store(opts, st.opt, name, Bool(true))))
            else if IsFalseWord(inline.value) then Continue(st.(opt := Store(opts, st.opt, name, Bool(false))))
            else if IsTrueWord(inline.value) then Continue(st.(opt := Store(opts, st.opt, name, Bool(true))))
            else Failed(Argument(name))
    else if w == "--" then Finished(st.(args := st.args + rest))
    else if st.expectsArg then Continue(st.(opt := Store(opts, st.opt, st.last, Str(w)), expectsArg := false))
    else Continue(st.(args := st.args + [w]))
  }

  /** The loop over argv[i..]. */
  function Run(opts: Opts, argv: seq<string>, i: nat, st: RootState): (r: Progress)
    requires i <= |argv|
    ensures !r.Continue?
    ensures r.Failed? ==> r.error.Required? || r.error.Unknown? || r.error.Argument?
    decreases |argv| - i
  {
    if i == |argv| then Finished(st)
    else
      match Step(opts, st, argv[i], argv[i + 1..])
      case Continue(next) => Run(opts, argv, i + 1, next)
      case other => other
  }

  /** The pass after the loop over the schema in key order: an option that
      is `required` and absent is listed as missing, and then an absent
      option with a truthy default receives it. Yields the final result and
      the missing names. */
  function Complete(opts: Opts, result: map<string, Value>): (r: (map<string, Value>, seq<string>))
    decreases |opts|
  {
    if opts == [] then (result, [])
    else
      var name := opts[0].0;
      var spec := SpecOf(opts[0].1);
      var missing := if spec.required && name !in result then [name] else [];
      var filled := if HasDefault(spec) && name !in result then result[name := spec.default.value] else result;
      var r := Complete(opts[1..], filled);
      (r.0, missing + r.1)
  }

  /** The pass keeps every key of the result, and a `required` option ends
      up either in the result or among the missing names. */
  lemma {:induction false} CompleteCoversRequired(opts: Opts, result: map<string, Value>)
    ensures var r := Complete(opts, result);
      result.Keys <= r.0.Keys &&
      forall k :: 0 <= k < |opts| && SpecOf(opts[k].1).required ==> opts[k].0 in r.0 || opts[k].0 in r.1
    decreases |opts|
  {
    if opts != [] {
      var name := opts[0].0;
      var spec := SpecOf(opts[0].1);
      var filled := if HasDefault(spec) && name !in result then result[name := spec.default.value] else result;
      CompleteCoversRequired(opts[1..], filled);
      assert forall k :: 1 <= k < |opts| ==> opts[k] == opts[1..][k - 1];
    }
  }

  /** What `parse(opts, argv, error)` returns: an error descriptor (the
      call `error(e)` it returns) or the result `{opt, args}`. */
  datatype Outcome = Error(error: ParseError) | Parsed(opt: map<string, Value>, args: seq<string>)

  /** A parse that succeeds has every `required` option in its result; a
      list of missing names is never empty. */
  function ParseSpec(opts: Opts, argv: seq<string>): (out: Outcome)
    ensures out.Parsed? ==> forall k :: 0 <= k < |opts| && SpecOf(opts[k].1).required ==> opts[k].0 in out.opt
    ensures out.Error? && out.error.Missing? ==> out.error.names != []
  {
    match Run(opts, argv, 0, Init)
    case Failed(e) => Error(e)
    case Finished(st) =>
      if st.expectsArg then Error(Required(Word(st.last)))
      else
        var r := Complete(opts, st.opt);
        CompleteCoversRequired(opts, st.opt);
        if |r.1| > 0 then Error(Missing(r.1)) else Parsed(r.0, st.args)
    case Continue(_) => Error(Unknown(""))   // never taken: Run ends in Finished or Failed
  }

  /** `parse`: the `for` loop over argv with its early returns, then the
      required/default pass. */
  method Parse(opts: Opts, argv: seq<string>) returns (out: Outcome)
    ensures out == ParseSpec(opts, argv)
  {
    var result: map<string, Value> := map[];
    var args: seq<string> := [];
    var last := "";
    var expectsArg := false;
    var i := 0;
    while i < |argv|
      invariant 0 <= i <= |argv|
      invariant Run(opts, argv, i, RootState(result, args, last, expectsArg)) == Run(opts, argv, 0, Init)
    {
      var st := RootState(result, args, last, expectsArg);
      var next := Advance(opts, st, argv, i);
      if next.Failed? {
        return Error(next.error);
      }
      result, args, last, expectsArg := next.st.opt, next.st.args, next.st.last, next.st.expectsArg;
      if next.Finished? {
        break;
      }
      RunContinues(opts, argv, i, st, next.st);
      i := i + 1;
    }
    assert Run(opts, argv, 0, Init) == Finished(RootState(result, args, last, expectsArg));
    if expectsArg {
      return Error(Required(Word(last)));
    }
    var requiredParams, opt := CompleteLoop(opts, result);
    if |requiredParams| > 0 {
      return Error(Missing(requiredParams));
    }
    return Parsed(opt, args);
  }

  /** A word that lets the pass continue hands its state to the next word. */
  lemma RunContinues(opts: Opts, argv: seq<string>, i: nat, st: RootState, next: RootState)
    requires i < |argv| && Step(opts, st, argv[i], argv[i + 1..]) == Continue(next)
    ensures Run(opts, argv, i, st) == Run(opts, argv, i + 1, next)
  { }

  /** The body of the loop for the word argv[i]. */
  method Advance(opts: Opts, st: RootState, argv: seq<string>, i: nat) returns (next: Progress)
    requires i < |argv|
    ensures next == Step(opts, st, argv[i], argv[i + 1..])
  {
    var arg := argv[i];
    if IsShortOption(arg) {
      next := ShortOption(opts, st, arg);
    } else if IsLongOption(arg) {
      next := LongOption(opts, st, arg);
    } else if arg == "--" {
      next := Finished(st.(args := st.args + argv[i + 1..]));
    } else if st.expectsArg {
      next := Continue(st.(opt := Store(opts, st.opt, st.last, Str(arg)), expectsArg := false));
    } else {
      next := Continue(st.(args := st.args + [arg]));
    }
  }

  /** The branch of the loop for a word `-x`, x an ASCII letter or digit. */
  method ShortOption(opts: Opts, st: RootState, arg: string) returns (next: Progress)
    requires IsShortOption(arg)
    ensures next.Failed? || next.Continue?
    ensures forall rest :: next == Step(opts, st, arg, rest)
  {
    if st.expectsArg {
      return Failed(Required(Word(st.last)));
    }
    var found := LookupArg(opts, [arg[1]]);
    if found.None? {
      return Failed(Unknown(arg));
    }
    var result := st.opt;
    var last, expectsArg := found.value.0, found.value.1;
    if !expectsArg {
      result := Store(opts, result, last, Bool(true));
    }
    return Continue(RootState(result, st.args, last, expectsArg));
  }

  /** The branch of the loop for a word starting with `--` and a letter or
      digit: `--name` or `--name=value`. */
  method LongOption(opts: Opts, st: RootState, arg: string) returns (next: Progress)
    requires IsLongOption(arg)
    ensures next.Failed? || next.Continue?
    ensures forall rest :: next == Step(opts, st, arg, rest)
  {
    if st.expectsArg {
      return Failed(Required(Word(st.last)));
    }
    var parts := CutAtEq(arg[2..]);
    var name, inline := parts.0, parts.1;
    if |name| < 2 {
      return Failed(Unknown("--" + name));
    }
    var found := LookupArg(opts, name);
    if found.None? {
      return Failed(Unknown("--" + name));
    }
    var result := st.opt;
    var last, expectsArg := found.value.0, found.value.1;
    if expectsArg {
      if inline.Some? {
        result := Store(opts, result, name, Str(inline.value));
        expectsArg := false;
      }
    } else if inline.None? {
      result := Store(opts, result, name, Bool(true));
    } else if IsFalseWord(inline.value) {
      result := Store(opts, result, name, Bool(false));
    } else if IsTrueWord(inline.value) {
      result := Store(opts, result, name, Bool(true));
    } else {
      return Failed(Argument(name));
    }
    return Continue(RootState(result, st.args, last, expectsArg));
  }

  /** The `for (var arg in opts)` loop after the pass. */
  method CompleteLoop(opts: Opts, start: map<string, Value>) returns (requiredParams: seq<string>, result: map<string, Value>)
    ensures result == Complete(opts, start).0 && requiredParams == Complete(opts, start).1
  {
    requiredParams := [];
    result := start;
    var k := 0;
    assert opts[0..] == opts;
    while k < |opts|
      invariant 0 <= k <= |opts|
      invariant Complete(opts[k..], result).0 == Complete(opts, start).0
      invariant requiredParams + Complete(opts[k..], result).1 == Complete(opts, start).1
    {
      assert opts[k..][0] == opts[k] && opts[k..][1..] == opts[k + 1..];
      var name, spec := opts[k].0, SpecOf(opts[k].1);
      var missing: seq<string> := if spec.required && name !in result then [name] else [];
      var filled := if HasDefault(spec) && name !in result then result[name := spec.default.value] else result;
      ghost var rest := Complete(opts[k + 1..], filled);
      assert Complete(opts[k..], result) == (rest.0, missing + rest.1);
      Helper.SeqAppendAssoc(requiredParams, missing, rest.1);
      requiredParams := requiredParams + missing;
      result := filled;
      k := k + 1;
    }
    assert opts[k..] == [];
    assert requiredParams + [] == requiredParams;
  }

  // ---------------------------------------------------------------------
  // properties of the pass

  /** The words after the current one matter only to `--`. */
  lemma StepRest(opts: Opts, st: RootState, w: string, r1: seq<string>, r2: seq<string>)
    ensures Step(opts, st, w, r1).Finished? == Step(opts, st, w, r2).Finished?
    ensures !Step(opts, st, w, r1).Finished? ==> Step(opts, st, w, r1) == Step(opts, st, w, r2)
  {
  }

  /** The first error ends the parse: whatever words follow the one that
      failed, the outcome is that error. */
  lemma {:induction false} FirstErrorAborts(opts: Opts, a: seq<string>, b: seq<string>, i: nat, st: RootState)
    requires i <= |a| && Run(opts, a, i, st).Failed?
    ensures Run(opts, a + b, i, st) == Run(opts, a, i, st)
    decreases |a| - i
  {
    assert (a + b)[i] == a[i];
    StepRest(opts, st, a[i], a[i + 1..], (a + b)[i + 1..]);
    var s := Step(opts, st, a[i], a[i + 1..]);
    if s.Continue? {
      FirstErrorAborts(opts, a, b, i + 1, s.st);
    }
  }

  /** A word that is neither an option nor `--`. */
  predicate IsOrdinary(w: string)
  {
    !IsShortOption(w) && !IsLongOption(w) && w != "--"
  }

  /** With no option waiting for a value, ordinary words become positional
      arguments, in input order, and change nothing else. */
  lemma {:induction false} OrdinaryWordsAreArgs(opts: Opts, argv: seq<string>, i: nat, st: RootState)
    requires i <= |argv| && !st.expectsArg
    requires forall k :: i <= k < |argv| ==> IsOrdinary(argv[k])
    ensures Run(opts, argv, i, st) == Finished(st.(args := st.args + argv[i..]))
    decreases |argv| - i
  {
    if i == |argv| {
      assert argv[i..] == [] && st.args + [] == st.args;
    } else {
      var next := st.(args := st.args + [argv[i]]);
      assert Step(opts, st, argv[i], argv[i + 1..]) == Continue(next);
      OrdinaryWordsAreArgs(opts, argv, i + 1, next);
      assert st.args + [argv[i]] + argv[i + 1..] == st.args + argv[i..];
    }
  }

  /** `--` ends option processing, even while an option waits for its
      value: every later word is a positional argument, unread. */
  lemma DoubleDashStops(opts: Opts, argv: seq<string>, i: nat, st: RootState)
    requires i < |argv| && argv[i] == "--"
    ensures Run(opts, argv, i, st) == Finished(st.(args := st.args + argv[i + 1..]))
  {
  }

  /** An ordinary word is the value of the option waiting for one. */
  lemma PendingValue(opts: Opts, st: RootState, w: string, rest: seq<string>)
    requires st.expectsArg && IsOrdinary(w)
    ensures Step(opts, st, w, rest) == Continue(st.(opt := Store(opts, st.opt, st.last, Str(w)), expectsArg := false))
  {
  }

  /** An option word while another option waits for its value is an error
      naming the waiting option. */
  lemma OptionWhilePending(opts: Opts, st: RootState, w: string, rest: seq<string>)
    requires st.expectsArg && (IsShortOption(w) || IsLongOption(w))
    ensures Step(opts, st, w, rest) == Failed(Required(Word(st.last)))
  {
  }

  /** `--name=value` reads as a long option named name with the inline
      value value. */
  lemma InlineWord(name: string, value: string)
    requires |name| >= 2 && '=' !in name && Helper.IsAlphaNumericAt(name, 0)
    ensures var w := "--" + name + "=" + value;
      !IsShortOption(w) && IsLongOption(w) && CutAtEq(w[2..]) == (name, Some(value))
  {
    var w := "--" + name + "=" + value;
    assert w[2..] == name + "=" + value && w[2] == name[0];
    CutAtEqOf(name, value);
  }

  /** `--name=value` on an option that takes a value stores everything after
      the first `=`, and nothing waits for a value afterwards. */
  lemma InlineValue(opts: Opts, st: RootState, name: string, value: string, rest: seq<string>)
    requires !st.expectsArg && |name| >= 2 && '=' !in name && Helper.IsAlphaNumericAt(name, 0)
    requires Find(opts, name).Some? && !IsFlag(Find(opts, name).value)
    ensures Step(opts, st, "--" + name + "=" + value, rest) ==
      Continue(st.(opt := Store(opts, st.opt, name, Str(value)), last := name, expectsArg := false))
  {
    InlineWord(name, value);
  }

  /** `--name=value` on a flag: `false`, `0` or `no` in any case store
      false, `true`, `1` or `yes` store true, anything else is an error. */
  lemma InlineFlag(opts: Opts, st: RootState, name: string, value: string, rest: seq<string>)
    requires !st.expectsArg && |name| >= 2 && '=' !in name && Helper.IsAlphaNumericAt(name, 0)
    requires Find(opts, name).Some? && IsFlag(Find(opts, name).value)
    ensures var st' := st.(last := name, expectsArg := false);
      Step(opts, st, "--" + name + "=" + value, rest) ==
        if IsFalseWord(value) then Continue(st'.(opt := Store(opts, st.opt, name, Bool(false))))
        else if IsTrueWord(value) then Continue(st'.(opt := Store(opts, st.opt, name, Bool(true))))
        else Failed(Argument(name))
  {
    InlineWord(name, value);
  }

  /** A long name of one character is never looked up. */
  lemma ShortLongName(opts: Opts, st: RootState, c: char, rest: seq<string>)
    requires !st.expectsArg && Helper.IsAlphaNumericAt([c], 0)
    ensures Step(opts, st, "--" + [c], rest) == Failed(Unknown("--" + [c]))
  {
    var w := "--" + [c];
    assert w[2..] == [c];
    assert CutAtEq([c]) == ([c], None);
  }

  /** The inline words are matched without regard to case... */
  lemma InlineWords()
    ensures IsFalseWord("NO") && IsFalseWord("False") && IsTrueWord("YES") && IsTrueWord("1")
  {
    LowerIs("NO", "no");
    LowerIs("False", "false");
    LowerIs("YES", "yes");
    LowerIs("1", "1");
  }

  /** ... and whole: a longer or shorter word is neither. */
  lemma InlineWordsWhole()
    ensures !IsFalseWord("nope") && !IsTrueWord("yess") && !IsTrueWord("")
  {
    assert |Lower("nope")| == 4 && |Lower("yess")| == 4;
  }

  lemma LowerIs(s: string, t: string)
    requires |s| == |t| && forall k :: 0 <= k < |s| ==> LowerChar(s[k]) == t[k]
    ensures Lower(s) == t
  {
  }

  // ---------------------------------------------------------------------
  // properties of the required/default pass

  /** The pass reports exactly the required options that the words left
      absent, in key order: a default injected by the same pass never
      satisfies `required`. */
  lemma {:induction false} MissingInKeyOrder(opts: Opts, result: map<string, Value>)
    requires DistinctNames(opts)
    ensures Complete(opts, result).1 == RequiredAbsent(opts, result)
    decreases |opts|
  {
    if opts != [] {
      var spec := SpecOf(opts[0].1);
      var filled := if HasDefault(spec) && opts[0].0 !in result then result[opts[0].0 := spec.default.value] else result;
      assert DistinctNames(opts[1..]);
      MissingInKeyOrder(opts[1..], filled);
      if filled != result {
        RequiredAbsentIgnores(opts[1..], result, opts[0].0, spec.default.value);
      }
    }
  }

  /** The defaults the pass injects are those of the shared rule. */
  lemma {:induction false} CompleteDefaults(opts: Opts, result: map<string, Value>)
    ensures Complete(opts, result).0 == Helper.FoldEntries(opts, DefaultStep, result)
    decreases |opts|
  {
    if opts != [] {
      CompleteDefaults(opts[1..], DefaultStep(result, opts[0].0, opts[0].1));
    }
  }

  /** When the words are read without error, `parse` succeeds exactly when
      no required option was left absent by them; it then returns the
      words' result with the defaults added, and the positional words. */
  lemma ParseOutcome(opts: Opts, argv: seq<string>)
    requires DistinctNames(opts)
    requires Run(opts, argv, 0, Init).Finished? && !Run(opts, argv, 0, Init).st.expectsArg
    ensures var st := Run(opts, argv, 0, Init).st;
      ParseSpec(opts, argv) ==
        if RequiredAbsent(opts, st.opt) == [] then Parsed(Complete(opts, st.opt).0, st.args)
        else Error(Missing(RequiredAbsent(opts, st.opt)))
  {
    MissingInKeyOrder(opts, Run(opts, argv, 0, Init).st.opt);
  }

  /** A value option named last with no value after it is an error naming
      that option. */
  lemma ValueMissingAtEnd(opts: Opts, argv: seq<string>)
    requires Run(opts, argv, 0, Init).Finished? && Run(opts, argv, 0, Init).st.expectsArg
    ensures ParseSpec(opts, argv) == Error(Required(Word(Run(opts, argv, 0, Init).st.last)))
  {
  }
}

/** The two `parse` entry points, options-parser.js and
    src/options-parser.js: resolve the argument vector, mark the help
    options in the schema, run the parser, dispatch help for every
    triggered help option and, in the newer one, validate the values.

    The error callback is a function from descriptor to reaction, the
    terminal width is a parameter, `process.exit(0)` ends the call with
    `Exited`, and the lines `help` writes are collected in order. */
module OptionsParser {
  import opened Common
  import opened Schema
  import Help
  import Validation
  import RootParser
  import TokenParser
  import StringLexer
  import Helper

  /** How a call to `parse` ends. `HandlerReturned(e)` is the root parser
      returning what the callback returned for `e` (the callback's value is
      not modelled); `Crashed` is a `TypeError` raised by the runtime;
      `Hangs` is a `help` call that never returns. */
  datatype Ending =
    | Returned(opt: map<string, Value>, args: seq<string>)
    | HandlerReturned(error: ParseError)
    | Threw(message: string)
    | Crashed
    | Exited
    | Hangs

  /** The ending with the lines written to the output before it. */
  datatype Call = Call(ending: Ending, output: seq<string>)

  /** The `argv` argument of options-parser.js: a string, an array, or
      anything else (absent, null, or the callback itself), which selects
      `process.argv.slice(2)`. */
  datatype Argv = Line(line: string) | Words(words: seq<string>) | Absent

  /** The argument vector the root parser receives. */
  function Arguments(argv: Argv, processArgv: seq<string>): (words: seq<string>)
    ensures argv.Line? ==> words == StringLexer.Lex(argv.line, 0)
    ensures argv.Words? ==> words == argv.words
    ensures argv.Absent? ==> words == processArgv
  {
    match argv
    case Line(s) => StringLexer.Lex(s, 0)
    case Words(ws) => ws
    case Absent => processArgv
  }

  /** The ending of a callback that did not return. */
  function Raised(r: Validation.Reaction): Ending
  {
    if r.Throw? then Threw(r.message) else Crashed
  }

  // ---------------------------------------------------------------------
  // help dispatch (`helpArgs.some(...)`, the same in both files)

  /** Some option is printed by `help`: one not skipped as empty. */
  predicate AnyShown(o: Help.Layout, opts: Opts)
  {
    exists k :: 0 <= k < |opts| && !Help.Skipped(o, opts[k].1)
  }

  /** What one call of `help(opts, options)` does: the lines it writes,
      and whether it returns. */
  datatype HelpRun = HelpRun(written: seq<string>, finishes: bool)

  /** One call of `help(opts, options)`. A help text width below -1 makes
      `fitWidth` loop forever at the first option printed, after the
      banner has been written and while the options skipped before it
      have written nothing. */
  function HelpOutput(opts: Opts, options: HelpOptions, terminalColumns: int): (r: HelpRun)
    ensures !r.finishes <==> Help.ColumnsOf(opts, options, terminalColumns).maxText < -1 &&
                             AnyShown(Help.ColumnsOf(opts, options, terminalColumns).layout, opts)
    ensures Help.ColumnsOf(opts, options, terminalColumns).maxText >= -1 ==>
              r == HelpRun(Help.HelpLines(opts, options, terminalColumns), true)
    ensures Help.ColumnsOf(opts, options, terminalColumns).maxText < -1 ==>
              r.written == Help.BannerLines(opts, Help.ColumnsOf(opts, options, terminalColumns).layout)
  {
    var c := Help.ColumnsOf(opts, options, terminalColumns);
    if c.maxText >= -1 then HelpRun(Help.HelpLines(opts, options, terminalColumns), true)
    else HelpRun(Help.BannerLines(opts, c.layout), !AnyShown(c.layout, opts))
  }

  /** A help argument whose option holds a truthy value in the result. */
  predicate Triggered(arg: Help.HelpArg, opt: map<string, Value>)
  {
    arg.name in opt && Truthy(opt[arg.name])
  }

  /** The dispatch over the help arguments in order: each triggered one
      writes its help; one without `noExit` then exits the process; a help
      that never returns ends everything. The second component is None
      when the dispatch ran through. */
  function Dispatch(opts: Opts, helpArgs: seq<Help.HelpArg>, opt: map<string, Value>, terminalColumns: int)
    : (r: (seq<string>, Option<Ending>))
    ensures r.1.None? || r.1 == Some(Exited) || r.1 == Some(Hangs)
    decreases |helpArgs|
  {
    if helpArgs == [] then ([], None)
    else
      var arg := helpArgs[0];
      if !Triggered(arg, opt) then Dispatch(opts, helpArgs[1..], opt, terminalColumns)
      else
        var run := HelpOutput(opts, arg.options, terminalColumns);
        if !run.finishes then (run.written, Some(Hangs))
        else if !arg.options.noExit then (run.written, Some(Exited))
        else
          var rest := Dispatch(opts, helpArgs[1..], opt, terminalColumns);
          (run.written + rest.0, rest.1)
  }

  /** The loop of `helpArgs.some(...)`; its callback never returns true,
      so only an exit or a hang stops it early. */
  method DispatchHelp(opts: Opts, helpArgs: seq<Help.HelpArg>, opt: map<string, Value>, terminalColumns: int)
    returns (output: seq<string>, stop: Option<Ending>)
    ensures (output, stop) == Dispatch(opts, helpArgs, opt, terminalColumns)
  {
    output := [];
    var i := 0;
    assert helpArgs[0..] == helpArgs;
    assert [] + Dispatch(opts, helpArgs, opt, terminalColumns).0 == Dispatch(opts, helpArgs, opt, terminalColumns).0;
    while i < |helpArgs|
      invariant 0 <= i <= |helpArgs|
      invariant Dispatch(opts, helpArgs, opt, terminalColumns) ==
        (output + Dispatch(opts, helpArgs[i..], opt, terminalColumns).0, Dispatch(opts, helpArgs[i..], opt, terminalColumns).1)
    {
      var arg := helpArgs[i];
      ghost var here := Dispatch(opts, helpArgs[i..], opt, terminalColumns);
      ghost var rest := Dispatch(opts, helpArgs[i + 1..], opt, terminalColumns);
      assert helpArgs[i..][0] == arg && helpArgs[i..][1..] == helpArgs[i + 1..];
      if arg.name in opt && Truthy(opt[arg.name]) {
        var run := HelpCall(opts, arg.options, terminalColumns);
        if !run.finishes {
          assert here == (run.written, Some(Hangs));
          return output + run.written, Some(Hangs);
        }
        if !arg.options.noExit {
          assert here == (run.written, Some(Exited));
          return output + run.written, Some(Exited);
        }
        assert here == (run.written + rest.0, rest.1);
        Helper.SeqAppendAssoc(output, run.written, rest.0);
        output := output + run.written;
      } else {
        assert here == rest;
      }
      i := i + 1;
    }
    assert output + [] == output;
    stop := None;
  }

  /** `this.help(opts, arg.options)`: the banner, then the options up to
      the first one printed, at which a width below -1 never returns. */
  method HelpCall(opts: Opts, options: HelpOptions, terminalColumns: int) returns (run: HelpRun)
    ensures run == HelpOutput(opts, options, terminalColumns)
  {
    var c := Help.ColumnsOf(opts, options, terminalColumns);
    if c.maxText >= -1 {
      var output := Help.PrintHelp(opts, options, terminalColumns);
      return HelpRun(output, true);
    }
    var banner := Help.BannerLines(opts, c.layout);
    var k := 0;
    while k < |opts|
      invariant 0 <= k <= |opts|
      invariant forall j :: 0 <= j < k ==> Help.Skipped(c.layout, opts[j].1)
    {
      if !Help.Skipped(c.layout, opts[k].1) {
        return HelpRun(banner, false);
      }
      k := k + 1;
    }
    return HelpRun(banner, true);
  }

  /** Nothing is written and nothing stops when no help option was given. */
  lemma {:induction false} UntriggeredDispatch(opts: Opts, helpArgs: seq<Help.HelpArg>, opt: map<string, Value>, terminalColumns: int)
    requires forall k :: 0 <= k < |helpArgs| ==> !Triggered(helpArgs[k], opt)
    ensures Dispatch(opts, helpArgs, opt, terminalColumns) == ([], None)
    decreases |helpArgs|
  {
    if helpArgs != [] {
      assert forall k :: 0 <= k < |helpArgs| - 1 ==> helpArgs[1..][k] == helpArgs[k + 1];
      UntriggeredDispatch(opts, helpArgs[1..], opt, terminalColumns);
    }
  }

  /** The dispatch runs through exactly when every triggered help option
      has `noExit` set and its help returns. */
  lemma {:induction false} DispatchRunsThrough(opts: Opts, helpArgs: seq<Help.HelpArg>, opt: map<string, Value>, terminalColumns: int)
    ensures Dispatch(opts, helpArgs, opt, terminalColumns).1.None? <==>
      forall k :: 0 <= k < |helpArgs| && Triggered(helpArgs[k], opt) ==>
        helpArgs[k].options.noExit && HelpOutput(opts, helpArgs[k].options, terminalColumns).finishes
    decreases |helpArgs|
  {
    if helpArgs != [] {
      assert forall k :: 0 <= k < |helpArgs| - 1 ==> helpArgs[1..][k] == helpArgs[k + 1];
      DispatchRunsThrough(opts, helpArgs[1..], opt, terminalColumns);
    }
  }

  /** The lines of every triggered help option's help, in order. */
  function TriggeredHelp(opts: Opts, helpArgs: seq<Help.HelpArg>, opt: map<string, Value>, terminalColumns: int): seq<string>
    decreases |helpArgs|
  {
    if helpArgs == [] then []
    else
      (if Triggered(helpArgs[0], opt) then HelpOutput(opts, helpArgs[0].options, terminalColumns).written else []) +
      TriggeredHelp(opts, helpArgs[1..], opt, terminalColumns)
  }

  /** A dispatch that runs through writes the help of every triggered
      help option, in order. */
  lemma {:induction false} DispatchWritesEveryHelp(opts: Opts, helpArgs: seq<Help.HelpArg>, opt: map<string, Value>, terminalColumns: int)
    requires Dispatch(opts, helpArgs, opt, terminalColumns).1.None?
    ensures Dispatch(opts, helpArgs, opt, terminalColumns).0 == TriggeredHelp(opts, helpArgs, opt, terminalColumns)
    decreases |helpArgs|
  {
    if helpArgs != [] {
      DispatchWritesEveryHelp(opts, helpArgs[1..], opt, terminalColumns);
      if !Triggered(helpArgs[0], opt) {
        assert [] + TriggeredHelp(opts, helpArgs[1..], opt, terminalColumns) == TriggeredHelp(opts, helpArgs[1..], opt, terminalColumns);
      }
    }
  }

  /** Dispatching over two lists of help arguments in turn: the second
      list is reached only when the first runs through, and its lines
      follow the first list's. */
  lemma {:induction false} DispatchAppend(opts: Opts, h1: seq<Help.HelpArg>, h2: seq<Help.HelpArg>, opt: map<string, Value>, terminalColumns: int)
    ensures var d1 := Dispatch(opts, h1, opt, terminalColumns);
      var d2 := Dispatch(opts, h2, opt, terminalColumns);
      Dispatch(opts, h1 + h2, opt, terminalColumns) == (if d1.1.None? then (d1.0 + d2.0, d2.1) else d1)
    decreases |h1|
  {
    if h1 == [] {
      assert [] + h2 == h2;
      assert [] + Dispatch(opts, h2, opt, terminalColumns).0 == Dispatch(opts, h2, opt, terminalColumns).0;
    } else {
      assert (h1 + h2)[0] == h1[0] && (h1 + h2)[1..] == h1[1..] + h2;
      DispatchAppend(opts, h1[1..], h2, opt, terminalColumns);
      var run := HelpOutput(opts, h1[0].options, terminalColumns);
      var rest := Dispatch(opts, h1[1..], opt, terminalColumns);
      var d2 := Dispatch(opts, h2, opt, terminalColumns);
      Helper.SeqAppendAssoc(run.written, rest.0, d2.0);
    }
  }

  /** The first triggered help option without `noExit` whose help
      returns writes that help and ends the process, whatever follows. */
  lemma {:induction false} FirstTriggeredExits(opts: Opts, helpArgs: seq<Help.HelpArg>, opt: map<string, Value>, terminalColumns: int, k: nat)
    requires k < |helpArgs| && Triggered(helpArgs[k], opt) && !helpArgs[k].options.noExit
    requires forall j :: 0 <= j < k ==> !Triggered(helpArgs[j], opt)
    requires HelpOutput(opts, helpArgs[k].options, terminalColumns).finishes
    ensures Dispatch(opts, helpArgs, opt, terminalColumns) ==
      (HelpOutput(opts, helpArgs[k].options, terminalColumns).written, Some(Exited))
    decreases k
  {
    if k > 0 {
      assert forall j :: 0 <= j < k - 1 ==> helpArgs[1..][j] == helpArgs[j + 1];
      FirstTriggeredExits(opts, helpArgs[1..], opt, terminalColumns, k - 1);
    }
  }

  /** When the first triggered help option's call never returns, the run
      hangs with that call's banner written, whatever its `noExit`. */
  lemma {:induction false} FirstTriggeredHangs(opts: Opts, helpArgs: seq<Help.HelpArg>, opt: map<string, Value>, terminalColumns: int, k: nat)
    requires k < |helpArgs| && Triggered(helpArgs[k], opt)
    requires forall j :: 0 <= j < k ==> !Triggered(helpArgs[j], opt)
    requires !HelpOutput(opts, helpArgs[k].options, terminalColumns).finishes
    ensures Dispatch(opts, helpArgs, opt, terminalColumns) ==
      (Help.BannerLines(opts, Help.ColumnsOf(opts, helpArgs[k].options, terminalColumns).layout), Some(Hangs))
    decreases k
  {
    if k > 0 {
      assert forall j :: 0 <= j < k - 1 ==> helpArgs[1..][j] == helpArgs[j + 1];
      FirstTriggeredHangs(opts, helpArgs[1..], opt, terminalColumns, k - 1);
    }
  }

  // ---------------------------------------------------------------------
  // options-parser.js

  /** `parse` of options-parser.js once the parser has run on the marked
      schema: a descriptor the parser returns goes to the callback, whose
      value `parse` then reads `.opt` from when there are help options;
      otherwise the help dispatch runs on the result. The callback's value
      is taken to have no `opt` object (it is `undefined` for the default
      handler and for a callback without a `return`), so that read
      crashes. */
  function RootAfter(marked: Opts, helpArgs: seq<Help.HelpArg>, out: RootParser.Outcome,
                     handler: ParseError -> Validation.Reaction, terminalColumns: int): (call: Call)
    ensures out.Error? ==> call.output == [] && !call.ending.Returned?
    ensures call.ending.Returned? ==> out == RootParser.Parsed(call.ending.opt, call.ending.args)
    ensures call.ending.HandlerReturned? ==> out == RootParser.Error(call.ending.error) && helpArgs == []
  {
    match out
    case Error(e) =>
      if handler(e) != Validation.Return then Call(Raised(handler(e)), [])
      else if helpArgs == [] then Call(HandlerReturned(e), [])
      else Call(Crashed, [])
    case Parsed(opt, args) =>
      var d := Dispatch(marked, helpArgs, opt, terminalColumns);
      Call(if d.1.Some? then d.1.value else Returned(opt, args), d.0)
  }

  /** `parse` of options-parser.js on the argument vector it resolved. A
      parse error writes nothing and is never a result; a call that
      returns carries the parser's result unchanged; the callback's own
      value comes back only when the schema has no help option. */
  function RootOutcome(opts: Opts, argv: seq<string>, handler: ParseError -> Validation.Reaction, terminalColumns: int): (call: Call)
    ensures RootParser.ParseSpec(Help.HelpMarked(opts), argv).Error? ==> call.output == [] && !call.ending.Returned?
    ensures call.ending.Returned? ==>
              RootParser.ParseSpec(Help.HelpMarked(opts), argv) == RootParser.Parsed(call.ending.opt, call.ending.args)
    ensures call.ending.HandlerReturned? ==> Help.HelpArgsOf(opts) == []
  {
    var marked := Help.HelpMarked(opts);
    RootAfter(marked, Help.HelpArgsOf(opts), RootParser.ParseSpec(marked, argv), handler, terminalColumns)
  }

  /** The argument vector `parse` hands to the parser: a string is split
      by the lexer, an array is taken as it is, anything else selects the
      process arguments. */
  method ResolveArgv(argv: Argv, processArgv: seq<string>) returns (words: seq<string>)
    ensures words == Arguments(argv, processArgv)
  {
    match argv {
      case Line(s) =>
        var tokenizer := new StringLexer.Tokenizer(s);
        words := tokenizer.AllTokens();
      case Words(ws) =>
        words := ws;
      case Absent =>
        words := processArgv;
    }
  }

  method RootParse(schema: Help.SchemaObject, argv: Argv, processArgv: seq<string>,
                   handler: ParseError -> Validation.Reaction, terminalColumns: int)
    returns (call: Call)
    modifies schema
    ensures schema.entries == Help.HelpMarked(old(schema.entries))
    ensures call == RootOutcome(old(schema.entries), Arguments(argv, processArgv), handler, terminalColumns)
  {
    var words := ResolveArgv(argv, processArgv);
    var helpArgs := Help.ProcessHelpArgs(schema);
    var out := RootParser.Parse(schema.entries, words);
    match out {
      case Error(e) =>
        var reaction := handler(e);
        if reaction != Validation.Return {
          call := Call(Raised(reaction), []);
        } else if helpArgs == [] {
          call := Call(HandlerReturned(e), []);
        } else {
          call := Call(Crashed, []);
        }
      case Parsed(opt, args) =>
        var output, stop := DispatchHelp(schema.entries, helpArgs, opt, terminalColumns);
        call := Call(if stop.Some? then stop.value else Returned(opt, args), output);
    }
  }

  /** A descriptor from the parser writes nothing. With the default
      callback, one with a truthy payload throws its message; a callback
      that returns makes the call crash exactly when the schema has a help
      option, since `parse` then reads `.opt` of the callback's value. */
  lemma RootErrors(opts: Opts, e: ParseError, handler: ParseError -> Validation.Reaction, terminalColumns: int)
    ensures var r := RootAfter(Help.HelpMarked(opts), Help.HelpArgsOf(opts), RootParser.Error(e), handler, terminalColumns);
      r.output == [] &&
      (handler == Validation.RootDefaultHandler && Validation.PayloadTruthy(e) && !e.Validation? && !e.MissingName? ==>
         r.ending == Threw(Validation.RootDefaultHandler(e).message)) &&
      (handler(e) == Validation.Return ==>
         (r.ending == Crashed <==> exists k :: 0 <= k < |opts| && SpecOf(opts[k].1).showHelp.Some?))
  {
    var helpArgs := Help.HelpArgsOf(opts);
    if helpArgs != [] {
      assert helpArgs[0] in helpArgs;
    }
  }

  // ---------------------------------------------------------------------
  // src/options-parser.js

  /** `parse` of src/options-parser.js once the parser has run on the
      marked schema: the parser always returns its result, the callback
      hearing each descriptor in order; then the help dispatch; then the
      type validation, whose descriptors go to the same callback. A
      callback that does not return ends the call. */
  function SrcAfter(marked: Opts, helpArgs: seq<Help.HelpArg>, p: TokenParser.Outcome,
                    handler: ParseError -> Validation.Reaction, validate: Validation.Validators, terminalColumns: int): (call: Call)
    ensures !call.ending.HandlerReturned?
    ensures Validation.FirstThrow(handler, p.calls).Some? ==> call.output == [] && !call.ending.Returned?
    ensures call.ending.Returned? ==> call.ending.opt.Keys == p.opt.Keys && call.ending.args == p.args
  {
    match Validation.FirstThrow(handler, p.calls)
    case Some(j) => Call(Raised(handler(p.calls[j])), [])
    case None =>
      var d := Dispatch(marked, helpArgs, p.opt, terminalColumns);
      if d.1.Some? then Call(d.1.value, d.0)
      else
        var v := Validation.ValidateAll(validate, marked, p.opt);
        match Validation.FirstThrow(handler, v.1)
        case Some(j) => Call(Raised(handler(v.1[j])), d.0)
        case None => Call(Returned(v.0, p.args), d.0)
  }

  /** `parse` of src/options-parser.js on the tokens of its argument
      vector. The callback's value is never returned; a descriptor from
      the parser that the callback throws on ends the call before any help
      is written; a call that returns keeps the keys and the positional
      arguments of the parse. */
  function SrcOutcome(opts: Opts, tokens: seq<TokenParser.Token>, handler: ParseError -> Validation.Reaction,
                      validate: Validation.Validators, terminalColumns: int): (call: Call)
    ensures !call.ending.HandlerReturned?
    ensures Validation.FirstThrow(handler, TokenParser.ParseSpec(Help.HelpMarked(opts), tokens).calls).Some? ==>
              call.output == [] && !call.ending.Returned?
    ensures call.ending.Returned? ==>
              call.ending.opt.Keys == TokenParser.ParseSpec(Help.HelpMarked(opts), tokens).opt.Keys &&
              call.ending.args == TokenParser.ParseSpec(Help.HelpMarked(opts), tokens).args
  {
    var marked := Help.HelpMarked(opts);
    SrcAfter(marked, Help.HelpArgsOf(opts), TokenParser.ParseSpec(marked, tokens), handler, validate, terminalColumns)
  }

  /** The callback receiving the descriptors in order, up to the first one
      it does not return from. */
  method Notify(handler: ParseError -> Validation.Reaction, calls: seq<ParseError>) returns (stop: Option<Ending>)
    ensures stop.None? <==> Validation.FirstThrow(handler, calls).None?
    ensures stop.Some? ==> stop.value == Raised(handler(calls[Validation.FirstThrow(handler, calls).value]))
  {
    var i := 0;
    while i < |calls|
      invariant 0 <= i <= |calls|
      invariant forall j :: 0 <= j < i ==> handler(calls[j]) == Validation.Return
    {
      var reaction := handler(calls[i]);
      if reaction != Validation.Return {
        return Some(Raised(reaction));
      }
      i := i + 1;
    }
    return None;
  }

  /** The tokens are what the tokenizer of the newer parser makes of
      `argv`, or of `process.argv.slice(2)` when `argv` is absent. */
  method SrcParse(schema: Help.SchemaObject, tokens: seq<TokenParser.Token>, handler: ParseError -> Validation.Reaction,
                  validate: Validation.Validators, terminalColumns: int)
    returns (call: Call)
    modifies schema
    ensures schema.entries == Help.HelpMarked(old(schema.entries))
    ensures call == SrcOutcome(old(schema.entries), tokens, handler, validate, terminalColumns)
  {
    var helpArgs := Help.ProcessHelpArgs(schema);
    var result, calls := TokenParser.ParseTokens(schema.entries, tokens);
    call := AfterParse(schema.entries, helpArgs, result, calls, handler, validate, terminalColumns);
  }

  /** What `parse` does once the parser has returned: the callback, the
      help dispatch and the validation. */
  method AfterParse(marked: Opts, helpArgs: seq<Help.HelpArg>, result: TokenParser.ParseResult, calls: seq<ParseError>,
                    handler: ParseError -> Validation.Reaction, validate: Validation.Validators, terminalColumns: int)
    returns (call: Call)
    modifies result`opt
    ensures call == SrcAfter(marked, helpArgs, TokenParser.Outcome(old(result.opt), result.args, calls), handler, validate, terminalColumns)
  {
    var stop := Notify(handler, calls);
    if stop.Some? {
      return Call(stop.value, []);
    }
    var output, exit := DispatchHelp(marked, helpArgs, result.opt, terminalColumns);
    if exit.Some? {
      return Call(exit.value, output);
    }
    var more := Validation.ValidateTypes(validate, marked, result);
    stop := Notify(handler, more);
    if stop.Some? {
      return Call(stop.value, output);
    }
    return Call(Returned(result.opt, result.args), output);
  }

  /** Help runs before validation: when the dispatch exits or hangs, no
      validator is consulted, so any two sets of validators give the same
      call. */
  lemma HelpBeforeValidation(marked: Opts, helpArgs: seq<Help.HelpArg>, p: TokenParser.Outcome,
                             handler: ParseError -> Validation.Reaction,
                             v1: Validation.Validators, v2: Validation.Validators, terminalColumns: int)
    requires Validation.FirstThrow(handler, p.calls).None?
    requires Dispatch(marked, helpArgs, p.opt, terminalColumns).1.Some?
    ensures SrcAfter(marked, helpArgs, p, handler, v1, terminalColumns) == SrcAfter(marked, helpArgs, p, handler, v2, terminalColumns)
    ensures SrcAfter(marked, helpArgs, p, handler, v1, terminalColumns).ending in {Exited, Hangs}
  {
  }

  /** With the default callback as the program has it, the first
      descriptor the validation reports is thrown as the error message,
      after the help output, provided the parse itself reported nothing. */
  lemma ValidationMessageThrown(marked: Opts, helpArgs: seq<Help.HelpArg>, p: TokenParser.Outcome,
                                validate: Validation.Validators, terminalColumns: int)
    requires p.calls == [] && Dispatch(marked, helpArgs, p.opt, terminalColumns).1.None?
    requires var v := Validation.ValidateAll(validate, marked, p.opt);
      v.1 != [] && v.1[0] != Validation("")
    ensures var v := Validation.ValidateAll(validate, marked, p.opt);
      SrcAfter(marked, helpArgs, p, Validation.SrcDefaultHandlerAsWritten, validate, terminalColumns) ==
        Call(Threw(v.1[0].message), Dispatch(marked, helpArgs, p.opt, terminalColumns).0)
  {
    var v := Validation.ValidateAll(validate, marked, p.opt);
    assert v.1[0] in v.1;
  }

  /** Parsing again with the schema object a first `parse` marked gives
      the same call: marking is done once and for all. */
  lemma ParseAgain(opts: Opts, tokens: seq<TokenParser.Token>, argv: seq<string>, handler: ParseError -> Validation.Reaction,
                   validate: Validation.Validators, terminalColumns: int)
    ensures SrcOutcome(Help.HelpMarked(opts), tokens, handler, validate, terminalColumns) ==
            SrcOutcome(opts, tokens, handler, validate, terminalColumns)
    ensures RootOutcome(Help.HelpMarked(opts), argv, handler, terminalColumns) ==
            RootOutcome(opts, argv, handler, terminalColumns)
  {
    Help.MarkingKeepsHelpArgs(opts);
    Help.MarkingIsStable(opts);
  }
}

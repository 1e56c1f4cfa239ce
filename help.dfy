/** The help printer shared, line for line, by options-parser.js and
    src/options-parser.js: the help options with their defaults, the width
    of the option column, the banner with its `%REQ_OPTS%` placeholder,
    the option lines with their wrapped help text, and `processHelpArgs_`,
    which marks the help-triggering options as flags in the schema itself.
    The output sink is modelled as the sequence of lines it receives. */
module Help {
  import opened Common
  import opened Schema
  import Helper

  // ---------------------------------------------------------------------
  // processHelpArgs_

  /** The schema object the caller passes to `parse`; `processHelpArgs_`
      changes its entries in place. */
  class SchemaObject {
    var entries: Opts

    constructor(entries: Opts)
      ensures this.entries == entries
    {
      this.entries := entries;
    }
  }

  /** `{name, options}`: an option whose `showHelp` is set, with its help
      options. */
  datatype HelpArg = HelpArg(name: string, options: HelpOptions)

  /** The change `processHelpArgs_` makes to one config: an option with a
      truthy `showHelp` and no `flag` key becomes a flag; nothing else
      changes. */
  function HelpFlagged(c: Config): (d: Config)
    ensures SpecOf(d).(flag := None) == SpecOf(c).(flag := None)
    ensures IsFlag(SpecOf(d)) <==> IsFlag(SpecOf(c)) || (SpecOf(c).showHelp.Some? && SpecOf(c).flag.None?)
    ensures SpecOf(c).flag.Some? || SpecOf(c).showHelp.None? ==> d == c
  {
    match c
    case Shorthand(_) => c
    case Spec(s) => if s.showHelp.Some? && s.flag.None? then Spec(s.(flag := Some(true))) else c
  }

  /** The help arguments of a schema: its options with a truthy `showHelp`,
      in key order. */
  function HelpArgsOf(opts: Opts): (r: seq<HelpArg>)
    ensures forall a :: a in r ==> exists k :: 0 <= k < |opts| && opts[k].0 == a.name && SpecOf(opts[k].1).showHelp == Some(a.options)
    ensures forall k :: 0 <= k < |opts| && SpecOf(opts[k].1).showHelp.Some? ==>
      HelpArg(opts[k].0, SpecOf(opts[k].1).showHelp.value) in r
    decreases |opts|
  {
    if opts == [] then []
    else
      var n := |opts| - 1;
      var s := SpecOf(opts[n].1);
      assert forall k :: 0 <= k < n ==> opts[k] == opts[..n][k];
      HelpArgsOf(opts[..n]) + (if s.showHelp.Some? then [HelpArg(opts[n].0, s.showHelp.value)] else [])
  }

  /** The schema as `processHelpArgs_` leaves it: every config passed
      through `HelpFlagged`, the names and their order kept. */
  function HelpMarked(opts: Opts): (r: Opts)
    ensures |r| == |opts|
    ensures forall k :: 0 <= k < |opts| ==> r[k].0 == opts[k].0 && r[k].1 == HelpFlagged(opts[k].1)
    decreases |opts|
  {
    if opts == [] then [] else [(opts[0].0, HelpFlagged(opts[0].1))] + HelpMarked(opts[1..])
  }

  /** Marking keeps the help arguments: the same names with the same help
      options, in the same order. */
  lemma {:induction false} MarkingKeepsHelpArgs(opts: Opts)
    ensures HelpArgsOf(HelpMarked(opts)) == HelpArgsOf(opts)
    decreases |opts|
  {
    if opts != [] {
      var n := |opts| - 1;
      var m := HelpMarked(opts);
      var p := HelpMarked(opts[..n]);
      assert m[..n] == p by {
        forall k | 0 <= k < n
          ensures m[..n][k] == p[k]
        {
          assert opts[..n][k] == opts[k];
        }
      }
      MarkingKeepsHelpArgs(opts[..n]);
    }
  }

  /** A marked schema is left as it is: `parse` called again with the
      same schema object changes nothing more. */
  lemma MarkingIsStable(opts: Opts)
    ensures HelpMarked(HelpMarked(opts)) == HelpMarked(opts)
  {
    var m := HelpMarked(opts);
    forall k | 0 <= k < |m|
      ensures HelpMarked(m)[k] == m[k]
    {
      assert SpecOf(m[k].1).flag.Some? || SpecOf(m[k].1).showHelp.None?;
    }
  }

  /** `processHelpArgs_`: the loop over the schema, which collects the help
      arguments and writes `flag = true` into the help options that lack a
      `flag` key. */
  method ProcessHelpArgs(opts: SchemaObject) returns (helpArgs: seq<HelpArg>)
    modifies opts
    ensures helpArgs == HelpArgsOf(old(opts.entries))
    ensures opts.entries == HelpMarked(old(opts.entries))
  {
    var entries := opts.entries;
    helpArgs := [];
    var i := 0;
    while i < |entries|
      invariant 0 <= i <= |entries| == |opts.entries|
      invariant forall k :: 0 <= k < i ==> entries[k] == (opts.entries[k].0, HelpFlagged(opts.entries[k].1))
      invariant forall k :: i <= k < |entries| ==> entries[k] == opts.entries[k]
      invariant helpArgs == HelpArgsOf(opts.entries[..i])
    {
      assert opts.entries[..i + 1][..i] == opts.entries[..i];
      var (name, c) := entries[i];
      var s := SpecOf(c);
      if s.showHelp.Some? {
        helpArgs := helpArgs + [HelpArg(name, s.showHelp.value)];
        if s.flag.None? {
          entries := entries[i := (name, Spec(s.(flag := Some(true))))];
        }
      }
      i := i + 1;
    }
    assert opts.entries[..i] == opts.entries;
    assert entries == HelpMarked(opts.entries);
    opts.entries := entries;
  }

  // ---------------------------------------------------------------------
  // getHelpOptions_

  /** The help options after defaulting (the output sink is not a field:
      the lines are returned). */
  datatype Layout = Layout(paddingLeft: nat, separator: string, columns: int, banner: string, skipEmpty: bool)

  /** `getHelpOptions_`: `paddingLeft` is kept when it is a non-negative
      number and is 2 otherwise; an empty `separator` becomes three
      spaces; zero `columns` fall back to the terminal width, a parameter
      here. */
  function GetHelpOptions(options: HelpOptions, terminalColumns: int): (o: Layout)
    ensures options.paddingLeft.Some? && options.paddingLeft.value >= 0 ==> o.paddingLeft == options.paddingLeft.value
    ensures options.paddingLeft.None? || options.paddingLeft.value < 0 ==> o.paddingLeft == 2
    ensures o.separator == (if options.separator != "" then options.separator else "   ")
    ensures o.columns == (if options.columns != 0 then options.columns else terminalColumns)
    ensures o.banner == options.banner && o.skipEmpty == options.skipEmpty
  {
    Layout(
      if options.paddingLeft.Some? && options.paddingLeft.value >= 0 then options.paddingLeft.value else 2,
      if options.separator != "" then options.separator else "   ",
      if options.columns != 0 then options.columns else terminalColumns,
      options.banner,
      options.skipEmpty)
  }

  // ---------------------------------------------------------------------
  // getArgumentsWidth_

  /** The width one option asks for: its name, 4 more with a short alias,
      and unless it is a flag its value name (or VAL) plus a space, twice
      with a short alias. */
  function ArgWidth(name: string, c: Config): nat
  {
    var s := SpecOf(c);
    var len := |name| + (if s.short != "" then 4 else 0);
    if IsFlag(s) then len
    else
      var valLen := (if s.varName != "" then |s.varName| else 3) + 1;
      len + (if s.short != "" then 2 * valLen else valLen)
  }

  function WidthStep(prev: int, name: string, c: Config): int
  {
    var len := ArgWidth(name, c);
    if prev < len then len else prev
  }

  /** `getArgumentsWidth_`: the reduce over the schema, plus 2. The
      option column is 2 wider than the widest option, and at least 2. */
  function ArgumentsWidth(opts: Opts): (w: int)
    ensures w >= 2
    ensures forall k :: 0 <= k < |opts| ==> w >= ArgWidth(opts[k].0, opts[k].1) + 2
    ensures w == 2 || exists k :: 0 <= k < |opts| && w == ArgWidth(opts[k].0, opts[k].1) + 2
  {
    WidthFoldIsMax(opts, 0);
    Helper.FoldEntries(opts, WidthStep, 0) + 2
  }

  lemma {:induction false} WidthFoldIsMax(opts: Opts, acc: int)
    ensures var m := Helper.FoldEntries(opts, WidthStep, acc);
      m >= acc && (forall k :: 0 <= k < |opts| ==> m >= ArgWidth(opts[k].0, opts[k].1)) &&
      (m == acc || exists k :: 0 <= k < |opts| && m == ArgWidth(opts[k].0, opts[k].1))
    decreases |opts|
  {
    if opts != [] {
      var next := WidthStep(acc, opts[0].0, opts[0].1);
      WidthFoldIsMax(opts[1..], next);
      var m := Helper.FoldEntries(opts, WidthStep, acc);
      forall k | 0 <= k < |opts|
        ensures m >= ArgWidth(opts[k].0, opts[k].1)
      {
        if k > 0 {
          assert opts[1..][k - 1] == opts[k];
        }
      }
      if m != acc && m != next {
        var k :| 0 <= k < |opts[1..]| && m == ArgWidth(opts[1..][k].0, opts[1..][k].1);
        assert opts[1..][k] == opts[k + 1];
      }
    }
  }

  // ---------------------------------------------------------------------
  // getHelpBanner_

  const Placeholder := " %REQ_OPTS%"

  /** How the banner names one required option: `-s` with a short alias,
      else `--name`, followed by ` VARNAME` (or ` VAL`) unless it is a
      flag. */
  function ReqWord(name: string, s: OptionSpec): (w: string)
    ensures w != [] && w[0] == '-'
  {
    (if s.short != "" then "-" + s.short else "--" + name) +
    (if !IsFlag(s) then " " + (if s.varName != "" then s.varName else "VAL") else "")
  }

  /** The reduce step of `REQ_OPTS`. */
  function ReqStep(prev: string, key: string, c: Config): string
  {
    var s := SpecOf(c);
    if !s.required then prev
    else
      var w := ReqWord(key, s);
      if prev != "" then prev + " " + w else w
  }

  function ReqOpts(opts: Opts): string
  {
    Helper.FoldEntries(opts, ReqStep, "")
  }

  /** The reference definition: the words of the required options in key
      order, and the words joined by single spaces. */
  function RequiredWords(opts: Opts): (words: seq<string>)
    ensures forall k :: 0 <= k < |words| ==> words[k] != [] && words[k][0] == '-'
    decreases |opts|
  {
    if opts == [] then []
    else
      var s := SpecOf(opts[0].1);
      (if s.required then [ReqWord(opts[0].0, s)] else []) + RequiredWords(opts[1..])
  }

  function Join(words: seq<string>): string
    decreases |words|
  {
    if words == [] then "" else if |words| == 1 then words[0] else words[0] + " " + Join(words[1..])
  }

  lemma {:induction false} ReqFold(opts: Opts, acc: string)
    ensures Helper.FoldEntries(opts, ReqStep, acc) ==
      if RequiredWords(opts) == [] then acc
      else if acc == "" then Join(RequiredWords(opts))
      else acc + " " + Join(RequiredWords(opts))
    decreases |opts|
  {
    if opts != [] {
      var s := SpecOf(opts[0].1);
      var next := ReqStep(acc, opts[0].0, opts[0].1);
      assert Helper.FoldEntries(opts, ReqStep, acc) == Helper.FoldEntries(opts[1..], ReqStep, next);
      ReqFold(opts[1..], next);
      var rest := RequiredWords(opts[1..]);
      if s.required {
        var w := ReqWord(opts[0].0, s);
        assert RequiredWords(opts) == [w] + rest;
        assert next == if acc != "" then acc + " " + w else w;
        if rest == [] {
          assert Join([w] + rest) == w;
          assert Helper.FoldEntries(opts, ReqStep, acc) == next;
        } else {
          assert Join([w] + rest) == w + " " + Join(rest) by {
            assert ([w] + rest)[1..] == rest;
          }
          if acc != "" {
            calc {
              Helper.FoldEntries(opts, ReqStep, acc);
              acc + " " + w + " " + Join(rest);
              { Helper.SeqAppendAssoc(acc + " ", w, " " + Join(rest)); }
              acc + " " + (w + " " + Join(rest));
            }
          } else {
            assert Helper.FoldEntries(opts, ReqStep, acc) == w + " " + Join(rest);
          }
        }
      } else {
        assert next == acc;
        assert RequiredWords(opts) == rest;
      }
    }
  }

  /** `REQ_OPTS` is the required options' words joined by single spaces. */
  lemma ReqOptsJoins(opts: Opts)
    ensures ReqOpts(opts) == Join(RequiredWords(opts))
  {
    ReqFold(opts, "");
  }

  predicate OccursAt(s: string, pat: string, j: nat)
  {
    j + |pat| <= |s| && s[j..j + |pat|] == pat
  }

  /** `s.indexOf(pat)`: the first position where pat occurs. */
  function IndexOf(s: string, pat: string, from: nat): (r: Option<nat>)
    requires from <= |s|
    ensures r.Some? ==> from <= r.value && OccursAt(s, pat, r.value)
    ensures forall j: nat :: from <= j && OccursAt(s, pat, j) ==> r.Some? && r.value <= j
    decreases |s| - from
  {
    if from + |pat| > |s| then None
    else if s[from..from + |pat|] == pat then Some(from)
    else IndexOf(s, pat, from + 1)
  }

  /** `getHelpBanner_`: the first ` %REQ_OPTS%` is replaced by a space
      and the required options' words, or removed together with its
      leading space when no option is required; a banner without the
      placeholder is kept. */
  function Banner(opts: Opts, banner: string): (r: string)
    ensures IndexOf(banner, Placeholder, 0).None? ==> r == banner
    ensures IndexOf(banner, Placeholder, 0).Some? ==>
      var i := IndexOf(banner, Placeholder, 0).value;
      r == banner[..i] + (if RequiredWords(opts) == [] then "" else " " + Join(RequiredWords(opts))) + banner[i + |Placeholder|..]
  {
    match IndexOf(banner, Placeholder, 0)
    case None => banner
    case Some(i) =>
      ReqOptsJoins(opts);
      var words := ReqOpts(opts);
      var val := if words != "" then " " + words else "";
      assert RequiredWords(opts) != [] ==> words != "" by {
        if RequiredWords(opts) != [] {
          JoinStartsWithDash(RequiredWords(opts));
        }
      }
      banner[..i] + val + banner[i + |Placeholder|..]
  }

  lemma {:induction false} JoinStartsWithDash(words: seq<string>)
    requires words != [] && forall k :: 0 <= k < |words| ==> words[k] != [] && words[k][0] == '-'
    ensures Join(words) != [] && Join(words)[0] == '-'
  {
    if |words| > 1 {
      assert (words[0] + " " + Join(words[1..]))[0] == words[0][0];
    }
  }

  // ---------------------------------------------------------------------
  // help

  /** ` VARNAME` (or ` VAL`) for an option that takes a value, else "". */
  function VarSuffix(s: OptionSpec): string
  {
    if !IsFlag(s) then " " + (if s.varName != "" then s.varName else "VAL") else ""
  }

  /** The option column of one option: the left padding, `-` before a
      one-character name and `--` before a longer one, the name and its
      value suffix; then `, -s` and the suffix again for a short alias. */
  function NameColumn(paddingLeft: nat, name: string, s: OptionSpec): (col: string)
    ensures |col| == paddingLeft + (if |name| == 1 then 1 else 2) + |name| + |VarSuffix(s)| +
      (if s.short != "" then 3 + |s.short| + |VarSuffix(s)| else 0)
  {
    var head := Helper.Repeated(' ', paddingLeft) + (if |name| == 1 then "-" else "--") + name + VarSuffix(s);
    if s.short != "" then head + ", -" + s.short + VarSuffix(s) else head
  }

  /** With aliases of at most one character, the option column always fits
      the width `getArgumentsWidth_` reserves. */
  lemma NameColumnFits(paddingLeft: nat, name: string, c: Config)
    requires |SpecOf(c).short| <= 1
    ensures |NameColumn(paddingLeft, name, SpecOf(c))| <= ArgWidth(name, c) + 2 + paddingLeft
  {
  }

  /** Whether the option is left out of the help: no help text while
      `skipEmpty` is set. */
  predicate Skipped(o: Layout, c: Config)
  {
    SpecOf(c).help == "" && o.skipEmpty
  }

  /** The lines of one option, given the lines of its wrapped help text:
      the padded option column, the separator and the first text line,
      then each further text line indented by the option column and
      separator widths. */
  function OptionBlock(o: Layout, maxArg: int, name: string, s: OptionSpec, text: seq<string>): (block: seq<string>)
    requires |text| >= 1
    ensures |block| == |text|
  {
    [Helper.Pad(NameColumn(o.paddingLeft, name, s), maxArg) + o.separator + text[0]] +
    Indented(Helper.Repeated(' ', maxArg + |o.separator|), text[1..])
  }

  /** Lines, each preceded by indent. */
  function Indented(indent: string, lines: seq<string>): (r: seq<string>)
    ensures |r| == |lines|
    ensures forall k {:trigger r[k]} :: 0 <= k < |lines| ==> r[k] == indent + lines[k]
    decreases |lines|
  {
    if lines == [] then [] else Indented(indent, lines[..|lines| - 1]) + [indent + lines[|lines| - 1]]
  }

  /** What `help` writes for one option: nothing when it is skipped, else
      its lines with the help text wrapped to maxText. */
  function EntryLines(o: Layout, maxArg: int, maxText: int, name: string, c: Config): seq<string>
    requires maxText >= -1
  {
    if Skipped(o, c) then []
    else
      var s := SpecOf(c);
      OptionBlock(o, maxArg, name, s, Helper.Fit(s.help, maxText))
  }

  /** What `help` writes for the options, in key order. */
  function OptionLines(o: Layout, maxArg: int, maxText: int, opts: Opts): seq<string>
    requires maxText >= -1
    decreases |opts|
  {
    if opts == [] then []
    else
      var n := |opts| - 1;
      OptionLines(o, maxArg, maxText, opts[..n]) + EntryLines(o, maxArg, maxText, opts[n].0, opts[n].1)
  }

  /** The widths `help` works with: the options after defaulting, the
      width of the option column (`getArgumentsWidth_` plus the left
      padding) and the width left for help text. */
  datatype Columns = Columns(layout: Layout, maxArg: int, maxText: int)

  function ColumnsOf(opts: Opts, options: HelpOptions, terminalColumns: int): Columns
  {
    var o := GetHelpOptions(options, terminalColumns);
    var maxArg := ArgumentsWidth(opts) + o.paddingLeft;
    Columns(o, maxArg, o.columns - maxArg - |o.separator|)
  }

  /** The option column, the separator and the help text share the
      columns of the output; the option column holds every option's name
      column and two more spaces. */
  lemma ColumnsShare(opts: Opts, options: HelpOptions, terminalColumns: int)
    ensures var c := ColumnsOf(opts, options, terminalColumns);
      c.layout == GetHelpOptions(options, terminalColumns) &&
      c.maxArg + |c.layout.separator| + c.maxText == c.layout.columns &&
      c.maxArg >= c.layout.paddingLeft + 2 &&
      forall k :: 0 <= k < |opts| ==> c.maxArg >= c.layout.paddingLeft + ArgWidth(opts[k].0, opts[k].1) + 2
  {
  }

  /** The banner line, when there is a banner. */
  function BannerLines(opts: Opts, o: Layout): seq<string>
  {
    if o.banner != "" then [Banner(opts, o.banner)] else []
  }

  /** Everything `help` writes to the output for a layout: the banner,
      when there is one, then the lines of each option in key order. */
  function Render(opts: Opts, o: Layout, maxArg: int, maxText: int): seq<string>
    requires maxText >= -1
  {
    BannerLines(opts, o) + OptionLines(o, maxArg, maxText, opts)
  }

  /** Everything `help(opts, options)` writes to the output. */
  function HelpLines(opts: Opts, options: HelpOptions, terminalColumns: int): seq<string>
    requires ColumnsOf(opts, options, terminalColumns).maxText >= -1
  {
    var c := ColumnsOf(opts, options, terminalColumns);
    Render(opts, c.layout, c.maxArg, c.maxText)
  }

  /** `help`: the banner, then the loop over the schema writing lines to
      the output. A text width of -2 or less would make `fitWidth` loop
      forever, hence the precondition. */
  method PrintHelp(opts: Opts, options: HelpOptions, terminalColumns: int) returns (output: seq<string>)
    requires ColumnsOf(opts, options, terminalColumns).maxText >= -1
    ensures output == HelpLines(opts, options, terminalColumns)
  {
    var c := ColumnsOf(opts, options, terminalColumns);
    var paddingLeft := Helper.Repeat(' ', c.layout.paddingLeft);
    var lines := PrintOptions(c.layout, paddingLeft, c.maxArg, c.maxText, opts);
    output := BannerLines(opts, c.layout) + lines;
  }

  /** The loop of `help` over the schema. */
  method PrintOptions(o: Layout, paddingLeft: string, maxArgLength: int, maxTextLength: int, opts: Opts)
    returns (output: seq<string>)
    requires maxTextLength >= -1 && paddingLeft == Helper.Repeated(' ', o.paddingLeft)
    ensures output == OptionLines(o, maxArgLength, maxTextLength, opts)
  {
    output := [];
    var i := 0;
    while i < |opts|
      invariant 0 <= i <= |opts|
      invariant output == OptionLines(o, maxArgLength, maxTextLength, opts[..i])
    {
      OptionLinesStep(o, maxArgLength, maxTextLength, opts, i);
      var (optName, c) := opts[i];
      var block := PrintEntry(o, paddingLeft, maxArgLength, maxTextLength, optName, c);
      output := output + block;
      i := i + 1;
    }
    assert opts[..i] == opts;
  }

  lemma OptionLinesStep(o: Layout, maxArg: int, maxText: int, opts: Opts, i: nat)
    requires maxText >= -1 && i < |opts|
    ensures OptionLines(o, maxArg, maxText, opts[..i + 1]) ==
      OptionLines(o, maxArg, maxText, opts[..i]) + EntryLines(o, maxArg, maxText, opts[i].0, opts[i].1)
  {
    assert opts[..i + 1][..i] == opts[..i];
  }

  /** The body of the loop of `help` for one option. */
  method PrintEntry(o: Layout, paddingLeft: string, maxArgLength: int, maxTextLength: int, optName: string, c: Config)
    returns (lines: seq<string>)
    requires maxTextLength >= -1 && paddingLeft == Helper.Repeated(' ', o.paddingLeft)
    ensures lines == EntryLines(o, maxArgLength, maxTextLength, optName, c)
  {
    var opt := SpecOf(c);
    if opt.help == "" && o.skipEmpty {
      return [];
    }
    var helpText := Helper.FitWidth(opt.help, maxTextLength);
    lines := PrintOption(o, paddingLeft, maxArgLength, optName, opt, helpText);
  }

  /** The body of the loop of `help` for one option that is not skipped,
      once its help text is wrapped. */
  method PrintOption(o: Layout, paddingLeft: string, maxArgLength: int, optName: string, opt: OptionSpec, helpText: seq<string>)
    returns (lines: seq<string>)
    requires |helpText| >= 1 && paddingLeft == Helper.Repeated(' ', o.paddingLeft)
    ensures lines == OptionBlock(o, maxArgLength, optName, opt, helpText)
  {
    var varName := if !IsFlag(opt) then " " + (if opt.varName != "" then opt.varName else "VAL") else "";
    var name := paddingLeft + (if |optName| == 1 then "-" else "--") + optName + varName;
    if opt.short != "" {
      name := name + ", -" + opt.short + varName;
    }
    assert name == NameColumn(o.paddingLeft, optName, opt);
    var first := Helper.Pad(name, maxArgLength) + o.separator + helpText[0];
    var padString := Helper.Repeat(' ', maxArgLength + |o.separator|);
    lines := IndentLines(first, padString, helpText[1..]);
  }

  /** The output of the first line and then of each further line of help
      text behind padString. */
  method IndentLines(first: string, padString: string, rest: seq<string>) returns (lines: seq<string>)
    ensures lines == [first] + Indented(padString, rest)
  {
    lines := [first];
    var k := 0;
    while k < |rest|
      invariant 0 <= k <= |rest|
      invariant lines == [first] + Indented(padString, rest[..k])
    {
      assert rest[..k + 1][..k] == rest[..k];
      lines := lines + [padString + rest[k]];
      k := k + 1;
    }
    assert rest[..k] == rest;
  }

  // ---------------------------------------------------------------------
  // properties of the help output

  /** When a banner is set it is the first line, before any option line. */
  lemma BannerFirst(opts: Opts, options: HelpOptions, terminalColumns: int)
    requires ColumnsOf(opts, options, terminalColumns).maxText >= -1
    requires options.banner != ""
    ensures |HelpLines(opts, options, terminalColumns)| >= 1
    ensures HelpLines(opts, options, terminalColumns)[0] == Banner(opts, options.banner)
  {
  }

  /** The number of help-text lines of the options shown. */
  function TextLines(o: Layout, maxText: int, opts: Opts): nat
    requires maxText >= -1
    decreases |opts|
  {
    if opts == [] then 0
    else
      var n := |opts| - 1;
      TextLines(o, maxText, opts[..n]) + (if Skipped(o, opts[n].1) then 0 else |Helper.Fit(SpecOf(opts[n].1).help, maxText)|)
  }

  lemma {:induction false} OptionLineCount(o: Layout, maxArg: int, maxText: int, opts: Opts)
    requires maxText >= -1
    ensures |OptionLines(o, maxArg, maxText, opts)| == TextLines(o, maxText, opts)
    ensures !o.skipEmpty ==> |OptionLines(o, maxArg, maxText, opts)| >= |opts|
    decreases |opts|
  {
    if opts != [] {
      OptionLineCount(o, maxArg, maxText, opts[..|opts| - 1]);
    }
  }

  /** The help has one line for the banner, when set, plus the lines of
      wrapped help text of every option shown; without `skipEmpty` every
      option is shown. */
  lemma {:induction false} HelpLineCount(opts: Opts, options: HelpOptions, terminalColumns: int)
    requires ColumnsOf(opts, options, terminalColumns).maxText >= -1
    ensures var c := ColumnsOf(opts, options, terminalColumns);
      |HelpLines(opts, options, terminalColumns)| ==
        (if options.banner != "" then 1 else 0) + TextLines(c.layout, c.maxText, opts)
    ensures !options.skipEmpty ==> |HelpLines(opts, options, terminalColumns)| >= |opts|
  {
    var c := ColumnsOf(opts, options, terminalColumns);
    OptionLineCount(c.layout, c.maxArg, c.maxText, opts);
  }

  /** The layout of one option's lines when its option column fits: every
      line starts with a column of width maxArg + |separator| (the padded
      option column and separator on the first line, spaces on the
      others), and what follows is the corresponding line of text. */
  lemma BlockLayout(o: Layout, maxArg: int, name: string, s: OptionSpec, text: seq<string>)
    requires |text| >= 1 && maxArg >= 0
    requires |NameColumn(o.paddingLeft, name, s)| <= maxArg
    ensures var block := OptionBlock(o, maxArg, name, s, text);
      var w := maxArg + |o.separator|;
      (forall k :: 0 <= k < |block| ==> |block[k]| == w + |text[k]| && block[k][w..] == text[k]) &&
      block[0][..w] == Helper.Pad(NameColumn(o.paddingLeft, name, s), maxArg) + o.separator &&
      (forall k :: 1 <= k < |block| ==> block[k][..w] == Helper.Repeated(' ', w))
  {
    var block := OptionBlock(o, maxArg, name, s, text);
    var w := maxArg + |o.separator|;
    var head := Helper.Pad(NameColumn(o.paddingLeft, name, s), maxArg) + o.separator;
    assert |head| == w;
    assert block[0] == head + text[0];
    assert block[0][..w] == head;
    forall k | 0 <= k < |block|
      ensures |block[k]| == w + |text[k]| && block[k][w..] == text[k]
    {
      if k == 0 {
        assert block[0][w..] == text[0];
      } else {
        assert block[k] == Helper.Repeated(' ', w) + text[k];
        assert block[k][w..] == text[k];
      }
    }
    forall k | 1 <= k < |block|
      ensures block[k][..w] == Helper.Repeated(' ', w)
    {
      assert block[k] == Helper.Repeated(' ', w) + text[k];
    }
  }

  /** The help text of an option in its lines: no word is split or lost,
      and each line fits in maxArg + |separator| + maxText characters
      unless its text is a single unbreakable word. */
  lemma OptionTextLayout(o: Layout, maxArg: int, maxText: int, name: string, s: OptionSpec)
    requires maxText >= -1 && maxArg >= 0
    requires |NameColumn(o.paddingLeft, name, s)| <= maxArg
    ensures var text := Helper.Fit(s.help, maxText);
      var block := OptionBlock(o, maxArg, name, s, text);
      Helper.WordsOfLines(text) == Helper.Words(s.help, Helper.IsWhite) &&
      forall k :: 0 <= k < |block| ==> |block[k]| <= maxArg + |o.separator| + maxText || ' ' !in text[k]
  {
    var text := Helper.Fit(s.help, maxText);
    Helper.FitWidthLines(s.help, maxText);
    Helper.FitWidthKeepsWords(s.help, maxText);
    BlockLayout(o, maxArg, name, s, text);
    var block := OptionBlock(o, maxArg, name, s, text);
    forall k | 0 <= k < |block|
      ensures |block[k]| <= maxArg + |o.separator| + maxText || ' ' !in text[k]
    {
      assert Helper.GoodLine(text[k], maxText);
    }
  }
}

# options-parser, modelled in Dafny

This project models the core of the `options-parser` command-line option parser for Node.js. The repository holds two generations of the library, and both are modelled.

- **The string lexer** (`tokenizer.js`). It splits a command line into words with a three-state scanner: skipping blanks, in a word, in a quoted region. It has one-character escapes. Module `StringLexer`; the `Tokenizer` class holds the `input` and the cursor `pos`.
- **The first parser** (`parser.js`). It makes one left-to-right pass over the words. It classifies each word as a short option, a long option, `--name=value`, the `--` terminator or an ordinary word. It tracks the option that waits for a value, and it stops at the first error with the error callback's value. After the pass it lists the absent `required` options and injects defaults. Module `RootParser`.
- **The newer parser** (`src/parser.js`). A `Parser` object reads a stream of classified tokens. It builds an alias map, normalises the `true`/`false` shorthand configs and reads inline booleans. It collects every problem in lists, fills in defaults, checks `required`, and only then reports each problem to the error callback, in a fixed order. Module `TokenParser`; classes `Parser`, `TokenStream` (the token cursor) and `ParseResult` (`{opt, args}`).
- **The string helpers** (`helper.js`): `isAlphaNumericAt`, `repeat`, `pad`, the word wrapper `fitWidth` and the ordered fold `reduce`/`forEach`. Module `Helper`. The copies `repeatChar_`, `padString_` and `fitString_` in `options-parser.js` have the same bodies and are modelled by the same members.
- **Help and the `parse` entry points** (`options-parser.js`, `src/options-parser.js`).
  - `processHelpArgs_` marks help options as flags in place (module `Help`, class `SchemaObject`).
  - The help layout: `getHelpOptions_`, `getArgumentsWidth_`, the `%REQ_OPTS%` banner and `help`, with the output sink as a sequence of lines.
  - The two `parse` functions, including the help dispatch and, in the newer one, `validateTypes_` (module `OptionsParser`).
- **Type validation** (`types.js` `int`, `validateType_`, `validateTypes_`) and the default error handlers. Module `Validation`.

The schema (module `Schema`) is an ordered sequence of `(name, config)` entries, because JavaScript iterates object keys in insertion order. A config is either the boolean shorthand or an object of settings.

Values are modelled as follows.
- A value in `result.opt` is a `Value`: a string, a boolean, a number or an array.
- The error descriptors handed to the callback are `ParseError`s.
- Strings are sequences of characters.
- Integers are unbounded, because nothing in the core computes beyond small lengths.
- A number value (`Num`) is an integral JavaScript number. Fractional numbers are left out. The `int` validator accepts a number only below 10^21 in magnitude, because `String(n)` writes larger ones in exponent form.

Where the code and its documentation differ, the model follows the code:
- Inside double quotes, a backslash escapes any character, not only `"`.
- A lone trailing backslash ends the word without adding anything, so the input `\` lexes to one empty token (`StringLexer.LoneBackslash`).
- `parser.js` checks `required` before it injects defaults, but `src/parser.js` checks after (`TokenParser.DefaultMeetsRequiredOnlyHere`).
- The `false` shorthand config is an option that takes a value in `parser.js`, but a flag in `src/parser.js` (`TokenParser.FalseShorthandDiffers`).
- `getTruthValue` in `src/parser.js` matches `yes|1|true` at the start only and `no|0|false` at the end only, so `10` reads as true and `piano` as false (`TokenParser.LooseTrueWord`, `TokenParser.LooseFalseWord`).

## Model

| member | source | states |
|---|---|---|
| Helper.IsAlphaNumericAt | helper.js:7-12 | true exactly when index i of s holds an ASCII digit or letter; an index outside s gives false (`isalnum` of parser.js:1-6 is the same test) |
| Helper.Repeated | helper.js:20-26 | exactly count copies of ch, and the empty string when count is zero or negative |
| Helper.Repeat | helper.js:20-26 | the string-building loop (also `repeatChar_`, options-parser.js:118-124) returns exactly `Repeated(ch, count)` |
| Helper.Pad | helper.js:34-37 | s is a prefix of the result, the length is the larger of \|s\| and len, and only spaces follow s: it never truncates (also `padString_`, options-parser.js:132-135) |
| Helper.TrimLeft | helper.js:70 | removes the leading whitespace and nothing else: the result is a suffix that does not start with whitespace, and everything removed is whitespace |
| Helper.TrimRight | helper.js:48 | removes the trailing whitespace and nothing else |
| Helper.Trim | helper.js:48 | the result neither starts nor ends with whitespace, and is empty when s is all whitespace |
| Helper.TrimStripsWhite | helper.js:48 | the trimmed text is the part of s between a whitespace prefix and a whitespace suffix |
| Helper.WordsTrimLeft | helper.js:70 | `trimLeft` never changes the words of a text |
| Helper.WordsTrim | helper.js:48 | `trim` never changes the words of a text |
| Helper.LastSpace | helper.js:54-56 | the first inner loop stops at the last space at or before i, or at -1, with no space after it up to i |
| Helper.FirstSpace | helper.js:60-61 | the second inner loop stops at the first space at or after j, or at \|s\| |
| Helper.BreakPoint | helper.js:54-68 | the break is the last space at or before index len; failing that, the first space after it; failing that, \|s\| |
| Helper.FindBreak | helper.js:54-68 | the two search loops compute `BreakPoint` |
| Helper.Fit | helper.js:46-74 | `fitWidth` yields at least one line |
| Helper.FitWidth | helper.js:46-74 | the `while` loop over the shrinking text returns `Fit(str, len)` for every width at least -1 |
| Helper.FitLoopProperties | helper.js:52-72 | the lines of the loop hold the words of the remaining text in order, and each line fits or holds no space |
| Helper.FitWidthKeepsWords | helper.js:52-72 | no word is split or lost: the words of the lines, read in order, are the words of the input |
| Helper.FitWidthLines | helper.js:48-72 | every line fits in len characters or is a single word with no space, and no line starts with whitespace; when the trimmed text fits, it is the only line, so blank text gives `[""]` |
| Helper.Reduce | helper.js:85-91 | the accumulating loop of `reduce` equals the fold of the callback over the entries in key order |
| Helper.FoldEntriesAppend | helper.js:85-91 | entries are folded strictly in order: folding a concatenation folds the first part, then the second from where the first left off |
| StringLexer.Scan | tokenizer.js:14-91 | the cursor never moves back, stays within the input, and advances while input remains; the scan yields `null` exactly when, skipping, only spaces and tabs remain, and then the cursor is at the end |
| StringLexer.Lex | tokenizer.js:93-103 | there are no tokens exactly when only spaces and tabs remain, so empty or blank input gives `[]` |
| StringLexer.Tokenizer.constructor | tokenizer.js:2-6 | a tokenizer over the input with the cursor at 0 |
| StringLexer.Tokenizer.NextToken | tokenizer.js:14-91 | the state-machine loop returns the token and leaves the cursor where `Scan` from the skipping state says; the cursor never decreases |
| StringLexer.Tokenizer.AllTokens | tokenizer.js:93-103 | collects exactly `Lex(input, pos)` and leaves the cursor at the end |
| StringLexer.WordEscape | tokenizer.js:57-65 | outside quotes a backslash is dropped and the next character is kept, whatever it is (blank, quote, backslash), without ending the word |
| StringLexer.WordBlank | tokenizer.js:52-56 | an unescaped space or tab ends the word and is consumed |
| StringLexer.WordQuote | tokenizer.js:40-50 | an unescaped quote opens a quoted region inside the current word |
| StringLexer.TrailingBackslash | tokenizer.js:58-61 | a backslash that is the last character ends the word without adding anything |
| StringLexer.SingleQuoted | tokenizer.js:70-83 | the contents of a single-quoted region, backslashes included, are kept verbatim, and the word goes on after the closing quote |
| StringLexer.DoubleQuoted | tokenizer.js:70-83 | the contents of a double-quoted region without backslashes are kept verbatim, and the word goes on after the closing quote |
| StringLexer.DoubleQuotedEscape | tokenizer.js:71-81 | inside double quotes a backslash is dropped and the next character kept, so `\"` is a literal quote that does not close the region |
| StringLexer.Unterminated | tokenizer.js:70-90 | a quote that is never closed runs to the end of the input, and the word read so far plus the rest of the input is the last token |
| StringLexer.PlainWord | tokenizer.js:38-67 | a word without quotes or backslashes runs to the next space or tab |
| StringLexer.LexSkipsBlank | tokenizer.js:29-36 | blanks before a token are skipped |
| StringLexer.LexPlainWord | tokenizer.js:93-103 | a plain word is the next token, and lexing resumes after the blank that ends it |
| StringLexer.LexPlain | tokenizer.js:29-56 | input free of quotes and backslashes lexes to exactly its maximal runs of non-blank characters |
| StringLexer.LexPlainTokens | tokenizer.js:29-56 | such input never yields an empty token or a token holding a blank |
| StringLexer.ScanKeepsToken | tokenizer.js:14-91 | once a word has started, the scan hands out a token that extends the text read so far |
| StringLexer.FirstCharacterOfToken | tokenizer.js:14-91 | on any input, the next token starts with the first non-blank character unless that character is a quote or a backslash; so an empty token begins at a quote or a backslash |
| StringLexer.EmptyQuotes | tokenizer.js:40-50 | `""` and `''` each give one empty token |
| StringLexer.QuoteInsideWord | tokenizer.js:40-76 | quotes may open and close inside a word: `a" b"` is the single token `a b` |
| StringLexer.LoneBackslash | tokenizer.js:58-61 | the input `\` gives one empty token |
| StringLexer.EscapedBlank | tokenizer.js:52-65 | an escaped space is a word of its own: `a \  b` gives `a`, a space, `b` |
| Schema.Store | parser.js:48-57 | a `multi` option collects its values in an array in order, any other option keeps only the latest; no other key changes (also `addResultOption`, src/parser.js:66-76) |
| Schema.MultiCollectsInOrder | parser.js:48-57 | a `multi` option given values one after the other ends with all of them, in the order given |
| Schema.LastValueWins | parser.js:48-57 | any other option ends with its last value |
| Schema.RequiredAbsent | parser.js:130-144 | the reference list of missing options: only absent names, and every `required` option that is absent |
| Schema.DefaultsKeepSupplied | src/parser.js:58-64 | filling defaults never replaces a present value, and every option with a truthy default ends up present |
| Schema.DefaultsFillAbsent | src/parser.js:58-64 | every present value is kept, every absent option with a truthy default receives exactly that default, and no other key appears |
| RootParser.IsShortOption | parser.js:64 | a short option word is never a long option word nor `--` |
| RootParser.IsLongOption | parser.js:72 | a long option word is `--` followed by a non-empty name |
| RootParser.CutAtEq | parser.js:75-76 | `split('=')`, `shift` and `join('=')` cut at the first `=`: the name holds no `=`, and name, `=` and value give back the word |
| RootParser.CutAtEqOf | parser.js:75-76 | `--name=a=b` gives the value `a=b`: everything after the first `=` |
| RootParser.FindShort | parser.js:34-43 | the option found by alias is one whose `short` is the character, and none is found exactly when no option declares it |
| RootParser.LookupArg | parser.js:26-45 | a word names an option by key, or (one character long) by some option's `short`; the option expects a value exactly when it is not a flag; nothing is found exactly when neither lookup succeeds |
| RootParser.Step | parser.js:60-122 | only `--` ends the pass, appending the rest unread; only an option word fails, with a `required`, `unknown` or `argument` descriptor; only an ordinary word with no option waiting becomes a positional argument |
| RootParser.Run | parser.js:60-123 | the pass over the words ends, either finished or at an error |
| RootParser.ParseSpec | parser.js:16-150 | a parse that succeeds holds every `required` option; a list of missing names is never empty |
| RootParser.Parse | parser.js:16-150 | the `for` loop with its early returns, the trailing check and the required/default pass yield exactly `ParseSpec(opts, argv)` |
| RootParser.Advance | parser.js:61-122 | the body of the loop for one word is one `Step` |
| RootParser.ShortOption | parser.js:64-69 | the branch for `-x` is `Step` on that word, and it never ends the pass |
| RootParser.LongOption | parser.js:72-104 | the branch for `--name` and `--name=value` is `Step` on that word, and it never ends the pass |
| RootParser.CompleteLoop | parser.js:130-139 | the loop over the schema after the pass yields the final result and the missing names of `Complete` |
| RootParser.CompleteCoversRequired | parser.js:130-139 | the pass after the loop keeps every key, and a `required` option ends up in the result or among the missing names |
| RootParser.StepRest | parser.js:106-110 | the words after the current one matter only to `--` |
| RootParser.FirstErrorAborts | parser.js:60-123 | the first error ends the parse: whatever words follow, the outcome is that error |
| RootParser.OrdinaryWordsAreArgs | parser.js:119-122 | with no option waiting for a value, ordinary words (including `-ab` and `-`) become positional arguments in input order and change nothing else |
| RootParser.DoubleDashStops | parser.js:106-110 | `--` ends option processing, even while an option waits for a value, and every later word is a positional argument; the waiting state is kept, so a pending option still fails with `{required: last}` after the pass (`ValueMissingAtEnd`, parser.js:125-128) |
| RootParser.PendingValue | parser.js:112-117 | an ordinary word is stored as the value of the option waiting for one, and nothing waits afterwards |
| RootParser.OptionWhilePending | parser.js:66 | an option word while another option waits for its value is `{required: last}` |
| RootParser.InlineWord | parser.js:72-76 | `--name=value` is a long option named name with the inline value value |
| RootParser.InlineValue | parser.js:82-87 | `--name=value` on a value option stores everything after the first `=`, and nothing waits afterwards |
| RootParser.InlineFlag | parser.js:88-102 | `--name=v` on a flag stores false for `false`/`0`/`no` in any case, true for `true`/`1`/`yes`, and is `{argument: name}` otherwise |
| RootParser.ShortLongName | parser.js:77-78 | a long name of one character is `{unknown: '--x'}`, never looked up |
| RootParser.InlineWords | parser.js:93-95 | the inline words are matched without regard to case |
| RootParser.InlineWordsWhole | parser.js:93-95 | the inline words are matched whole: a longer or shorter word matches neither |
| RootParser.MissingInKeyOrder | parser.js:130-144 | the pass reports exactly the `required` options the words left absent, in key order, so a default injected by the same pass never satisfies `required` |
| RootParser.CompleteDefaults | parser.js:137-138 | the pass injects a truthy default exactly into an absent option |
| RootParser.ParseOutcome | parser.js:125-149 | after an error-free pass, `parse` fails with `{missing: [...]}` exactly when some required option is absent, and otherwise returns the words' result with the defaults added, and the positional words |
| RootParser.ValueMissingAtEnd | parser.js:125-128 | a value option as the last word is `{required: last}` |
| TokenParser.TokenStream.constructor | src/parser.js:119 | a cursor at the first token |
| TokenParser.TokenStream.Next | src/parser.js:122 | `next()` returns the token under the cursor and moves past it |
| TokenParser.LastAlias | src/parser.js:34-42 | the reference definition of an alias: the last option in key order that declares it |
| TokenParser.AliasMap | src/parser.js:34-42 | the keys are exactly the non-empty `short` values declared, each mapped to the last option that declares it |
| TokenParser.AliasMapLastWins | src/parser.js:34-42 | every non-empty `short` maps to the last option that declares it, so a later duplicate overwrites an earlier one; the empty string never becomes a key |
| TokenParser.Normalize | src/parser.js:44-56 | every config becomes an object; an object is unchanged; a shorthand becomes a flag exactly when it was `false`, with no other setting |
| TokenParser.NormalizeAll | src/parser.js:44-56 | names and their order are kept and every config becomes an object; an object is unchanged, and a shorthand becomes a flag exactly when it was `false`, with no other setting |
| TokenParser.FalseShorthandDiffers | src/parser.js:51-52 | the `false` shorthand is a flag to src/parser.js, while parser.js looks it up as an option that expects a value |
| TokenParser.GetTruthValue | src/parser.js:107-113 | an empty value is true; every word parser.js accepts for a flag is read the same way; a rejected word is one parser.js rejects too |
| TokenParser.TruthPrefixWins | src/parser.js:111-112 | a value that starts with `yes`, `1` or `true` in any case is true, whatever follows |
| TokenParser.LooseTrueWord | src/parser.js:111-112 | `10` is read as true, though parser.js rejects it and its end alone would read as false |
| TokenParser.LooseFalseWord | src/parser.js:111-112 | `piano` is read as false because of how it ends, though parser.js rejects it |
| TokenParser.UnmatchedWord | src/parser.js:111-112 | a word that matches neither end, such as `maybe`, gives `null` |
| TokenParser.Step | src/parser.js:120-171 | one pass of the loop always moves the cursor forward, staying within the tokens |
| TokenParser.Described | src/parser.js:98-105 | one descriptor per list element, in order |
| TokenParser.ParseResult.constructor | src/parser.js:22-25 | the result starts as `{opt: {}, args: []}` |
| TokenParser.Parser.constructor | src/parser.js:8-29 | the alias map is built from the schema as given, the config is then normalised, and the error lists and result start empty |
| TokenParser.Parser.GenerateAliasMap | src/parser.js:34-42 | the alias map is `AliasMap` of the config |
| TokenParser.Parser.NormalizeConfig | src/parser.js:44-56 | the config becomes `NormalizeAll` of the old config |
| TokenParser.Parser.SetDefaults | src/parser.js:58-64 | `result.opt` becomes the fold of the default rule over the config, in key order |
| TokenParser.Parser.AddResultOption | src/parser.js:66-76 | `result.opt` becomes `Store` of the old one: append for `multi`, overwrite otherwise |
| TokenParser.Parser.AddResultArg | src/parser.js:78-81 | the value is appended to `result.args` |
| TokenParser.Parser.CheckRequired | src/parser.js:176-179 | every `required` option absent from the result is appended to `errors.required`, in key order, and nothing else changes |
| TokenParser.Parser.InvokeErrorHandler | src/parser.js:88-93 | one callback call with the descriptor is recorded |
| TokenParser.Parser.ReportAll | src/parser.js:100-104 | one callback call per element of the list, in order |
| TokenParser.Parser.HandleErrors | src/parser.js:98-105 | the calls are `argument`, then `required`, `unknown`, `missing` (one name each) and `unknown` for each unclassified token |
| TokenParser.Parser.ConsumeToken | src/parser.js:122-170 | the loop body moves the cursor and changes the result and the error lists exactly as one `Step` |
| TokenParser.Parser.Parse | src/parser.js:115-185 | the loop, `setDefaults`, the required check and `handleErrors` leave the state `Finish(Consume(...))`, report its errors, and return the result object |
| TokenParser.ParseTokens | src/parser.js:195-199 | a new parser over the tokens returns a fresh result and makes the calls of `ParseSpec` |
| TokenParser.StepFacts | src/parser.js:120-171 | one pass moves one token on, or two when a VALUE is taken as the option's value; it adds the token's unknown name or unclassified value; it never touches `errors.required`; otherwise a VALUE token is appended to args |
| TokenParser.UnknownCollected | src/parser.js:167-170 | nothing stops the loop: every unknown option is collected, in order, wherever it appears, and the loop lists no required option |
| TokenParser.UnclassifiedCollected | src/parser.js:141-143 | every unclassified token is collected under `invalid`, in order |
| TokenParser.ValuesToArgs | src/parser.js:128-130 | when no option waits for a value, every VALUE token becomes a positional argument, in order |
| TokenParser.TakesFollowingValue | src/parser.js:159-164 | a value option without an inline value (`--key` or `--key=`) takes the next token when it is a VALUE |
| TokenParser.ValueNotFollowing | src/parser.js:161-162 | otherwise the token's own value is recorded under `expected_value`, and the next token is read on its own |
| TokenParser.ShortResolvesToLastAlias | src/parser.js:131-133 | a short option resolves to the last option declaring that alias |
| TokenParser.MissingOnePerName | src/parser.js:103 | the callback gets one `{missing: name}` per absent required option, carrying the name, never a list; there is exactly one call per collected problem |
| TokenParser.DefaultSatisfiesRequired | src/parser.js:173-179 | defaults are filled before the required check, so an option with a truthy default is always present and never reported missing |
| TokenParser.SuppliedBeatsDefault | src/parser.js:58-64 | a value given on the command line is never replaced by or merged with a default |
| TokenParser.DefaultMeetsRequiredOnlyHere | src/parser.js:173-179 | a required option with a default fails parser.js with `{missing: ['user']}` and gets its default from src/parser.js with no call |
| TokenParser.MultiDefaultNotMerged | src/parser.js:58-76 | for example, a `multi` option `i` with default `["janus"]` gives `["janus"]` with no tokens, `["a"]` for `-i a`, and `["a", "b"]` for `-i a -i b`: the default is never merged with given values |
| TokenParser.ValueMissingBeforeOption | src/parser.js:157-179 | for example, with `a` a required option taking a value and `b` a flag, the tokens `-a -b` give `{b: true}`, a `required` report for `a`, and then a `missing` report for `a` |
| Help.SchemaObject.constructor | src/options-parser.js:72-74 | the schema object holds the entries given |
| Help.HelpFlagged | src/options-parser.js:51-59 | an option with a truthy `showHelp` and no `flag` key becomes a flag; no other setting changes, and other configs are unchanged |
| Help.HelpArgsOf | src/options-parser.js:49-53 | the help arguments are exactly the options with a truthy `showHelp`, with those help options |
| Help.HelpMarked | src/options-parser.js:49-60 | the marked schema keeps the names and their order and passes every config through `HelpFlagged` |
| Help.MarkingKeepsHelpArgs | src/options-parser.js:46-63 | marking keeps the help arguments: the same names and help options, in the same order |
| Help.MarkingIsStable | src/options-parser.js:56-59 | marking a marked schema changes nothing |
| Help.ProcessHelpArgs | src/options-parser.js:46-63 | the loop returns the help arguments of the old schema and leaves the schema object marked (also options-parser.js:53-70) |
| Help.GetHelpOptions | options-parser.js:199-216 | `paddingLeft` is kept when it is a non-negative number and is 2 otherwise; an empty separator becomes three spaces; zero columns fall back to the terminal width |
| Help.WidthFoldIsMax | options-parser.js:181-190 | the reduce yields the maximum of the start value and every option's width, and it is one of them |
| Help.ArgumentsWidth | options-parser.js:179-192 | the option column is at least 2, and it is 2 wider than the widest option, or exactly 2 |
| Help.ReqWord | options-parser.js:234-236 | a required option is written as `-s` or `--name`, so its word starts with a dash |
| Help.RequiredWords | options-parser.js:229-243 | the reference words of the required options, in key order, each starting with a dash |
| Help.ReqFold | options-parser.js:230-242 | the reduce appends the required options' words to the start value with single spaces |
| Help.ReqOptsJoins | options-parser.js:229-243 | `REQ_OPTS` is the required options' words joined by single spaces |
| Help.IndexOf | options-parser.js:249 | `indexOf` finds the first occurrence of the pattern |
| Help.Banner | options-parser.js:224-258 | the first ` %REQ_OPTS%` is replaced by a space and the required options' words, or removed with its leading space when none is required; a banner without it is kept |
| Help.NameColumn | options-parser.js:285-288 | the option column has the padding, one dash for a one-character name and two otherwise, the name and its value suffix, then `, -s` and the suffix again for a short alias |
| Help.NameColumnFits | options-parser.js:179-192 | with aliases of at most one character, the option column fits the width `getArgumentsWidth_` reserves |
| Help.OptionBlock | options-parser.js:291-301 | an option writes one line per line of its wrapped help text |
| Help.Indented | options-parser.js:297-300 | each further line is the indent followed by the text line |
| Help.ColumnsShare | options-parser.js:267-271 | the option column, the separator and the help text share the columns, and the option column holds every option's width plus the padding and 2 |
| Help.PrintHelp | options-parser.js:265-303 | `help` writes exactly `HelpLines`: the banner when set, then every option's lines in key order (also src/options-parser.js:240-278) |
| Help.PrintOptions | options-parser.js:275-302 | the loop over the schema writes `OptionLines`, option by option in key order |
| Help.PrintEntry | options-parser.js:277-301 | the loop body writes nothing for a skipped option and otherwise its lines, with the help text wrapped to the text width |
| Help.PrintOption | options-parser.js:284-301 | for an option that is shown, the loop body writes `OptionBlock` |
| Help.IndentLines | options-parser.js:291-301 | the first line, then each further text line behind the indent |
| Help.BannerFirst | options-parser.js:273 | when a banner is set it is the first line, before any option line |
| Help.OptionLineCount | options-parser.js:275-302 | the options write one line per wrapped help-text line of each option shown, and without `skipEmpty` at least one per option |
| Help.HelpLineCount | options-parser.js:265-303 | the help has the banner line, when set, plus the wrapped lines of every option shown; without `skipEmpty` every option is shown |
| Help.BlockLayout | options-parser.js:291-301 | every line of an option starts with a column of width maxArgLength plus the separator: the padded option column and separator on the first line, spaces on the others; the text line follows |
| Help.OptionTextLayout | options-parser.js:282-301 | an option's help text loses or splits no word, and each line fits the columns unless its text holds no space |
| Validation.IntValidator | types.js:4-11 | `int(msg)` never replaces; it returns a message exactly when the value does not match `^-?[0-9]+$`, and the message is msg or the default one; a number matches only below 10^21 in magnitude, where `String(n)` has no exponent |
| Validation.IntStrings | types.js:9 | an optional minus sign followed by digits is an integer exactly when there is at least one digit, so `""` and `-` are rejected |
| Validation.ValidateItems | src/options-parser.js:131-137 | every element of an array value is validated in index order and replaced at its own index only; every report is `{validation: msg}` |
| Validation.ItemReports | src/options-parser.js:108-137 | an array value reports nothing exactly when no element's validator returns a string |
| Validation.ItemMessages | src/options-parser.js:108-137 | an array value reports `{validation: m}` exactly when the validator returns the string m for one of its elements |
| Validation.ValidateOption | src/options-parser.js:108-145 | a boolean shorthand, an option without a validator and an absent option are passed over; otherwise only the option's own key can change: a scalar value becomes what `replace` received (or stays) and the report is the validator's string, if any; an array value is validated by `ValidateItems` |
| Validation.OptionReports | src/options-parser.js:108-145 | one entry reports nothing exactly when it is validated and its validator returns no string for the value, nor for any element of an array value |
| Validation.OptionIsLocal | src/options-parser.js:124-145 | one entry reads and writes only its own option: on two results that agree on its name it reports the same and leaves the same value |
| Validation.ValidateAll | src/options-parser.js:122-147 | validation keeps the keys of the result and reports only `{validation: msg}` |
| Validation.Reports | src/options-parser.js:108-115 | a string verdict gives exactly one `{validation: msg}` with that string; any other verdict reports nothing |
| Validation.ValidateLast | src/options-parser.js:122-147 | with distinct option names, the last entry sees the parse result as it was, since the entries before it changed only their own options |
| Validation.ValidationReports | src/options-parser.js:108-147 | with distinct option names, the pass reports nothing exactly when no validated value (or array element) gets a string from its validator |
| Validation.ValidationMessages | src/options-parser.js:108-147 | with distinct option names, the pass reports `{validation: m}` exactly when the validation of some entry on the parse result does |
| Validation.ValidatedValues | src/options-parser.js:124-145 | with distinct option names, each option ends with the value its own validation gives its parsed value, whatever the entries before it did |
| Validation.ValidateTypes | src/options-parser.js:122-147 | the `forEach` over the schema leaves `result.opt` and the calls of `ValidateAll` |
| Validation.ValidateEntry | src/options-parser.js:124-145 | the callback for one entry leaves `result.opt` and the calls of `ValidateOption` |
| Validation.ValidateArray | src/options-parser.js:133-137 | the loop over an array value yields `ValidateItems` |
| Validation.ValidationTouchesTypedOnly | src/options-parser.js:125-128 | the value of an option without a validator is never changed |
| Validation.CheckOnlyKeepsResult | src/options-parser.js:108-115 | validators that never call `replace` leave the result unchanged, whatever they report |
| Validation.IntValidationKeepsResult | types.js:7-10 | the `int` validator never changes the result: every value, whatever its kind, is unchanged |
| Validation.MultiReplacement | src/options-parser.js:133-136 | for example, the `multi` values `ab`, `ba`, `zzo` become 97, 98 and 122 under a validator that replaces a value by its first character code: each replacement writes its own index only |
| Validation.RootDefaultHandler | options-parser.js:34-45 | the default handler throws exactly for a descriptor with a truthy payload, and never raises a `TypeError` |
| Validation.SrcDefaultHandlerAsWritten | src/options-parser.js:25-38 | the handler as written raises a `TypeError` on every `{missing: name}` that src/parser.js sends |
| Validation.SrcDefaultHandler | src/options-parser.js:25-38 | the corrected handler throws exactly for a truthy payload and never raises a `TypeError`; a single missing name gets the message of a list of one |
| Validation.MissingNameTypeError | src/options-parser.js:31-32 | for a missing name, the handler as written raises a `TypeError`, while the corrected one throws `Options <name> are required` |
| Validation.MissingTemplate | src/options-parser.js:19 | the missing-options message has one `%s` between `Options ` and ` are required` |
| Validation.FormatFills | src/options-parser.js:32 | `util.format` replaces the `%s` of the template by the argument |
| Validation.FirstThrow | src/options-parser.js:83-97 | the first callback call that does not return ends `parse`, and all the calls before it returned |
| OptionsParser.Arguments | options-parser.js:86-92 | a string is lexed, an array is used as it is, and anything else selects `process.argv.slice(2)` |
| OptionsParser.ResolveArgv | options-parser.js:86-92 | the branches on `argv` yield `Arguments` |
| OptionsParser.HelpOutput | options-parser.js:265-303 | the help writes `HelpLines` and returns when the text width is at least -1; with a lower width it writes the banner and never returns exactly when some option is shown |
| OptionsParser.Dispatch | src/options-parser.js:85-95 | the dispatch runs through, exits the process, or hangs in `help` |
| OptionsParser.DispatchWritesEveryHelp | src/options-parser.js:85-95 | a dispatch that runs through writes the help of every triggered help option, in order, and nothing else |
| OptionsParser.DispatchAppend | src/options-parser.js:85-95 | dispatching over two lists in turn: the second list is reached only when the first runs through, and then its lines follow the first list's |
| OptionsParser.DispatchHelp | src/options-parser.js:85-95 | the loop of `helpArgs.some` writes and stops as `Dispatch` says |
| OptionsParser.HelpCall | src/options-parser.js:88 | the call of `help` writes and finishes as `HelpOutput` says |
| OptionsParser.UntriggeredDispatch | src/options-parser.js:85-86 | when no help option was given, nothing is written and nothing stops |
| OptionsParser.DispatchRunsThrough | src/options-parser.js:85-95 | the dispatch runs through exactly when every triggered help option has `noExit` and its help returns |
| OptionsParser.FirstTriggeredExits | src/options-parser.js:85-95 | the first triggered help option without `noExit` writes its help and ends the process, whatever follows |
| OptionsParser.FirstTriggeredHangs | src/options-parser.js:85-95 | when the first triggered help option's help never returns, the call hangs after writing that help's banner, whatever its `noExit` |
| OptionsParser.RootAfter | options-parser.js:95-109 | a parse error writes nothing and never gives a result; a call that returns carries the parser's result unchanged; the callback's own value comes back only when there is no help option; with help options, the `Crashed` ending stands for a returned value without an `opt` object, such as `undefined` |
| OptionsParser.RootOutcome | options-parser.js:79-110 | the same on the marked schema: a parse error writes nothing, a returned call is the parser's result, and the callback's value comes back only without help options (with them, a value without an `opt` object crashes) |
| OptionsParser.RootParse | options-parser.js:79-110 | `parse` marks the schema object and ends as `RootOutcome` on the resolved words |
| OptionsParser.RootErrors | options-parser.js:95-98 | a descriptor from the parser writes nothing; the default handler throws its message; a callback that returns a value without an `opt` object (such as `undefined`) makes `parse` crash exactly when the schema has a help option |
| OptionsParser.Notify | src/parser.js:88-93 | the callback hears the descriptors in order and stops `parse` at the first one it does not return from |
| OptionsParser.SrcAfter | src/options-parser.js:83-99 | the callback's value is never returned; a descriptor from the parser that the callback throws on ends the call before any help is written; a call that returns keeps the keys and positional arguments of the parse, since validation only replaces values |
| OptionsParser.SrcOutcome | src/options-parser.js:72-100 | the same on the marked schema and the tokens |
| OptionsParser.SrcParse | src/options-parser.js:72-100 | `parse` marks the schema object and ends as `SrcOutcome` on the tokens |
| OptionsParser.AfterParse | src/options-parser.js:83-99 | after the parser: the callback's calls, the help dispatch, then the validation, ending as `SrcAfter` |
| OptionsParser.HelpBeforeValidation | src/options-parser.js:85-97 | help runs before validation: when the dispatch exits or hangs, no validator is consulted |
| OptionsParser.ValidationMessageThrown | src/options-parser.js:97 | with the default handler as written, the first validation message is thrown verbatim, after the help output |
| OptionsParser.ParseAgain | src/options-parser.js:82 | parsing again with a schema object a first `parse` marked gives the same call |

## Left out

- The classifier `src/tokenizer.js` is not part of this model. The newer parser reads a sequence of classified tokens. Past the last token, the token cursor reports a token that is not a VALUE.
- `src/string_tokenizer.js` and `src/helper.js` are not part of this model. The `Str` and `Obj` helpers of the newer files are taken to behave like those of helper.js. src/parser.js:48 calls `Obj.map`, which helper.js does not define; `TokenParser.NormalizeAll` takes it to be a map over the entries that keeps the keys and their order.
- Process effects are parameters:
  - `process.argv.slice(2)` is a parameter;
  - `process.exit(0)` ends the call with `Exited`;
  - the `util.puts` sink is the sequence of lines written;
  - `process.stdout.columns` is the parameter `terminalColumns`.
- The `callback` of a help option is a call into code the model cannot see, and it is not modelled. It is taken to return.
- The value a user's error callback returns is not modelled; the root parser's call ends with `HandlerReturned`. A callback that throws is a `Throw` with its message. The `Crashed` ending of the root parser with help options assumes that the returned value has no `opt` object, as `undefined` (what the default handler and `function(){}` return); a callback returning `{opt: ..., args: ...}` would have help dispatched on its value, and that case is not modelled.
- The `util.format` text of a non-string payload is modelled only as far as it matters. An array is its elements joined by commas; the `[name, value]` payload of an expected value is not formatted.
- The `regexp`/`regex` and `file.open*` validators of types.js are left out. They wrap the JavaScript regular-expression engine and the file system.
- `isString` and prototype-chain effects of `in` and property lookups are left out; the schema is an ordered sequence of entries.
- Configs that are `null`, `0` or other non-object values besides `true`, `false` and `1` are left out.
- Aliasing is left out. In the source an array default is the same object in the schema and in the result, so a validator's replacement of one of its elements also changes the schema's default. The model's values are copied, so the schema keeps its default.
- `String.prototype.replace` special patterns (`$&` and the like) in the required-options text are left out; option names are taken to hold no `$`.
- Fractional `paddingLeft`, non-numeric or NaN `columns` are left out; columns and padding are integers.
- Characters outside the Basic Multilingual Plane are left out. JavaScript counts such a character as two code units, but here it is one character, so help-layout widths would differ for such text.
- The expectations of `test/test.js` are not used; that file sets `parser.argv`, which parser.js never reads.
- Helper.FitWidth: requires a width of at least -1. With a width of -2 or less the source loops forever, so the model states nothing there.
- Help.PrintHelp: requires a text width of at least -1 for the same reason. `OptionsParser.HelpOutput` models the endless call by the banner it writes and `finishes` false; the lines of the endless loop itself are not modelled.
- Help.NameColumnFits: stated only for aliases of at most one character, because a longer alias is wider than the 4 columns `getArgumentsWidth_` reserves for it.

## Findings

| source | as written | input that shows it | evidently intended | confidence | as-written member | corrected member |
|---|---|---|---|---|---|---|
| src/options-parser.js:31-32 | `defaultErrorHandler` formats `err.missing.join(', ')`, but src/parser.js:103 reports each missing option as `{missing: name}` with a string payload, and strings have no `join` | a schema with one `required` option `user`, parsed with no arguments and the default handler: the handler raises a `TypeError` instead of the intended message | throw `Options user are required`, as options-parser.js does for a list of one name | not executed | Validation.SrcDefaultHandlerAsWritten (lemma Validation.MissingNameTypeError) | Validation.SrcDefaultHandler |

/** The shell-style string lexer of tokenizer.js: a scanner with a cursor
    `pos` over the input that hands out one word per call to `nextToken`.
    Blanks (space and tab) separate words; single and double quotes group
    characters, and may open or close in the middle of a word; a backslash
    escapes one character, with rules that differ outside quotes, inside
    single quotes and inside double quotes. */
module StringLexer {
  import opened Common
  import Helper

  /** The separators between words: space and tab only. */
  predicate IsBlank(c: char)
  {
    c == ' ' || c == '\t'
  }

  /** A character with a meaning of its own to the scanner. */
  predicate IsSpecial(c: char)
  {
    c == '"' || c == '\'' || c == '\\'
  }

  /** The scanner's state between two characters: skipping blanks (state
      0, no token yet), inside a bare word (state 1) or inside a quoted
      region opened by `quote` (state 2). `escape` is set exactly when the
      previous character was a backslash that escapes this one. */
  datatype LexState = Skipping | InWord(escape: bool) | InQuote(quote: char, escape: bool)

  /** The scan `nextToken` performs from position pos in state st with the
      token read so far: the token it returns (None for JavaScript `null`)
      and where it leaves the cursor. */
  function Scan(input: string, pos: nat, st: LexState, token: string): (r: (Option<string>, nat))
    requires pos <= |input|
    ensures pos <= r.1 <= |input|
    ensures pos < |input| ==> pos < r.1
    ensures r.0 == None <==> st.Skipping? && forall k :: pos <= k < |input| ==> IsBlank(input[k])
    ensures r.0 == None ==> r.1 == |input|
    decreases |input| - pos, if st.Skipping? then 1 else 0
  {
    if pos == |input| then
      (if st.Skipping? then None else Some(token), pos)
    else
      var ch := input[pos];
      match st
      case Skipping =>
        if !IsBlank(ch) then Scan(input, pos, InWord(false), "")
        else Scan(input, pos + 1, Skipping, token)
      case InWord(escape) =>
        if ch == '"' || ch == '\'' then
          if escape then Scan(input, pos + 1, InWord(false), token + [ch])
          else Scan(input, pos + 1, InQuote(ch, false), token)
        else if !escape && IsBlank(ch) then (Some(token), pos + 1)
        else if !escape && ch == '\\' then Scan(input, pos + 1, InWord(true), token)
        else Scan(input, pos + 1, InWord(false), token + [ch])
      case InQuote(quote, escape) =>
        if ch == quote then
          if escape && ch == '"' then Scan(input, pos + 1, InQuote(quote, false), token + [ch])
          else Scan(input, pos + 1, InWord(false), token)
        else if !escape && ch == '\\' && quote == '"' then Scan(input, pos + 1, InQuote(quote, true), token)
        else Scan(input, pos + 1, InQuote(quote, false), token + [ch])
  }

  /** The tokens `allTokens` collects from position pos on. There are none
      exactly when only blanks remain. */
  function Lex(input: string, pos: nat): (tokens: seq<string>)
    requires pos <= |input|
    ensures tokens == [] <==> forall k :: pos <= k < |input| ==> IsBlank(input[k])
    decreases |input| - pos
  {
    var r := Scan(input, pos, Skipping, "");
    if r.0.None? then [] else [r.0.value] + Lex(input, r.1)
  }

  /** The scanner object: the input and the cursor `pos`. */
  class Tokenizer {
    const input: string
    var pos: nat

    predicate Valid()
      reads this
    {
      pos <= |input|
    }

    constructor (input: string)
      ensures this.input == input && pos == 0 && Valid()
    {
      this.input := input;
      pos := 0;
    }

    /** The state named by the source's three variables. */
    static function StateOf(state: int, strch: char, escape: bool): LexState
    {
      if state == 0 then Skipping else if state == 1 then InWord(escape) else InQuote(strch, escape)
    }

    /** Reads the next word, or None when only blanks remain; the cursor
        ends just past the blank that closed the word, or at the end. */
    method NextToken() returns (token: Option<string>)
      requires Valid()
      modifies this
      ensures Valid() && old(pos) <= pos
      ensures (token, pos) == Scan(input, old(pos), Skipping, "")
    {
      var state := 0;
      var tok := "";
      var strch := ' ';
      var escape := false;
      var saveEscape := false;
      while pos < |input|
        invariant Valid() && old(pos) <= pos
        invariant 0 <= state <= 2
        invariant state == 0 ==> !escape
        invariant Scan(input, pos, StateOf(state, strch, escape), tok) == Scan(input, old(pos), Skipping, "")
        decreases |input| - pos, if state == 0 then 1 else 0
      {
        var ch := input[pos];
        saveEscape := escape;
        if state == 0 {
          if !IsBlank(ch) {
            state := 1;
            tok := "";
            continue;
          }
        } else if state == 1 {
          if ch == '"' || ch == '\'' {
            if escape {
              tok := tok + [ch];
            } else {
              state := 2;
              strch := ch;
            }
          } else if !escape && IsBlank(ch) {
            pos := pos + 1;
            return Some(tok);
          } else {
            if !escape && ch == '\\' {
              escape := true;
            } else {
              tok := tok + [ch];
            }
          }
        } else {
          if ch == strch {
            if escape && ch == '"' {
              tok := tok + [ch];
            } else {
              state := 1;
            }
          } else {
            if !escape && ch == '\\' && strch == '"' {
              escape := true;
            } else {
              tok := tok + [ch];
            }
          }
        }
        escape := saveEscape != escape;
        pos := pos + 1;
      }
      token := if state == 0 then None else Some(tok);
    }

    /** Calls `NextToken` until it reports that no word is left. */
    method AllTokens() returns (tokens: seq<string>)
      requires Valid()
      modifies this
      ensures Valid() && pos == |input|
      ensures tokens == Lex(input, old(pos))
    {
      tokens := [];
      var token := NextToken();
      while token.Some?
        invariant Valid() && old(pos) <= pos
        invariant token.None? ==> pos == |input|
        invariant tokens + (if token.None? then [] else [token.value] + Lex(input, pos)) == Lex(input, old(pos))
        decreases |input| - pos + (if token.Some? then 1 else 0)
      {
        tokens := tokens + [token.value];
        token := NextToken();
      }
    }
  }

  // ---------------------------------------------------------------------
  // what a scan does with each kind of character

  /** Outside quotes, a backslash is dropped and the character after it is
      kept whatever it is (blank, quote or backslash), without ending the
      word. */
  lemma WordEscape(input: string, pos: nat, token: string)
    requires pos + 1 < |input| && input[pos] == '\\'
    ensures Scan(input, pos, InWord(false), token) == Scan(input, pos + 2, InWord(false), token + [input[pos + 1]])
  {
  }

  /** An unescaped blank ends the word and is consumed. */
  lemma WordBlank(input: string, pos: nat, token: string)
    requires pos < |input| && IsBlank(input[pos])
    ensures Scan(input, pos, InWord(false), token) == (Some(token), pos + 1)
  {
  }

  /** An unescaped quote opens a quoted region inside the current word. */
  lemma WordQuote(input: string, pos: nat, token: string)
    requires pos < |input| && (input[pos] == '"' || input[pos] == '\'')
    ensures Scan(input, pos, InWord(false), token) == Scan(input, pos + 1, InQuote(input[pos], false), token)
  {
  }

  /** A backslash that is the last character ends the word without adding
      anything. */
  lemma TrailingBackslash(input: string, token: string)
    requires input != [] && input[|input| - 1] == '\\'
    ensures Scan(input, |input| - 1, InWord(false), token) == (Some(token), |input|)
  {
  }

  /** The contents of a single-quoted region are kept verbatim, backslashes
      included, and the word goes on after the closing quote. */
  lemma {:induction false} SingleQuoted(input: string, pos: nat, close: nat, token: string)
    requires pos <= close < |input| && input[close] == '\''
    requires forall k :: pos <= k < close ==> input[k] != '\''
    ensures Scan(input, pos, InQuote('\'', false), token) == Scan(input, close + 1, InWord(false), token + input[pos..close])
    decreases close - pos
  {
    if pos < close {
      assert Scan(input, pos, InQuote('\'', false), token) == Scan(input, pos + 1, InQuote('\'', false), token + [input[pos]]);
      SingleQuoted(input, pos + 1, close, token + [input[pos]]);
      assert token + [input[pos]] + input[pos + 1..close] == token + input[pos..close];
    } else {
      assert Scan(input, pos, InQuote('\'', false), token) == Scan(input, pos + 1, InWord(false), token);
      assert token + input[pos..close] == token;
    }
  }

  /** The contents of a double-quoted region without backslashes are kept
      verbatim, and the word goes on after the closing quote. */
  lemma {:induction false} DoubleQuoted(input: string, pos: nat, close: nat, token: string)
    requires pos <= close < |input| && input[close] == '"'
    requires forall k :: pos <= k < close ==> input[k] != '"' && input[k] != '\\'
    ensures Scan(input, pos, InQuote('"', false), token) == Scan(input, close + 1, InWord(false), token + input[pos..close])
    decreases close - pos
  {
    if pos < close {
      assert Scan(input, pos, InQuote('"', false), token) == Scan(input, pos + 1, InQuote('"', false), token + [input[pos]]);
      DoubleQuoted(input, pos + 1, close, token + [input[pos]]);
      assert token + [input[pos]] + input[pos + 1..close] == token + input[pos..close];
    } else {
      assert Scan(input, pos, InQuote('"', false), token) == Scan(input, pos + 1, InWord(false), token);
      assert token + input[pos..close] == token;
    }
  }

  /** Inside double quotes a backslash is dropped and the next character is
      kept; an escaped `"` does not close the region. */
  lemma DoubleQuotedEscape(input: string, pos: nat, token: string)
    requires pos + 1 < |input| && input[pos] == '\\'
    ensures Scan(input, pos, InQuote('"', false), token) == Scan(input, pos + 2, InQuote('"', false), token + [input[pos + 1]])
  {
  }

  /** A quote that is never closed runs to the end of the input, and the
      word read so far, with the rest of the input, is the last token. */
  lemma {:induction false} Unterminated(input: string, pos: nat, quote: char, token: string)
    requires pos <= |input|
    requires forall k :: pos <= k < |input| ==> input[k] != quote && (quote == '"' ==> input[k] != '\\')
    ensures Scan(input, pos, InQuote(quote, false), token) == (Some(token + input[pos..]), |input|)
    decreases |input| - pos
  {
    if pos < |input| {
      assert Scan(input, pos, InQuote(quote, false), token) == Scan(input, pos + 1, InQuote(quote, false), token + [input[pos]]);
      Unterminated(input, pos + 1, quote, token + [input[pos]]);
      assert token + [input[pos]] + input[pos + 1..] == token + input[pos..];
    } else {
      assert token + input[pos..] == token;
    }
  }

  // ---------------------------------------------------------------------
  // plain text is split into its blank-separated words

  /** The first blank at or after pos, or |input|. */
  function NextBlank(input: string, pos: nat): (e: nat)
    requires pos <= |input|
    ensures pos <= e <= |input| && (e < |input| ==> IsBlank(input[e]))
    ensures forall k :: pos <= k < e ==> !IsBlank(input[k])
    decreases |input| - pos
  {
    if pos == |input| || IsBlank(input[pos]) then pos else NextBlank(input, pos + 1)
  }

  /** A bare word without quotes or backslashes runs to the next blank. */
  lemma {:induction false} PlainWord(input: string, pos: nat, token: string)
    requires pos <= |input|
    requires forall k :: pos <= k < |input| ==> !IsSpecial(input[k])
    ensures var e := NextBlank(input, pos);
      Scan(input, pos, InWord(false), token) == (Some(token + input[pos..e]), if e < |input| then e + 1 else e)
    decreases |input| - pos
  {
    var e := NextBlank(input, pos);
    if pos < |input| && !IsBlank(input[pos]) {
      assert Scan(input, pos, InWord(false), token) == Scan(input, pos + 1, InWord(false), token + [input[pos]]);
      PlainWord(input, pos + 1, token + [input[pos]]);
      assert token + [input[pos]] + input[pos + 1..e] == token + input[pos..e];
    } else {
      assert e == pos && token + input[pos..e] == token;
    }
  }

  lemma WordLengthIsNextBlank(input: string, pos: nat)
    requires pos < |input| && !IsBlank(input[pos])
    ensures Helper.WordLength(input[pos..], IsBlank) == NextBlank(input, pos) - pos
  {
  }

  /** A blank before the next token is skipped. */
  lemma LexSkipsBlank(input: string, pos: nat)
    requires pos < |input| && IsBlank(input[pos])
    ensures Lex(input, pos) == Lex(input, pos + 1)
  {
    assert Scan(input, pos, Skipping, "") == Scan(input, pos + 1, Skipping, "");
  }

  /** A plain word is the next token, and lexing resumes after the blank
      that ends it. */
  lemma LexPlainWord(input: string, pos: nat)
    requires pos < |input| && !IsBlank(input[pos])
    requires forall k :: pos <= k < |input| ==> !IsSpecial(input[k])
    ensures var e := NextBlank(input, pos);
      Lex(input, pos) == [input[pos..e]] + (if e < |input| then Lex(input, e + 1) else [])
  {
    var e := NextBlank(input, pos);
    assert Scan(input, pos, Skipping, "") == Scan(input, pos, InWord(false), "");
    PlainWord(input, pos, "");
    assert "" + input[pos..e] == input[pos..e];
    if e == |input| {
      assert Lex(input, e) == [];
    }
  }

  lemma WordsSkipsBlank(s: string)
    requires s != [] && IsBlank(s[0])
    ensures Helper.Words(s, IsBlank) == Helper.Words(s[1..], IsBlank)
  {
  }

  lemma WordsPlainWord(s: string, n: nat)
    requires s != [] && !IsBlank(s[0]) && n == Helper.WordLength(s, IsBlank)
    ensures Helper.Words(s, IsBlank) == [s[..n]] + Helper.Words(s[n..], IsBlank)
  {
  }

  /** Input free of quotes and backslashes lexes to exactly its maximal runs
      of non-blank characters: blanks only separate words, and no token is
      empty. */
  lemma {:induction false} LexPlain(input: string, pos: nat)
    requires pos <= |input|
    requires forall k :: pos <= k < |input| ==> !IsSpecial(input[k])
    ensures Lex(input, pos) == Helper.Words(input[pos..], IsBlank)
    decreases |input| - pos
  {
    if pos == |input| {
      assert input[pos..] == [];
    } else {
      if IsBlank(input[pos]) {
        LexPlain(input, pos + 1);
        LexPlainBlank(input, pos);
      } else {
        var e := NextBlank(input, pos);
        if e < |input| {
          LexPlain(input, e + 1);
        }
        LexPlainStep(input, pos);
      }
    }
  }

  /** The step of `LexPlain` at a blank, which both sides skip. */
  lemma LexPlainBlank(input: string, pos: nat)
    requires pos < |input| && IsBlank(input[pos])
    requires Lex(input, pos + 1) == Helper.Words(input[pos + 1..], IsBlank)
    ensures Lex(input, pos) == Helper.Words(input[pos..], IsBlank)
  {
    LexSkipsBlank(input, pos);
    WordsAfterBlank(input, pos);
  }

  /** The step of `LexPlain` at a word: the word, then the words after the
      blank that ends it. */
  lemma LexPlainStep(input: string, pos: nat)
    requires pos < |input| && !IsBlank(input[pos])
    requires forall k :: pos <= k < |input| ==> !IsSpecial(input[k])
    requires NextBlank(input, pos) < |input| ==>
      Lex(input, NextBlank(input, pos) + 1) == Helper.Words(input[NextBlank(input, pos) + 1..], IsBlank)
    ensures Lex(input, pos) == Helper.Words(input[pos..], IsBlank)
  {
    LexPlainWord(input, pos);
    WordsAtWord(input, pos);
  }

  /** The words of a suffix that starts with a word: that word, then the
      words after the blank that ends it. */
  lemma WordsAtWord(input: string, pos: nat)
    requires pos < |input| && !IsBlank(input[pos])
    ensures var e := NextBlank(input, pos);
      Helper.Words(input[pos..], IsBlank) ==
        [input[pos..e]] + (if e < |input| then Helper.Words(input[e + 1..], IsBlank) else [])
  {
    var s := input[pos..];
    var e := NextBlank(input, pos);
    WordLengthIsNextBlank(input, pos);
    WordsPlainWord(s, e - pos);
    Helper.SliceOfSuffix(input, pos, e);
    if e < |input| {
      WordsAfterBlank(input, e);
    } else {
      assert input[e..] == [];
    }
  }

  lemma WordsAfterBlank(input: string, e: nat)
    requires e < |input| && IsBlank(input[e])
    ensures Helper.Words(input[e..], IsBlank) == Helper.Words(input[e + 1..], IsBlank)
  {
    WordsSkipsBlank(input[e..]);
    Helper.SliceOfSuffix(input, e, e + 1);
  }

  /** Hence every token of such input is non-empty and blank-free. */
  lemma LexPlainTokens(input: string)
    requires forall k :: 0 <= k < |input| ==> !IsSpecial(input[k])
    ensures forall t :: t in Lex(input, 0) ==> t != [] && forall k :: 0 <= k < |t| ==> !IsBlank(t[k])
  {
    LexPlain(input, 0);
    assert input[0..] == input;
    Helper.WordsAreWords(input, IsBlank);
  }

  // ---------------------------------------------------------------------
  // empty tokens, on any input

  /** Once a word has started, the scan only extends the token read so far
      and always hands out a token. */
  lemma {:induction false} ScanKeepsToken(input: string, pos: nat, st: LexState, token: string)
    requires pos <= |input| && !st.Skipping?
    ensures Scan(input, pos, st, token).0.Some?
    ensures token <= Scan(input, pos, st, token).0.value
    decreases |input| - pos
  {
    if pos < |input| {
      var ch := input[pos];
      match st
      case InWord(escape) =>
        if ch == '"' || ch == '\'' {
          if escape {
            ScanKeepsToken(input, pos + 1, InWord(false), token + [ch]);
          } else {
            ScanKeepsToken(input, pos + 1, InQuote(ch, false), token);
          }
        } else if !escape && IsBlank(ch) {
        } else if !escape && ch == '\\' {
          ScanKeepsToken(input, pos + 1, InWord(true), token);
        } else {
          ScanKeepsToken(input, pos + 1, InWord(false), token + [ch]);
        }
      case InQuote(quote, escape) =>
        if ch == quote {
          if escape && ch == '"' {
            ScanKeepsToken(input, pos + 1, InQuote(quote, false), token + [ch]);
          } else {
            ScanKeepsToken(input, pos + 1, InWord(false), token);
          }
        } else if !escape && ch == '\\' && quote == '"' {
          ScanKeepsToken(input, pos + 1, InQuote(quote, true), token);
        } else {
          ScanKeepsToken(input, pos + 1, InQuote(quote, false), token + [ch]);
        }
    }
  }

  /** On any input, with f the first non-blank position at or after pos:
      a token is handed out, and unless input[f] is a quote or a
      backslash the token starts with it. So an empty token can only
      begin at a quote or a backslash. */
  lemma {:induction false} FirstCharacterOfToken(input: string, pos: nat, f: nat)
    requires pos <= f < |input| && !IsBlank(input[f])
    requires forall k :: pos <= k < f ==> IsBlank(input[k])
    ensures Scan(input, pos, Skipping, "").0.Some?
    ensures !IsSpecial(input[f]) ==>
              var t := Scan(input, pos, Skipping, "").0.value;
              t != [] && t[0] == input[f]
    ensures Scan(input, pos, Skipping, "").0 == Some([]) ==> IsSpecial(input[f])
    decreases f - pos
  {
    if pos < f {
      assert Scan(input, pos, Skipping, "") == Scan(input, pos + 1, Skipping, "");
      FirstCharacterOfToken(input, pos + 1, f);
    } else {
      assert Scan(input, f, Skipping, "") == Scan(input, f, InWord(false), "");
      if IsSpecial(input[f]) {
        ScanKeepsToken(input, f, InWord(false), "");
      } else {
        assert "" + [input[f]] == [input[f]];
        assert Scan(input, f, InWord(false), "") == Scan(input, f + 1, InWord(false), [input[f]]);
        ScanKeepsToken(input, f + 1, InWord(false), [input[f]]);
      }
    }
  }

  // ---------------------------------------------------------------------
  // small inputs

  /** An empty quote pair is an empty token. */
  lemma EmptyQuotes()
    ensures Lex("\"\"", 0) == [""] && Lex("''", 0) == [""]
  {
  }

  /** A quote may open and close inside a word: `a" b"` is one token. */
  lemma QuoteInsideWord()
    ensures Lex("a\" b\"", 0) == ["a b"]
  {
    var s := "a\" b\"";
    assert |s| == 5 && s[0] == 'a' && s[1] == '"' && s[4] == '"';
    assert "" + [s[0]] == "a" && s[2..4] == " b" && "a" + " b" == "a b";
    assert Scan(s, 0, Skipping, "") == Scan(s, 0, InWord(false), "");
    assert Scan(s, 0, InWord(false), "") == Scan(s, 1, InWord(false), "a");
    WordQuote(s, 1, "a");
    DoubleQuoted(s, 2, 4, "a");
    assert Scan(s, 5, InWord(false), "a b") == (Some("a b"), 5);
  }

  /** A lone backslash is an empty token: the escape it starts has nothing
      to apply to. */
  lemma LoneBackslash()
    ensures Lex("\\", 0) == [""]
  {
  }

  /** An escaped blank between two blanks is a token of its own. */
  lemma EscapedBlank()
    ensures Lex("a \\  b", 0) == ["a", " ", "b"]
  {
    var s := "a \\  b";
    assert |s| == 6 && s[0] == 'a' && s[1] == ' ' && s[2] == '\\' && s[3] == ' ' && s[4] == ' ' && s[5] == 'b';
    assert "" + [s[0]] == "a" && "" + [s[3]] == " " && "" + [s[5]] == "b";
    assert Scan(s, 0, Skipping, "") == Scan(s, 0, InWord(false), "");
    assert Scan(s, 0, InWord(false), "") == Scan(s, 1, InWord(false), "a");
    assert Scan(s, 1, InWord(false), "a") == (Some("a"), 2);
    assert Scan(s, 2, Skipping, "") == Scan(s, 2, InWord(false), "");
    WordEscape(s, 2, "");
    WordBlank(s, 4, " ");
    assert Scan(s, 5, Skipping, "") == Scan(s, 5, InWord(false), "");
    assert Scan(s, 5, InWord(false), "") == Scan(s, 6, InWord(false), "b");
    assert Scan(s, 6, InWord(false), "b") == (Some("b"), 6);
    assert Lex(s, 6) == [];
  }
}

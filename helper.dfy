/** The string and object helpers of helper.js (`isAlphaNumericAt`, `repeat`,
    `pad`, `fitWidth`, `reduce`). The root options-parser.js carries private
    copies of the same code (`repeatChar_`, `padString_`, `fitString_`,
    `Obj.reduce`); they are modelled by the same members. */
module Helper {

  /** True exactly when position i of s holds an ASCII letter or digit; an
      index outside s reads as NaN in JavaScript and gives false. */
  predicate IsAlphaNumericAt(s: string, i: int)
    ensures IsAlphaNumericAt(s, i) <==>
      0 <= i < |s| && ('0' <= s[i] <= '9' || 'A' <= s[i] <= 'Z' || 'a' <= s[i] <= 'z')
  {
    0 <= i < |s| &&
    var code := s[i] as int;
    (code > 47 && code < 58) || (code > 64 && code < 91) || (code > 96 && code < 123)
  }

  // ---------------------------------------------------------------------
  // repeat and pad

  /** count copies of ch; nothing when count is zero or negative. */
  function Repeated(ch: char, count: int): (r: string)
    ensures |r| == if count > 0 then count else 0
    ensures forall k :: 0 <= k < |r| ==> r[k] == ch
    decreases count
  {
    if count <= 0 then "" else Repeated(ch, count - 1) + [ch]
  }

  /** `repeat(ch, count)`: the string-building loop. */
  method Repeat(ch: char, count: int) returns (s: string)
    ensures s == Repeated(ch, count)
  {
    s := "";
    var i := 0;
    while i < count
      invariant 0 <= i <= if count > 0 then count else 0
      invariant s == Repeated(ch, i)
    {
      s := s + [ch];
      i := i + 1;
    }
  }

  /** `pad(s, len)`: s followed by spaces up to length len; never truncates. */
  function Pad(s: string, len: int): (r: string)
    ensures |r| == if len > |s| then len else |s|
    ensures r[..|s|] == s
    ensures forall k :: |s| <= k < |r| ==> r[k] == ' '
  {
    s + Repeated(' ', len - |s|)
  }

  // ---------------------------------------------------------------------
  // whitespace, trimming and words

  /** The characters `String.prototype.trim` removes: the ECMAScript
      WhiteSpace and LineTerminator code points. */
  predicate IsWhite(c: char)
  {
    c == ' ' || c == '\t' || c == '\n' || c == '\r' || c == '\U{000B}' || c == '\U{000C}' ||
    c == '\U{00A0}' || c == '\U{1680}' || ('\U{2000}' <= c <= '\U{200A}') ||
    c == '\U{2028}' || c == '\U{2029}' || c == '\U{202F}' || c == '\U{205F}' ||
    c == '\U{3000}' || c == '\U{FEFF}'
  }

  /** `trimLeft`: drops the leading whitespace and nothing else. */
  function TrimLeft(s: string): (r: string)
    ensures |r| <= |s| && r == s[|s| - |r|..]
    ensures r == [] || !IsWhite(r[0])
    ensures forall k :: 0 <= k < |s| - |r| ==> IsWhite(s[k])
    decreases |s|
  {
    if s != [] && IsWhite(s[0]) then TrimLeft(s[1..]) else s
  }

  /** Drops the trailing whitespace and nothing else. */
  function TrimRight(s: string): (r: string)
    ensures |r| <= |s| && r == s[..|r|]
    ensures r == [] || !IsWhite(r[|r| - 1])
    ensures forall k :: |r| <= k < |s| ==> IsWhite(s[k])
    decreases |s|
  {
    if s != [] && IsWhite(s[|s| - 1]) then TrimRight(s[..|s| - 1]) else s
  }

  /** `trim`: both ends. The result neither starts nor ends with
      whitespace; `TrimStripsWhite` places it inside s. */
  function Trim(s: string): (r: string)
    ensures |r| <= |s|
    ensures r == [] || (!IsWhite(r[0]) && !IsWhite(r[|r| - 1]))
    ensures (forall k :: 0 <= k < |s| ==> IsWhite(s[k])) ==> r == []
  {
    TrimLeft(TrimRight(s))
  }

  /** The trimmed text is the part of s between a whitespace prefix and a
      whitespace suffix. */
  lemma TrimStripsWhite(s: string)
    ensures exists i, j ::
              0 <= i <= j <= |s| && Trim(s) == s[i..j] &&
              forall k :: 0 <= k < i || j <= k < |s| ==> IsWhite(s[k])
  {
    var t := TrimRight(s);
    var r := TrimLeft(t);
    var i, j := |t| - |r|, |t|;
    assert r == s[i..j];
    forall k | 0 <= k < i || j <= k < |s|
      ensures IsWhite(s[k])
    {
      if k < i {
        assert s[k] == t[k];
      }
    }
  }

  /** Length of the word at the start of s: the characters before the first
      separator. */
  function WordLength(s: string, sep: char -> bool): (n: nat)
    requires s != [] && !sep(s[0])
    ensures 1 <= n <= |s|
    ensures forall k :: 0 <= k < n ==> !sep(s[k])
    ensures n < |s| ==> sep(s[n])
    decreases |s|
  {
    if |s| == 1 || sep(s[1]) then 1 else 1 + WordLength(s[1..], sep)
  }

  /** The maximal runs of non-separator characters of s, in order. This is
      the reference meaning of "the words of s" for both the lexer (space
      and tab) and the word wrapper (JavaScript whitespace). */
  function Words(s: string, sep: char -> bool): seq<string>
    decreases |s|
  {
    if s == [] then []
    else if sep(s[0]) then Words(s[1..], sep)
    else
      var n := WordLength(s, sep);
      [s[..n]] + Words(s[n..], sep)
  }

  /** A string made only of separators has no words. */
  lemma {:induction false} WordsOfSeparators(s: string, sep: char -> bool)
    requires forall k :: 0 <= k < |s| ==> sep(s[k])
    ensures Words(s, sep) == []
    decreases |s|
  {
    if s != [] {
      WordsOfSeparators(s[1..], sep);
    }
  }

  /** Every word is non-empty and free of separators. */
  lemma {:induction false} WordsAreWords(s: string, sep: char -> bool)
    ensures forall w :: w in Words(s, sep) ==> w != [] && forall k :: 0 <= k < |w| ==> !sep(w[k])
    decreases |s|
  {
    if s != [] {
      if sep(s[0]) {
        WordsAreWords(s[1..], sep);
      } else {
        WordsAreWords(s[WordLength(s, sep)..], sep);
      }
    }
  }

  lemma {:induction false} WordLengthAppend(a: string, b: string, sep: char -> bool)
    requires a != [] && !sep(a[0])
    requires b == [] || sep(a[|a| - 1]) || sep(b[0])
    ensures WordLength(a + b, sep) == WordLength(a, sep)
    decreases |a|
  {
    if |a| > 1 && !sep(a[1]) {
      assert (a + b)[1..] == a[1..] + b;
      WordLengthAppend(a[1..], b, sep);
    }
  }

  /** Joining two strings at a separator (or to an empty string) joins
      their words without changing any of them. */
  lemma {:induction false} WordsAppend(a: string, b: string, sep: char -> bool)
    requires a == [] || b == [] || sep(a[|a| - 1]) || sep(b[0])
    ensures Words(a + b, sep) == Words(a, sep) + Words(b, sep)
    decreases |a|
  {
    if a == [] {
      assert a + b == b;
    } else if sep(a[0]) {
      assert (a + b)[1..] == a[1..] + b;
      WordsAppend(a[1..], b, sep);
    } else {
      var n := WordLength(a, sep);
      WordLengthAppend(a, b, sep);
      assert (a + b)[..n] == a[..n];
      assert (a + b)[n..] == a[n..] + b;
      WordsAppend(a[n..], b, sep);
    }
  }

  /** Cutting s at a position next to a separator (or at either end) splits
      its words between the two halves. */
  lemma WordsSplit(s: string, i: nat, sep: char -> bool)
    requires i <= |s|
    requires i == 0 || i == |s| || sep(s[i]) || sep(s[i - 1])
    ensures Words(s, sep) == Words(s[..i], sep) + Words(s[i..], sep)
  {
    assert s == s[..i] + s[i..];
    WordsAppend(s[..i], s[i..], sep);
  }

  /** Trimming never changes the words. */
  lemma WordsTrimLeft(s: string)
    ensures Words(TrimLeft(s), IsWhite) == Words(s, IsWhite)
  {
    var t := TrimLeft(s);
    var k := |s| - |t|;
    assert s[k..] == t;
    WordsSplit(s, k, IsWhite);
    WordsOfSeparators(s[..k], IsWhite);
    assert [] + Words(t, IsWhite) == Words(t, IsWhite);
  }

  lemma WordsTrim(s: string)
    ensures Words(Trim(s), IsWhite) == Words(s, IsWhite)
  {
    var t := TrimRight(s);
    WordsSplit(s, |t|, IsWhite);
    WordsOfSeparators(s[|t|..], IsWhite);
    assert s[..|t|] == t;
    WordsTrimLeft(t);
  }

  // ---------------------------------------------------------------------
  // fitWidth

  /** The first inner loop of `fitWidth`: the last space at or before i,
      or -1. */
  function LastSpace(s: string, i: int): (r: int)
    requires -1 <= i < |s|
    ensures -1 <= r <= i && (r >= 0 ==> s[r] == ' ')
    ensures forall k :: r < k <= i ==> s[k] != ' '
    decreases i + 1
  {
    if i == -1 then -1 else if s[i] == ' ' then i else LastSpace(s, i - 1)
  }

  /** The second inner loop: the first space at or after j, or |s|. */
  function FirstSpace(s: string, j: nat): (r: nat)
    requires j <= |s|
    ensures j <= r <= |s| && (r < |s| ==> s[r] == ' ')
    ensures forall k :: j <= k < r ==> s[k] != ' '
    decreases |s| - j
  {
    if j == |s| || s[j] == ' ' then j else FirstSpace(s, j + 1)
  }

  /** Where `fitWidth` breaks a line that is too long: the last space at or
      before index len; failing that, the first space after it; failing
      that, |s| (the whole rest becomes one line). */
  function BreakPoint(s: string, len: int): (i: int)
    requires len >= -1 && |s| > len
    ensures 0 <= i <= |s|
    ensures i < |s| ==> s[i] == ' '
    ensures i <= len ==> forall k :: i < k <= len ==> s[k] != ' '
    ensures i > len ==> forall k :: 0 <= k < i ==> s[k] != ' '
  {
    var i := LastSpace(s, len);
    if i == -1 then FirstSpace(s, len + 1) else i
  }

  /** The two inner search loops of `fitWidth`. */
  method FindBreak(s: string, len: int) returns (i: int)
    requires len >= -1 && |s| > len
    ensures i == BreakPoint(s, len)
  {
    i := len;
    while i >= 0 && s[i] != ' '
      invariant -1 <= i <= len
      invariant LastSpace(s, i) == LastSpace(s, len)
    {
      i := i - 1;
    }
    if i == -1 {
      i := len + 1;
      while i < |s| && s[i] != ' '
        invariant len + 1 <= i <= |s|
        invariant FirstSpace(s, i) == FirstSpace(s, len + 1)
      {
        i := i + 1;
      }
    }
  }

  /** The `while(s.length > len)` loop of `fitWidth`, as a function of the
      remaining (left-trimmed) text. */
  function FitLoop(s: string, len: int): seq<string>
    requires len >= -1
    requires s == [] || !IsWhite(s[0])
    decreases |s|
  {
    if |s| <= len then [s]
    else
      var i := BreakPoint(s, len);
      if i == |s| then [s]
      else
        assert i > 0 by { assert s[0] != ' '; }
        [s[..i]] + FitLoop(TrimLeft(s[i..]), len)
  }

  /** `fitWidth(s, len)`: the lines the help text s is broken into. */
  function Fit(s: string, len: int): (lines: seq<string>)
    requires len >= -1
    ensures |lines| >= 1
  {
    var t := Trim(s);
    if |t| <= len then [t] else FitLoop(t, len)
  }

  /** The imperative `fitWidth`. A width of -2 or less makes the source loop
      forever (it keeps the last -len characters of s), hence the
      precondition. */
  method FitWidth(str: string, len: int) returns (result: seq<string>)
    requires len >= -1
    ensures result == Fit(str, len)
  {
    var s := Trim(str);
    if |s| <= len {
      return [s];
    }
    result := [];
    while |s| > len
      invariant s == [] || !IsWhite(s[0])
      invariant result + FitLoop(s, len) == Fit(str, len)
      decreases |s|
    {
      var i := FindBreak(s, len);
      if i == |s| {
        return result + [s];
      }
      var line, rest := s[..i], TrimLeft(s[i..]);
      SeqAssoc(result, line, FitLoop(rest, len));
      result := result + [line];
      s := rest;
    }
    result := result + [s];
  }

  lemma SeqAssoc<T>(a: seq<T>, x: T, b: seq<T>)
    ensures a + ([x] + b) == (a + [x]) + b
    ensures [x] + (a + b) == ([x] + a) + b
  {
  }

  lemma SeqAppendAssoc<T>(a: seq<T>, b: seq<T>, c: seq<T>)
    ensures a + b + c == a + (b + c)
  {
  }

  lemma SliceOfSuffix<T>(s: seq<T>, i: nat, j: nat)
    requires i <= j <= |s|
    ensures s[i..][j - i..] == s[j..]
    ensures s[i..][..j - i] == s[i..j]
  {
  }

  /** The words of a list of lines, read in order. */
  function WordsOfLines(lines: seq<string>): seq<string>
  {
    if lines == [] then [] else Words(lines[0], IsWhite) + WordsOfLines(lines[1..])
  }

  /** A line is acceptable when it fits, or when it is one word that could
      not be broken; it never starts with whitespace. */
  predicate GoodLine(line: string, len: int)
  {
    (|line| <= len || ' ' !in line) &&
    (line == [] || !IsWhite(line[0]))
  }

  lemma {:induction false} FitLoopProperties(s: string, len: int)
    requires len >= -1
    requires s == [] || !IsWhite(s[0])
    ensures WordsOfLines(FitLoop(s, len)) == Words(s, IsWhite)
    ensures forall k :: 0 <= k < |FitLoop(s, len)| ==> GoodLine(FitLoop(s, len)[k], len)
    decreases |s|
  {
    var lines := FitLoop(s, len);
    if |s| <= len {
      assert lines == [s];
    } else {
      var cut := BreakPoint(s, len);
      if cut == |s| {
        assert lines == [s];
      } else {
        var rest := TrimLeft(s[cut..]);
        FitLoopProperties(rest, len);
        assert lines == [s[..cut]] + FitLoop(rest, len);
        assert lines[1..] == FitLoop(rest, len);
        WordsSplit(s, cut, IsWhite);
        WordsTrimLeft(s[cut..]);
        if cut > len {
          assert forall k :: 0 <= k < cut ==> s[..cut][k] != ' ';
          assert ' ' !in s[..cut];
        }
        forall k | 1 <= k < |lines|
          ensures GoodLine(lines[k], len)
        {
          assert lines[k] == FitLoop(rest, len)[k - 1];
        }
      }
    }
  }

  /** `fitWidth` never splits or loses a word: the words of its lines, read
      in order, are the words of the input. */
  lemma FitWidthKeepsWords(s: string, len: int)
    requires len >= -1
    ensures WordsOfLines(Fit(s, len)) == Words(s, IsWhite)
  {
    var t := Trim(s);
    WordsTrim(s);
    if |t| <= len {
      assert Fit(s, len) == [t];
    } else {
      FitLoopProperties(t, len);
    }
  }

  /** Every line of `fitWidth` fits in len characters or is a single
      unbreakable word, and none starts with whitespace; when the trimmed
      text fits, it is the only line (so blank text gives [""]). */
  lemma FitWidthLines(s: string, len: int)
    requires len >= -1
    ensures |Fit(s, len)| >= 1
    ensures forall k :: 0 <= k < |Fit(s, len)| ==> GoodLine(Fit(s, len)[k], len)
    ensures |Trim(s)| <= len ==> Fit(s, len) == [Trim(s)]
  {
    var t := Trim(s);
    if |t| > len {
      FitLoopProperties(t, len);
    }
  }

  // ---------------------------------------------------------------------
  // reduce

  /** `reduce(obj, cb, initial)`: the callback applied to the entries in
      iteration order, threading the accumulator. */
  function FoldEntries<K, V, A>(entries: seq<(K, V)>, cb: (A, K, V) -> A, acc: A): A
    decreases |entries|
  {
    if entries == [] then acc
    else FoldEntries(entries[1..], cb, cb(acc, entries[0].0, entries[0].1))
  }

  /** The accumulating loop of `reduce`. */
  method Reduce<K, V, A>(obj: seq<(K, V)>, cb: (A, K, V) -> A, initial: A) returns (acc: A)
    ensures acc == FoldEntries(obj, cb, initial)
  {
    acc := initial;
    var i := 0;
    while i < |obj|
      invariant 0 <= i <= |obj|
      invariant FoldEntries(obj[i..], cb, acc) == FoldEntries(obj, cb, initial)
    {
      assert obj[i..][1..] == obj[i + 1..];
      acc := cb(acc, obj[i].0, obj[i].1);
      i := i + 1;
    }
  }

  /** Folding a concatenation folds the first part, then the second from
      where the first left off: entries are visited strictly in order. */
  lemma {:induction false} FoldEntriesAppend<K, V, A>(a: seq<(K, V)>, b: seq<(K, V)>, cb: (A, K, V) -> A, acc: A)
    ensures FoldEntries(a + b, cb, acc) == FoldEntries(b, cb, FoldEntries(a, cb, acc))
    decreases |a|
  {
    if a == [] {
      assert a + b == b;
    } else {
      assert (a + b)[1..] == a[1..] + b;
      FoldEntriesAppend(a[1..], b, cb, cb(acc, a[0].0, a[0].1));
    }
  }
}

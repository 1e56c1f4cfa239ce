/** Values shared by every part of the model of the options parser: an
    optional value, the JavaScript values an option can hold in a parse
    result, and the error descriptors handed to the error callback. */
module Common {

  datatype Option<T> = None | Some(value: T)

  /** A value stored in `result.opt`: a string from the command line, a
      boolean for a flag, a number (a default, or a value a type validator
      substituted) or an array (a `multi` option, or an array default). */
  datatype Value = Str(s: string) | Bool(b: bool) | Num(n: int) | List(items: seq<Value>)

  /** JavaScript truthiness of a value: the empty string, `false` and `0`
      are falsy; every array is truthy. */
  predicate Truthy(v: Value)
  {
    match v
    case Str(s) => s != ""
    case Bool(b) => b
    case Num(n) => n != 0
    case List(_) => true
  }

  /** What an error descriptor carries under `required`: a word, or (in the
      newer parser, for `--name=` with an empty inline value) the token's
      two-element array `[name, value]`. */
  datatype Subject = Word(text: string) | Pair(name: string, inline: string)

  /** The error descriptors passed to the error callback: `{required: x}`,
      `{unknown: x}`, `{argument: x}`, `{missing: [..]}` (parser.js),
      `{missing: name}` (src/parser.js, one call per name) and
      `{validation: msg}`. */
  datatype ParseError =
    | Required(subject: Subject)
    | Unknown(word: string)
    | Argument(name: string)
    | Missing(names: seq<string>)
    | MissingName(name: string)
    | Validation(message: string)

  /** The case folding a case-insensitive JavaScript regular expression
      applies when it compares ASCII letters: A-Z to a-z, every other
      character unchanged. */
  function LowerChar(c: char): (d: char)
    ensures 'A' <= c <= 'Z' ==> d as int == c as int + 32
    ensures !('A' <= c <= 'Z') ==> d == c
  {
    if 'A' <= c <= 'Z' then (c as int + 32) as char else c
  }

  function Lower(s: string): (r: string)
    ensures |r| == |s|
    ensures forall k :: 0 <= k < |s| ==> r[k] == LowerChar(s[k])
  {
    if s == [] then [] else [LowerChar(s[0])] + Lower(s[1..])
  }
}

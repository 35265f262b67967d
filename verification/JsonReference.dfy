/**
 The language of the tokener as a recursive descent over the text, without levels, phases and
 jumps, in strict and in lenient mode.  JsonSimulation proves that the automaton accepts exactly
 the texts that the descent reads, and returns the value that it reads.

 Three things in it are not what one would write down first.  The register `pos` outlives a
 token: -Infinity is only read where no literal or unicode escape has been read before it.  A
 comment is only closed by a slash behind an odd number of stars.  And a comment that is open at the end
 of the text makes the call return whatever value stands before it, at any depth.
 */
module JsonReference {
  import opened Options
  import opened JsonValue
  import opened JsonTokener
  import opened JsonText

  /**
   A value, the text behind it and the register; a refusal with its error code; a value that an
   open comment makes the call return; or an escape for a high surrogate.
   */
  datatype Result = Got(v: Value, rest: string, pos: nat) | Bad(err: Error) | Cut(v: Value) | Unsaid

  /** Where the text has come to its end, that is the error. */
  function At(t: string, err: Error): Error { if t == "" then ErrEof else err }

  // ----- white space and comments -----

  /** The text behind white space and comments; an open comment; or a slash that begins none, perhaps at the end. */
  datatype Skipped = To(rest: string) | Unclosed | Stray(end: bool)

  /** The error for blanks that do not end, where a value is not complete. */
  function BlankError(b: Skipped): Error { if b.Stray? && !b.end then ErrComment else ErrEof }

  ghost predicate Shorter(r: Skipped, t: string, strict: bool) {
    r.To? ==>
      && |r.rest| <= |t| && (NUL !in t ==> NUL !in r.rest)
      && (r.rest != "" ==> !IsSpace(r.rest[0]) && (strict || r.rest[0] != '/'))
  }

  function Blanks(strict: bool, t: string): (r: Skipped)
    ensures Shorter(r, t, strict)
    decreases |t|
  {
    if t != "" && IsSpace(t[0]) then Blanks(strict, t[1..])
    else if strict || t == "" || t[0] != '/' then To(t)
    else if |t| >= 2 && t[1] == '*' then InBlock(t[2..])
    else if |t| >= 2 && t[1] == '/' then InLine(t[2..])
    else Stray(|t| == 1)
  }

  function InBlock(t: string): (r: Skipped)
    ensures Shorter(r, t, false)
    decreases |t|
  {
    if t == "" then Unclosed
    else if t[0] != '*' then InBlock(t[1..])
    else if |t| == 1 then Unclosed
    else if t[1] == '/' then Blanks(false, t[2..])
    else InBlock(t[2..])
  }

  function InLine(t: string): (r: Skipped)
    ensures Shorter(r, t, false)
    decreases |t|
  {
    if t == "" then Unclosed else if t[0] == '\n' then Blanks(false, t[1..]) else InLine(t[1..])
  }

  // ----- strings -----

  /** The bytes of a string up to its closing quote. */
  datatype Quoted = Closed(s: string, rest: string, pos: nat) | Broken(err: Error) | Surrogated

  /** A string, from behind its opening quote; raw control characters are taken as they are. */
  function ReadString(quote: char, t: string, s: string, pos: nat): (r: Quoted)
    ensures r.Closed? ==> |r.rest| < |t| && (NUL !in t ==> NUL !in r.rest)
    decreases |t|
  {
    if t == "" then Broken(ErrEof)
    else if t[0] == quote then Closed(s, t[1..], pos)
    else if t[0] != '\\' then ReadString(quote, t[1..], s + [t[0]], pos)
    else if |t| >= 2 && ShortEscape(t[1]).Some? then ReadString(quote, t[2..], s + [ShortEscape(t[1]).value], pos)
    else if |t| >= 2 && t[1] == 'u' then
      if |t| >= 6 && CodeUnit(t[2..6]).Some? then
        var u := CodeUnit(t[2..6]).value;
        if 0xD800 <= u < 0xDC00 then Surrogated else ReadString(quote, t[6..], s + Utf8(u), 4)
      else Broken(DigitError(t[2..]))
    else Broken(At(t[1..], ErrString))
  }

  /** Digits that are cut short by the end of the text or by another character. */
  function DigitError(t: string): Error {
    if t != "" && HexValue(t[0]).Some? then DigitError(t[1..]) else At(t, ErrString)
  }

  // ----- words and numbers -----

  /** Lenient mode does not look at the case of letters. */
  predicate Same(strict: bool, a: char, b: char) { if strict then a == b else ToLower(a) == ToLower(b) }

  predicate IsWord(w: string) { w == "null" || w == "NaN" || w == "true" || w == "false" || w == "Infinity" }

  /** The word that a text must spell by its first letters. */
  function WordOf(strict: bool, t: string): (w: string)
    ensures IsWord(w)
  {
    var c, d := if t == "" then NUL else t[0], if |t| < 2 then NUL else t[1];
    if c == 'n' || c == 'N' then
      if (if strict then c == 'N' else d == 'a' || d == 'A') then "NaN" else "null"
    else if c == 't' || c == 'T' then "true"
    else if c == 'f' || c == 'F' then "false"
    else "Infinity"
  }

  function WordValue(w: string): Value {
    if w == "null" then Null else if w == "NaN" then Double("NaN")
    else if w == "true" then Bool(true) else if w == "false" then Bool(false) else Double("Infinity")
  }

  /** The text goes on with the letters of `w` from `k` on. */
  predicate Spells(strict: bool, w: string, k: nat, t: string)
    requires k <= |w|
  {
    |w| - k <= |t| && forall i :: k <= i < |w| ==> Same(strict, t[i - k], w[i])
  }

  /** The error at the first letter that is not that of the word. */
  function WordError(strict: bool, w: string, k: nat, t: string): Error
    decreases |t|
  {
    if k < |w| && t != "" && Same(strict, t[0], w[k]) then WordError(strict, w, k + 1, t[1..])
    else At(t, if w == "null" || w == "NaN" then ErrNull else if w == "Infinity" then ErrUnexpected else ErrBoolean)
  }

  function ReadWord(strict: bool, t: string): Result {
    var w := WordOf(strict, t);
    if Spells(strict, w, 0, t) then Got(WordValue(w), t[|w|..], |w|) else Bad(WordError(strict, w, 0, t))
  }

  /** The longest run of digits, signs, points and exponent letters. */
  function NumberRun(t: string): (n: nat)
    ensures n <= |t| && (forall i :: 0 <= i < n ==> IsNumberChar(t[i])) && (n < |t| ==> !IsNumberChar(t[n]))
  {
    if t == "" || !IsNumberChar(t[0]) then 0 else 1 + NumberRun(t[1..])
  }

  predicate IsFraction(c: char) { c == '.' || c == 'e' || c == 'E' }

  /** An integer, cut off at the 64-bit range, in strict mode without a superfluous zero, or what sscanf takes for a double. */
  function NumberValue(cfg: Config, num: string): Option<Value> {
    if exists c <- num :: IsFraction(c) then if cfg.scanDouble(num) then Some(Double(num)) else None
    else
      match ParseInt64(num)
      case None => None
      case Some(i) => if cfg.strict && num != "" && i != 0 && num[0] == '0' then None else Some(Int(i))
  }

  function ReadNumber(cfg: Config, pos: nat, t: string): Result {
    var n := NumberRun(t);
    if t[..n] == "-" && n < |t| && (t[n] == 'i' || t[n] == 'I') then
      if pos > 0 then Bad(ErrUnexpected)
      else if Spells(cfg.strict, "Infinity", 0, t[n..]) then Got(Double("-Infinity"), t[n..][8..], 8)
      else Bad(WordError(cfg.strict, "Infinity", 0, t[n..]))
    else
      match NumberValue(cfg, t[..n])
      case Some(v) => Got(v, t[n..], pos)
      case None => Bad(At(t[n..], ErrNumber))
  }

  // ----- values -----

  predicate StartsWord(c: char) { c in {'n', 'N', 't', 'T', 'f', 'F', 'i', 'I'} }

  /** A value with blanks before it, `depth` levels down. */
  function ReadValue(cfg: Config, depth: nat, pos: nat, t: string): (r: Result)
    ensures r.Got? ==> |r.rest| < |t| && (NUL !in t ==> NUL !in r.rest)
    decreases |t|, 0
  {
    if !Blanks(cfg.strict, t).To? then Bad(BlankError(Blanks(cfg.strict, t)))
    else if Blanks(cfg.strict, t).rest == "" then Bad(ErrEof)
    else
      var u := Blanks(cfg.strict, t).rest;
      if u[0] == '{' then ReadFields(cfg, depth, pos, u[1..], [], false)
      else if u[0] == '[' then ReadItems(cfg, depth, pos, u[1..], [], false)
      else if u[0] == '"' || (u[0] == '\'' && !cfg.strict) then
        match ReadString(u[0], u[1..], "", pos)
        case Closed(s, rest, p) => Got(Str(s), rest, p)
        case Broken(e) => Bad(e)
        case Surrogated => Unsaid
      else if StartsWord(u[0]) then ReadWord(cfg.strict, u)
      else if IsDigit(u[0]) || u[0] == '-' then ReadNumber(cfg, pos, u)
      else Bad(ErrUnexpected)
  }

  /** The items of an array, from behind its bracket or, if `sep`, from behind a comma. */
  function ReadItems(cfg: Config, depth: nat, pos: nat, t: string, items: seq<Value>, sep: bool): (r: Result)
    ensures r.Got? ==> |r.rest| < |t| && (NUL !in t ==> NUL !in r.rest)
    decreases |t|, 1
  {
    if !Blanks(cfg.strict, t).To? then Bad(BlankError(Blanks(cfg.strict, t)))
    else if Blanks(cfg.strict, t).rest == "" then Bad(ErrEof)
    else
      var u := Blanks(cfg.strict, t).rest;
      if u[0] == ']' then if sep && cfg.strict then Bad(ErrUnexpected) else Got(Array(items), u[1..], pos)
      else if depth + 1 >= cfg.maxDepth then Bad(ErrDepth)
      else
        match ReadValue(cfg, depth + 1, pos, u)
        case Bad(e) => Bad(e)
        case Cut(v) => Cut(v)
        case Unsaid => Unsaid
        case Got(v, rest, p) => BehindItem(cfg, depth, p, rest, items, v)
  }

  /** Behind an item: the bracket, or a comma and more. */
  function BehindItem(cfg: Config, depth: nat, pos: nat, rest: string, items: seq<Value>, v: Value): (r: Result)
    ensures r.Got? ==> |r.rest| < |rest| && (NUL !in rest ==> NUL !in r.rest)
    decreases |rest|, 2
  {
    match Blanks(cfg.strict, rest)
    case Unclosed => Cut(v)
    case Stray(_) => Bad(ErrComment)
    case To(w) =>
      if w == "" then Bad(ErrEof)
      else if w[0] == ']' then Got(Array(items + [v]), w[1..], pos)
      else if w[0] == ',' then ReadItems(cfg, depth, pos, w[1..], items + [v], true)
      else Bad(ErrArray)
  }

  /** The fields of an object; a name may stand in either kind of quotes, in strict mode too. */
  function ReadFields(cfg: Config, depth: nat, pos: nat, t: string, fields: seq<Field>, sep: bool): (r: Result)
    ensures r.Got? ==> |r.rest| < |t| && (NUL !in t ==> NUL !in r.rest)
    decreases |t|, 1
  {
    if !Blanks(cfg.strict, t).To? then Bad(BlankError(Blanks(cfg.strict, t)))
    else if Blanks(cfg.strict, t).rest == "" then Bad(ErrEof)
    else
      var u := Blanks(cfg.strict, t).rest;
      if u[0] == '}' then if sep && cfg.strict then Bad(ErrUnexpected) else Got(Object(fields), u[1..], pos)
      else if u[0] != '"' && u[0] != '\'' then Bad(ErrKeyName)
      else
        match ReadString(u[0], u[1..], "", pos)
        case Broken(e) => Bad(e)
        case Surrogated => Unsaid
        case Closed(name, after, p) => BehindName(cfg, depth, p, after, fields, name)
  }

  /** Behind a name: the colon, the value and what follows. */
  function BehindName(cfg: Config, depth: nat, pos: nat, after: string, fields: seq<Field>, name: string): (r: Result)
    ensures r.Got? ==> |r.rest| < |after| && (NUL !in after ==> NUL !in r.rest)
    decreases |after|, 3
  {
    if !Blanks(cfg.strict, after).To? then Bad(BlankError(Blanks(cfg.strict, after)))
    else if Blanks(cfg.strict, after).rest == "" then Bad(ErrEof)
    else
      var x := Blanks(cfg.strict, after).rest;
      if x[0] != ':' then Bad(ErrKeySep)
      else if depth + 1 >= cfg.maxDepth then Bad(TooDeep(cfg, x[1..]))
      else
        match ReadValue(cfg, depth + 1, pos, x[1..])
        case Bad(e) => Bad(e)
        case Cut(v) => Cut(v)
        case Unsaid => Unsaid
        case Got(v, rest, q) => BehindField(cfg, depth, q, rest, AddField(fields, CStr(name), v), v)
  }

  /** The error for a value that would be too deep, behind its blanks. */
  function TooDeep(cfg: Config, t: string): Error {
    var b := Blanks(cfg.strict, t);
    if b.To? then At(b.rest, ErrDepth) else BlankError(b)
  }

  /** Behind a field: the bracket, or a comma and more. */
  function BehindField(cfg: Config, depth: nat, pos: nat, rest: string, fields: seq<Field>, v: Value): (r: Result)
    ensures r.Got? ==> |r.rest| < |rest| && (NUL !in rest ==> NUL !in r.rest)
    decreases |rest|, 2
  {
    match Blanks(cfg.strict, rest)
    case Unclosed => Cut(v)
    case Stray(_) => Bad(ErrComment)
    case To(w) =>
      if w == "" then Bad(ErrEof)
      else if w[0] == '}' then Got(Object(fields), w[1..], pos)
      else if w[0] == ',' then ReadFields(cfg, depth, pos, w[1..], fields, true)
      else Bad(ErrValueSep)
  }

  // ----- whole texts -----

  /** The value of a text, if it is accepted; behind the value strict mode takes blanks only, lenient mode anything but a stray slash. */
  function ReadText(cfg: Config, t: string): Result {
    match ReadValue(cfg, 0, 0, t)
    case Bad(e) => Bad(e)
    case Cut(v) => Cut(v)
    case Unsaid => Unsaid
    case Got(v, rest, pos) =>
      match Blanks(cfg.strict, rest)
      case Stray(_) => Bad(ErrComment)
      case Unclosed => Cut(v)
      case To(w) => if w != "" && cfg.strict then Bad(ErrUnexpected) else Got(v, w, pos)
  }
}

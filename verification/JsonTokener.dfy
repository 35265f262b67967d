/**
 The json-c tokener as an automaton that reads one character at a time.

 `Step` is one pass through the switch of json_tokener_parse_ex, `Feed` follows
 the redo_char jumps for one character, and `FeedAll` is the whole loop.  The
 invariant `Valid` says what the stack of levels looks like between passes.
 */
module JsonTokener {
  import opened Options
  import opened JsonValue

  datatype Phase =
    | Eatws | Start | Finish | NullLit
    | CommentStart | Comment | CommentEol | CommentEnd
    | StringBody | StringEscape | EscapeUnicode
    | BooleanLit | Number
    | ArrayStart | ArrayAdd | ArraySep
    | FieldStart | FieldName | FieldEnd | FieldValue | FieldValueAdd | FieldSep
    | ArrayAfterSep | FieldStartAfterSep | Inf

  /** json_tokener_error; `Surrogate` marks escapes the model does not decode. */
  datatype Error =
    | Success | Continue | ErrDepth | ErrEof | ErrUnexpected | ErrNull | ErrBoolean
    | ErrNumber | ErrArray | ErrKeyName | ErrKeySep | ErrValueSep | ErrString
    | ErrComment | ErrSize | Surrogate

  /** One stack record.  `fieldName` is None for a NULL obj_field_name. */
  datatype Level = Level(state: Phase, saved: Phase, current: Value, fieldName: Option<string>)

  /** What json_tokener_reset_level leaves in a record. */
  const FRESH: Level := Level(Eatws, Start, Null, None)

  /**
   The tokener between two passes.  `below` holds the records under the top one,
   so the C depth is |below|.  `obj` and `caseLen` are local variables of
   json_tokener_parse_ex and do not survive the end of a call.
   */
  datatype State = State(
    below: seq<Level>, top: Level, pb: string, stPos: nat, ucs: nat, quote: char,
    isDouble: bool, obj: Value, caseLen: nat)

  /** `scanDouble` says which texts sscanf accepts as a double. */
  datatype Config = Config(maxDepth: nat, strict: bool, scanDouble: string -> bool)

  datatype Move = Consume(st: State) | Redo(st: State) | Halt(st: State, err: Error)

  /** `at` is the character at which the run left the loop. */
  datatype Run = Going(st: State) | Halted(st: State, err: Error, at: char)

  // ----- characters and numbers -----

  predicate IsSpace(c: char) {
    c == ' ' || c == '\t' || c == '\n' || c == '\U{000B}' || c == FORMFEED || c == '\r'
  }

  predicate IsDigit(c: char) { '0' <= c <= '9' }

  predicate IsNumberChar(c: char) {
    IsDigit(c) || c == '.' || c == '+' || c == '-' || c == 'e' || c == 'E'
  }

  /** strchr(json_hex_chars, c), which also finds the terminating NUL. */
  predicate IsHexChar(c: char) {
    IsDigit(c) || 'a' <= c <= 'f' || 'A' <= c <= 'F' || c == NUL
  }

  function HexDigit(c: char): int {
    if c <= '9' then c as int - '0' as int else c as int % 8 + 9
  }

  function ToLower(c: char): char {
    if 'A' <= c <= 'Z' then ((c as int) + 32) as char else c
  }

  /** strncasecmp or strncmp of a literal word with the buffer, over n characters. */
  predicate WordMatches(strict: bool, word: string, buf: string, n: nat)
    requires n <= |word|
  {
    forall i :: 0 <= i < n ==> i < |buf| && (if strict then buf[i] else ToLower(buf[i])) == (if strict then word[i] else ToLower(word[i]))
  }

  function Min(a: nat, b: nat): nat { if a < b then a else b }

  predicate IsHighSurrogate(u: nat) { 0xD800 <= u % 0x1_0000 < 0xDC00 }
  predicate IsLowSurrogate(u: nat) { 0xDC00 <= u % 0x1_0000 < 0xE000 }

  const REPLACEMENT: string := [0xEF as char, 0xBF as char, 0xBD as char]

  function Utf8(u: nat): string {
    if u < 0x80 then [u as char]
    else if u < 0x800 then [(0xC0 + u / 64) as char, (0x80 + u % 64) as char]
    else if IsLowSurrogate(u) then REPLACEMENT
    else if u < 0x1_0000 then
      [(0xE0 + u / 4096) as char, (0x80 + u / 64 % 64) as char, (0x80 + u % 64) as char]
    else if u < 0x11_0000 then
      [(0xF0 + u / 262144 % 8) as char, (0x80 + u / 4096 % 64) as char,
       (0x80 + u / 64 % 64) as char, (0x80 + u % 64) as char]
    else REPLACEMENT
  }

  function Shift(stPos: nat): nat {
    if stPos == 0 then 4096 else if stPos == 1 then 256 else if stPos == 2 then 16 else 1
  }

  /** The longest run of digits at the front of `s`. */
  function LeadingDigits(s: string): (r: string)
    ensures forall c <- r :: IsDigit(c)
  {
    if s == "" || !IsDigit(s[0]) then "" else [s[0]] + LeadingDigits(s[1..])
  }

  function DigitsValue(s: string): nat
    requires forall c <- s :: IsDigit(c)
  {
    if s == "" then 0
    else
      assert IsDigit(s[|s| - 1]);
      10 * DigitsValue(s[..|s| - 1]) + (s[|s| - 1] as int - '0' as int)
  }

  /** json_parse_int64: optional sign, digits, saturating at the 64-bit range. */
  function ParseInt64(buf: string): Option<int> {
    var signed := buf != "" && (buf[0] == '-' || buf[0] == '+');
    var negative := buf != "" && buf[0] == '-';
    var digits := LeadingDigits(if signed then buf[1..] else buf);
    if digits == "" then None
    else
      var n := DigitsValue(digits);
      var v: int := if negative then 0 - n else n;
      Some(if v < INT64_MIN then INT64_MIN else if v > INT64_MAX then INT64_MAX else v)
  }

  // ----- the invariant of the level stack -----

  /** A level that waits for a child: an array, or an object with a pending field name. */
  predicate ParentOk(l: Level) {
    || (l.state.ArrayAdd? && l.current.Array?)
    || (l.state.FieldValueAdd? && l.current.Object? && l.fieldName.Some?)
  }

  predicate OnArray(p: Phase) { p.ArrayStart? || p.ArrayAfterSep? || p.ArraySep? || p.ArrayAdd? }

  /** Object phases that carry a pending field name. */
  predicate OnNamed(p: Phase) { p.FieldEnd? || p.FieldValue? || p.FieldValueAdd? }

  predicate OnObject(p: Phase) {
    p.FieldStart? || p.FieldStartAfterSep? || p.FieldName? || p.FieldSep? || OnNamed(p)
  }

  predicate InComment(p: Phase) { p.CommentStart? || p.Comment? || p.CommentEol? || p.CommentEnd? }

  predicate InEscape(p: Phase) { p.StringEscape? || p.EscapeUnicode? }

  /** Phases that may run, or be resumed after white space, on level `l`. */
  predicate PhaseOk(p: Phase, l: Level) {
    && !p.Eatws? && !InComment(p) && !InEscape(p)
    && (OnArray(p) ==> l.current.Array?)
    && (OnObject(p) ==> l.current.Object?)
    && (OnNamed(p) ==> l.fieldName.Some?)
  }

  /** The phase the level is in, looking through white space, comments and escapes. */
  function Pending(l: Level): Phase {
    if l.state.Eatws? || InComment(l.state) || InEscape(l.state) then l.saved else l.state
  }

  /** Phases that white space or a comment may precede. */
  predicate Resumable(p: Phase) {
    || p.Start? || p.Finish? || p.ArrayStart? || p.ArrayAfterSep? || p.ArraySep?
    || p.FieldStart? || p.FieldStartAfterSep? || p.FieldEnd? || p.FieldValue? || p.FieldSep?
  }

  predicate TopOk(l: Level) {
    && PhaseOk(Pending(l), l)
    && (l.state.Eatws? || InComment(l.state) ==> Resumable(l.saved))
    && (InEscape(l.state) ==> l.saved.StringBody? || l.saved.FieldName?)
  }

  predicate BelowOk(below: seq<Level>) {
    forall l <- below :: ParentOk(l)
  }

  predicate Valid(st: State) {
    TopOk(st.top) && BelowOk(st.below) && (st.top.state.EscapeUnicode? ==> st.stPos < 4)
  }

  /** How many redo_char jumps can still follow from a phase. */
  function PhaseRank(p: Phase): nat {
    if p.ArrayAdd? || p.FieldValueAdd? then 2
    else if p.Finish? then 3
    else if p.Inf? || p.NullLit? || p.BooleanLit? then 5
    else if p.Number? then 6
    else if p.Start? then 7
    else if p.ArrayStart? || p.ArrayAfterSep? || p.FieldValue? then 9
    else 0
  }

  function Rank(l: Level): nat {
    if l.state.Eatws? then 1 + PhaseRank(l.saved) else PhaseRank(l.state)
  }

  // ----- one pass through the switch -----

  function Goto(st: State, p: Phase): State { st.(top := st.top.(state := p)) }

  /** Skip white space, then continue with phase `p`. */
  function Skip(st: State, p: Phase): State { st.(top := st.top.(state := Eatws, saved := p)) }

  /** The level holds its finished value `v`. */
  function Complete(st: State, v: Value): State {
    st.(top := Level(Eatws, Finish, v, st.top.fieldName))
  }

  function Push(st: State, parent: Phase): State {
    st.(below := st.below + [st.top.(state := parent)], top := FRESH)
  }

  function StepEatws(cfg: Config, st: State, c: char): Move {
    if IsSpace(c) then Consume(st)
    else if c == '/' && !cfg.strict then Consume(Goto(st, CommentStart).(pb := "/"))
    else Redo(Goto(st, st.top.saved))
  }

  /** The literal that a value starting with `c` must spell, if any. */
  function LiteralPhase(c: char): Option<Phase> {
    if c == 'I' || c == 'i' then Some(Inf)
    else if c == 'N' || c == 'n' then Some(NullLit)
    else if c == 'T' || c == 't' || c == 'F' || c == 'f' then Some(BooleanLit)
    else None
  }

  function StepStart(cfg: Config, st: State, c: char): Move {
    if c == '{' then Consume(Skip(st.(top := st.top.(current := Object([]))), FieldStart))
    else if c == '[' then Consume(Skip(st.(top := st.top.(current := Array([]))), ArrayStart))
    else if c == '"' || (c == '\'' && !cfg.strict) then Consume(Goto(st, StringBody).(pb := "", quote := c))
    else if LiteralPhase(c).Some? then Redo(Goto(st, LiteralPhase(c).value).(pb := "", stPos := 0))
    else if IsDigit(c) || c == '-' then Redo(Goto(st, Number).(pb := "", isDouble := false, caseLen := 0))
    else Halt(st, ErrUnexpected)
  }

  function StepFinish(st: State): Move {
    if st.below == [] then Halt(st, Success)
    else
      var last := |st.below| - 1;
      Redo(st.(below := st.below[..last], top := st.below[last], obj := st.top.current))
  }

  function Infinite(negative: bool): Value { Double(if negative then "-Infinity" else "Infinity") }

  function StepInf(cfg: Config, st: State, c: char): Move {
    var st' := st.(pb := st.pb + [c]);
    var negative := st'.pb[0] == '-';
    var buf := if negative then st'.pb[1..] else st'.pb;
    if WordMatches(cfg.strict, "Infinity", buf, Min(st.stPos + 1, 8)) then
      if st.stPos == 8 then Redo(Complete(st', Infinite(negative)))
      else Consume(st'.(stPos := st.stPos + 1))
    else Halt(st', ErrUnexpected)
  }

  function StepNull(cfg: Config, st: State, c: char): Move {
    var st' := st.(pb := st.pb + [c]);
    if WordMatches(cfg.strict, "null", st'.pb, Min(st.stPos + 1, 4)) then
      if st.stPos == 4 then Redo(Complete(st', Null)) else Consume(st'.(stPos := st.stPos + 1))
    else if WordMatches(cfg.strict, "NaN", st'.pb, Min(st.stPos + 1, 3)) then
      if st.stPos == 3 then Redo(Complete(st', Double("NaN"))) else Consume(st'.(stPos := st.stPos + 1))
    else Halt(st', ErrNull)
  }

  function StepBoolean(cfg: Config, st: State, c: char): Move {
    var st' := st.(pb := st.pb + [c]);
    if WordMatches(cfg.strict, "true", st'.pb, Min(st.stPos + 1, 4)) then
      if st.stPos == 4 then Redo(Complete(st', Bool(true))) else Consume(st'.(stPos := st.stPos + 1))
    else if WordMatches(cfg.strict, "false", st'.pb, Min(st.stPos + 1, 5)) then
      if st.stPos == 5 then Redo(Complete(st', Bool(false))) else Consume(st'.(stPos := st.stPos + 1))
    else Halt(st', ErrBoolean)
  }

  function StepComment(st: State, c: char): Move {
    match st.top.state
    case CommentStart =>
      if c == '*' then Consume(Goto(st, Comment).(pb := st.pb + [c]))
      else if c == '/' then Consume(Goto(st, CommentEol).(pb := st.pb + [c]))
      else Halt(st, ErrComment)
    case Comment =>
      Consume((if c == '*' then Goto(st, CommentEnd) else st).(pb := st.pb + [c]))
    case CommentEol =>
      if c == '\n' then Consume(Goto(st, Eatws)) else Consume(st.(pb := st.pb + [c]))
    case _ =>
      Consume(Goto(st, if c == '/' then Eatws else Comment).(pb := st.pb + [c]))
  }

  /** The bodies of strings and of field names. */
  function StepText(st: State, c: char): Move {
    if c == st.quote then
      if st.top.state.StringBody? then Consume(Complete(st, Str(st.pb)))
      else Consume(Skip(st.(top := st.top.(fieldName := Some(CStr(st.pb)))), FieldEnd))
    else if c == '\\' then Consume(st.(top := st.top.(state := StringEscape, saved := st.top.state)))
    else Consume(st.(pb := st.pb + [c]))
  }

  function Unescaped(c: char): char {
    if c == 'b' then BACKSPACE
    else if c == 'n' then '\n'
    else if c == 'r' then '\r'
    else if c == 't' then '\t'
    else if c == 'f' then FORMFEED
    else c
  }

  function StepEscape(st: State, c: char): Move {
    if c in {'"', '\\', '/', 'b', 'n', 'r', 't', 'f'} then
      Consume(Goto(st, st.top.saved).(pb := st.pb + [Unescaped(c)]))
    else if c == 'u' then Consume(Goto(st, EscapeUnicode).(ucs := 0, stPos := 0))
    else Halt(st, ErrString)
  }

  function StepUnicode(st: State, c: char): Move {
    if !IsHexChar(c) then Halt(st, ErrString)
    else
      var u := (st.ucs + HexDigit(c) * Shift(st.stPos)) % 0x1_0000_0000;
      var st' := st.(ucs := u, stPos := st.stPos + 1);
      if st'.stPos < 4 then Consume(st')
      else if u >= 0x800 && IsHighSurrogate(u) then Halt(st', Surrogate)
      else Consume(Goto(st', st.top.saved).(pb := st.pb + Utf8(u)))
  }

  function StepNumber(cfg: Config, st: State, c: char): Move {
    if IsNumberChar(c) then
      Consume(st.(pb := st.pb + [c], caseLen := st.caseLen + 1,
                  isDouble := st.isDouble || c == '.' || c == 'e' || c == 'E'))
    else if st.pb != "" && st.pb[0] == '-' && st.caseLen == 1 && (c == 'i' || c == 'I') then Redo(Goto(st, Inf))
    else if st.isDouble then
      if cfg.scanDouble(st.pb) then Redo(Complete(st, Double(st.pb))) else Halt(st, ErrNumber)
    else
      match ParseInt64(st.pb)
      case None => Halt(st, ErrNumber)
      case Some(n) =>
        if n != 0 && st.pb[0] == '0' && cfg.strict then Halt(st, ErrNumber)
        else Redo(Complete(st, Int(n)))
  }

  function StepArray(cfg: Config, st: State, c: char): Move
    requires PhaseOk(st.top.state, st.top)
  {
    match st.top.state
    case ArrayStart | ArrayAfterSep =>
      if c == ']' then
        if st.top.state.ArrayAfterSep? && cfg.strict then Halt(st, ErrUnexpected)
        else Consume(Skip(st, Finish))
      else if |st.below| + 1 >= cfg.maxDepth then Halt(st, ErrDepth)
      else Redo(Push(st, ArrayAdd))
    case ArrayAdd =>
      Redo(Skip(st.(top := st.top.(current := Array(st.top.current.items + [st.obj]))), ArraySep))
    case _ =>
      if c == ']' then Consume(Skip(st, Finish))
      else if c == ',' then Consume(Skip(st, ArrayAfterSep))
      else Halt(st, ErrArray)
  }

  function StepObject(cfg: Config, st: State, c: char): Move
    requires PhaseOk(st.top.state, st.top)
  {
    match st.top.state
    case FieldStart | FieldStartAfterSep =>
      if c == '}' then
        if st.top.state.FieldStartAfterSep? && cfg.strict then Halt(st, ErrUnexpected)
        else Consume(Skip(st, Finish))
      else if c == '"' || c == '\'' then Consume(Goto(st, FieldName).(pb := "", quote := c))
      else Halt(st, ErrKeyName)
    case FieldEnd =>
      if c == ':' then Consume(Skip(st, FieldValue)) else Halt(st, ErrKeySep)
    case FieldValue =>
      if |st.below| + 1 >= cfg.maxDepth then Halt(st, ErrDepth) else Redo(Push(st, FieldValueAdd))
    case FieldValueAdd =>
      var fields := AddField(st.top.current.fields, st.top.fieldName.value, st.obj);
      Redo(Skip(st.(top := st.top.(current := Object(fields), fieldName := None)), FieldSep))
    case FieldSep =>
      if c == '}' then Consume(Skip(st, Finish))
      else if c == ',' then Consume(Skip(st, FieldStartAfterSep))
      else Halt(st, ErrValueSep)
    case _ => Halt(st, ErrKeyName)
  }

  /** One pass through the switch with current character `c`. */
  function Step(cfg: Config, st: State, c: char): Move
    requires Valid(st)
  {
    match st.top.state
    case Eatws => StepEatws(cfg, st, c)
    case Start => StepStart(cfg, st, c)
    case Finish => StepFinish(st)
    case Inf => StepInf(cfg, st, c)
    case NullLit => StepNull(cfg, st, c)
    case BooleanLit => StepBoolean(cfg, st, c)
    case CommentStart | Comment | CommentEol | CommentEnd => StepComment(st, c)
    case StringBody | FieldName => StepText(st, c)
    case StringEscape => StepEscape(st, c)
    case EscapeUnicode => StepUnicode(st, c)
    case Number => StepNumber(cfg, st, c)
    case ArrayStart | ArrayAfterSep | ArrayAdd | ArraySep => StepArray(cfg, st, c)
    case _ => StepObject(cfg, st, c)
  }

  /** A pass that does not stop keeps the level stack well formed, and a jump lowers the rank. */
  ghost predicate Sound(st: State, m: Move) {
    && (!m.Halt? ==> Valid(m.st))
    && (m.Redo? ==> Rank(m.st.top) < Rank(st.top))
  }


  lemma EatwsSound(cfg: Config, st: State, c: char)
    requires Valid(st) && st.top.state.Eatws?
    ensures Sound(st, StepEatws(cfg, st, c))
  {
  }

  lemma StartSound(cfg: Config, st: State, c: char)
    requires Valid(st) && st.top.state.Start?
    ensures Sound(st, StepStart(cfg, st, c))
  {
    hide IsDigit;
  }

  lemma FinishSound(st: State)
    requires Valid(st) && st.top.state.Finish?
    ensures Sound(st, StepFinish(st))
  {
    if st.below != [] {
      assert ParentOk(st.below[|st.below| - 1]);
    }
  }

  lemma InfSound(cfg: Config, st: State, c: char)
    requires Valid(st) && st.top.state.Inf?
    ensures Sound(st, StepInf(cfg, st, c))
  {
    hide WordMatches, Infinite;
  }

  lemma NullSound(cfg: Config, st: State, c: char)
    requires Valid(st) && st.top.state.NullLit?
    ensures Sound(st, StepNull(cfg, st, c))
  {
    hide WordMatches;
  }

  lemma BooleanSound(cfg: Config, st: State, c: char)
    requires Valid(st) && st.top.state.BooleanLit?
    ensures Sound(st, StepBoolean(cfg, st, c))
  {
    hide WordMatches;
  }

  lemma NumberSound(cfg: Config, st: State, c: char)
    requires Valid(st) && st.top.state.Number?
    ensures Sound(st, StepNumber(cfg, st, c))
  {
    hide ParseInt64, IsNumberChar;
  }

  lemma CommentSound(st: State, c: char)
    requires Valid(st) && InComment(st.top.state)
    ensures Sound(st, StepComment(st, c))
  {
  }

  lemma TextSound(st: State, c: char)
    requires Valid(st) && (st.top.state.StringBody? || st.top.state.FieldName?)
    ensures Sound(st, StepText(st, c))
  {
    hide CStr;
  }

  lemma EscapeSound(st: State, c: char)
    requires Valid(st) && st.top.state.StringEscape?
    ensures Sound(st, StepEscape(st, c))
  {
  }

  lemma UnicodeSound(st: State, c: char)
    requires Valid(st) && st.top.state.EscapeUnicode?
    ensures Sound(st, StepUnicode(st, c))
  {
  }

  lemma ArraySound(cfg: Config, st: State, c: char)
    requires Valid(st) && OnArray(st.top.state)
    ensures Sound(st, StepArray(cfg, st, c))
  {
  }

  lemma ObjectSound(cfg: Config, st: State, c: char)
    requires Valid(st) && OnObject(st.top.state) && !st.top.state.FieldName?
    ensures Sound(st, StepObject(cfg, st, c))
  {
    hide AddField;
  }

  lemma StepKeepsValid(cfg: Config, st: State, c: char)
    requires Valid(st)
    ensures Sound(st, Step(cfg, st, c))
  {
    match st.top.state
    case Eatws => EatwsSound(cfg, st, c);
    case Start => StartSound(cfg, st, c);
    case Finish => FinishSound(st);
    case Inf => InfSound(cfg, st, c);
    case NullLit => NullSound(cfg, st, c);
    case BooleanLit => BooleanSound(cfg, st, c);
    case Number => NumberSound(cfg, st, c);
    case CommentStart | Comment | CommentEol | CommentEnd => CommentSound(st, c);
    case StringBody | FieldName => TextSound(st, c);
    case StringEscape => EscapeSound(st, c);
    case EscapeUnicode => UnicodeSound(st, c);
    case ArrayStart | ArrayAfterSep | ArrayAdd | ArraySep => ArraySound(cfg, st, c);
    case _ => ObjectSound(cfg, st, c);
  }

  /** The goto redo_char loop for one character; a consumed NUL leaves the outer loop. */
  function Feed(cfg: Config, st: State, c: char): (r: Run)
    requires Valid(st)
    ensures r.Going? ==> Valid(r.st)
    decreases Rank(st.top)
  {
    StepKeepsValid(cfg, st, c);
    match Step(cfg, st, c)
    case Consume(st') => if c == NUL then Halted(st', Success, c) else Going(st')
    case Redo(st') => Feed(cfg, st', c)
    case Halt(st', err) => Halted(st', err, c)
  }

  /** A jump to redo_char reads the same character again. */
  lemma FeedRedo(cfg: Config, st: State, c: char, st': State)
    requires Valid(st) && Step(cfg, st, c) == Redo(st')
    ensures Valid(st') && Feed(cfg, st, c) == Feed(cfg, st', c)
  {
    hide Step;
    StepKeepsValid(cfg, st, c);
  }

  lemma FeedHalt(cfg: Config, st: State, c: char)
    requires Valid(st) && Step(cfg, st, c).Halt?
    ensures Feed(cfg, st, c) == Halted(Step(cfg, st, c).st, Step(cfg, st, c).err, c)
  {
  }

  function FeedAll(cfg: Config, st: State, text: string): (r: Run)
    requires Valid(st)
    ensures r.Going? ==> Valid(r.st)
    decreases |text|
  {
    if text == "" then Going(st)
    else
      match Feed(cfg, st, text[0])
      case Going(st') => FeedAll(cfg, st', text[1..])
      case Halted(st', err, at) => Halted(st', err, at)
  }

  /** Reading a concatenation is reading its two halves in turn. */
  lemma {:induction false} FeedAllConcat(cfg: Config, st: State, a: string, b: string)
    requires Valid(st)
    ensures var r := FeedAll(cfg, st, a);
      FeedAll(cfg, st, a + b) == if r.Going? then FeedAll(cfg, r.st, b) else r
    decreases |a|
  {
    if a == "" {
      assert a + b == b;
    } else {
      assert (a + b)[0] == a[0] && (a + b)[1..] == a[1..] + b;
      match Feed(cfg, st, a[0]) {
        case Going(st') => FeedAllConcat(cfg, st', a[1..], b);
        case Halted(_, _, _) =>
      }
    }
  }

  // ----- one call of json_tokener_parse_ex -----

  /** Entering a call: the C locals start afresh. */
  function Enter(st: State): State { st.(obj := Null, caseLen := 0) }

  const INITIAL: State := State([], FRESH, "", 0, 0, NUL, false, Null, 0)

  /** json_tokener_reset_level on every level; the depth stays what it was. */
  function ResetLevels(st: State): State {
    st.(below := seq(|st.below|, _ => FRESH), top := FRESH)
  }

  /** The tokener after a call, its error code, and the returned value (Null unless successful). */
  datatype Outcome = Outcome(st: State, err: Error, value: Value)

  predicate AtEnd(st: State) {
    st.below == [] && st.top.state.Eatws? && st.top.saved.Finish?
  }

  /** The code after the `out` label; `c` is the last character looked at. */
  function Leave(cfg: Config, st: State, err: Error, c: char): Outcome {
    var err1 := if c != NUL && st.top.state.Finish? && st.below == [] && cfg.strict then ErrUnexpected else err;
    var err2 := if c == NUL && !st.top.state.Finish? && !st.top.saved.Finish? then ErrEof else err1;
    if err2.Success? then Outcome(ResetLevels(st), Success, st.top.current) else Outcome(st, err2, Null)
  }

  /** json_tokener_parse_ex(tok, text, |text|). */
  function ParseCall(cfg: Config, st: State, text: string): Outcome
    requires Valid(st)
  {
    var run := FeedAll(cfg, Enter(st), text);
    if run.Going? then
      var err := if AtEnd(run.st) then Success else Continue;
      Leave(cfg, run.st, err, if text == "" then '\U{0001}' else text[|text| - 1])
    else
      Leave(cfg, run.st, run.err, run.at)
  }
}

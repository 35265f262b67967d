/**
 json_tokener_parse_ex as the loop it is.  White space, strings, numbers and comments
 are gathered by inner loops that copy a whole segment at once; the proofs say that
 this is the same as feeding the automaton one character at a time.
 */
module JsonParser {
  import opened JsonValue
  import opened JsonTokener
  import opened JsonTheorems
  import JsonChunks

  const INT32_MAX: int := 0x7FFF_FFFF

  /** Where the loop stands: at `off` in state `st`, or out of the loop at character `c`. */
  ghost predicate Follows(cfg: Config, run: Run, text: string, st: State, off: nat, out: bool, err: Error, c: char) {
    off <= |text| &&
    if out then run == Halted(st, err, c) else Valid(st) && run == FeedAll(cfg, st, text[off..])
  }

  /** One pass of the loop, seen from the text that is left. */
  lemma Pass(cfg: Config, st: State, text: string, off: nat)
    requires Valid(st) && off < |text|
    ensures var c, run := text[off], FeedAll(cfg, st, text[off..]);
      match Step(cfg, st, c)
      case Consume(st') => Follows(cfg, run, text, st', off + 1, c == NUL, Success, c)
      case Redo(st') => Follows(cfg, run, text, st', off, false, Success, c) && Rank(st'.top) < Rank(st.top)
      case Halt(st', err) => Follows(cfg, run, text, st', off, true, err, c)
  {
    hide Step;
    var c := text[off];
    StepKeepsValid(cfg, st, c);
    assert text[off..][0] == c && text[off..][1..] == text[off + 1..];
  }

  /** What the switch does with the characters that the inner loops gather. */
  lemma SegmentSteps(cfg: Config, st: State, c: char)
    requires Valid(st)
    ensures (st.top.state.StringBody? || st.top.state.FieldName?) && c != st.quote && c != '\\' ==>
      Step(cfg, st, c) == Consume(st.(pb := st.pb + [c]))
    ensures st.top.state.Comment? && c != '*' ==> Step(cfg, st, c) == Consume(st.(pb := st.pb + [c]))
    ensures st.top.state.CommentEol? && c != '\n' ==> Step(cfg, st, c) == Consume(st.(pb := st.pb + [c]))
    ensures st.top.state.Number? && IsNumberChar(c) ==> Step(cfg, st, c) == Consume(JsonChunks.MoreNumber(st, c))
    ensures st.top.state.Eatws? && IsSpace(c) ==> Step(cfg, st, c) == Consume(st)
  {
    hide ParseInt64, CStr;
  }

  /** State `here` is `st` with a segment of a number appended to its buffer. */
  ghost predicate InNumber(st: State, here: State, segment: string, caseLen: nat, isDouble: bool) {
    here == st.(pb := st.pb + segment, caseLen := caseLen, isDouble := isDouble)
  }

  /** One more character of a number. */
  lemma NumberPass(cfg: Config, st: State, here: State, text: string, start: nat, off: nat, caseLen: nat, isDouble: bool)
    requires start <= off < |text| && Valid(here) && here.top.state.Number? && IsNumberChar(text[off])
    requires InNumber(st, here, text[start..off], caseLen, isDouble)
    ensures var c := text[off];
      var next := JsonChunks.MoreNumber(here, c);
      && c != NUL && Valid(next) && next.top.state.Number?
      && FeedAll(cfg, here, text[off..]) == FeedAll(cfg, next, text[off + 1..])
      && InNumber(st, next, text[start..off + 1], caseLen + 1, isDouble || c == '.' || c == 'e' || c == 'E')
  {
    assert !IsNumberChar(NUL);
    hide Step, Feed, FeedAll, Valid, IsNumberChar, Rank;
    SegmentSteps(cfg, here, text[off]);
    Pass(cfg, here, text, off);
    assert st.pb + text[start..off] + [text[off]] == st.pb + text[start..off + 1];
  }

  lemma NumberRead(st: State, here: State, segment: string, caseLen: nat, isDouble: bool)
    requires InNumber(st, here, segment, caseLen, isDouble)
    ensures here == st.(pb := st.pb + segment, caseLen := caseLen, isDouble := isDouble)
  {
  }

  /** What the switch does with the character that ends a segment. */
  lemma SegmentEnds(cfg: Config, st: State, c: char)
    requires Valid(st)
    ensures st.top.state.StringBody? || st.top.state.FieldName? ==>
      Step(cfg, st, c) == StepText(st, c) && StepText(st, c).Consume?
    ensures st.top.state.Comment? || st.top.state.CommentEol? ==>
      Step(cfg, st, c) == StepComment(st, c) && StepComment(st, c).Consume?
  {
    hide CStr;
  }

  /** The state with a gathered segment appended to its buffer. */
  function Gathered(st: State, text: string, start: nat, off: nat): State
    requires start <= off <= |text|
  {
    st.(pb := st.pb + text[start..off])
  }

  /** One more character of a string or comment segment. */
  lemma GatherOne(cfg: Config, run: Run, text: string, st: State, start: nat, off: nat)
    requires start <= off < |text|
    requires Follows(cfg, run, text, Gathered(st, text, start, off), off, false, Success, text[off])
    requires var c := text[off];
      || ((st.top.state.StringBody? || st.top.state.FieldName?) && c != st.quote && c != '\\')
      || (st.top.state.Comment? && c != '*')
      || (st.top.state.CommentEol? && c != '\n')
    ensures Follows(cfg, run, text, Gathered(st, text, start, off + 1), off + 1, text[off] == NUL, Success, text[off])
  {
    hide Step, FeedAll;
    var here := Gathered(st, text, start, off);
    SegmentSteps(cfg, here, text[off]);
    Pass(cfg, here, text, off);
    assert here.pb + [text[off]] == st.pb + text[start..off + 1];
  }

  lemma GatheredLevels(st: State, text: string, start: nat, off: nat)
    requires start <= off <= |text|
    ensures Gathered(st, text, start, off).top == st.top
  {
  }

  lemma GatherNone(text: string, st: State, start: nat)
    requires start <= |text|
    ensures Gathered(st, text, start, start) == st
  {
    assert st.pb + text[start..start] == st.pb;
  }

  class Tokener {
    const cfg: Config
    var st: State
    var err: Error
    var charOffset: nat

    /** json_tokener_new_ex. */
    constructor (cfg: Config)
      ensures this.cfg == cfg && st == INITIAL && err == Success
    {
      this.cfg := cfg;
      st := INITIAL;
      err := Success;
      charOffset := 0;
    }

    /** json_tokener_reset: whatever happened before, the tokener can be used again. */
    method Reset()
      modifies this`st, this`err
      ensures Valid(st) && st.below == [] && st.top == FRESH && err == Success
      ensures st.pb == old(st.pb)
    {
      st := st.(below := [], top := FRESH);
      err := Success;
    }

    method Advance(c: char) returns (more: bool)
      modifies this`charOffset
      ensures charOffset == old(charOffset) + 1 && more == (c != NUL)
    {
      charOffset := charOffset + 1;
      more := c != NUL;
    }

    /** The inner loop of the white-space state. */
    method SkipBlanks(text: string) returns (c: char)
      requires Valid(st) && st.top.state.Eatws? && charOffset < |text|
      modifies this`charOffset
      ensures old(charOffset) <= charOffset <= |text|
      ensures FeedAll(cfg, st, text[old(charOffset)..]) == FeedAll(cfg, st, text[charOffset..])
      ensures charOffset < |text| ==> c == text[charOffset] && !IsSpace(c)
      ensures charOffset == |text| ==> c == text[|text| - 1] && c != NUL
    {
      assert !IsSpace(NUL);
      hide Step, FeedAll, IsSpace;
      c := text[charOffset];
      while IsSpace(c)
        invariant old(charOffset) <= charOffset < |text| && c == text[charOffset]
        invariant FeedAll(cfg, st, text[old(charOffset)..]) == FeedAll(cfg, st, text[charOffset..])
        decreases |text| - charOffset
      {
        SegmentSteps(cfg, st, c);
        Pass(cfg, st, text, charOffset);
        var more := Advance(c);
        if charOffset == |text| {
          return;
        }
        c := text[charOffset];
      }
    }

    /** The inner loop of strings and field names: one segment up to a quote or a backslash. */
    method ScanText(text: string) returns (c: char, out: bool)
      requires Valid(st) && (st.top.state.StringBody? || st.top.state.FieldName?) && charOffset < |text|
      modifies this`st, this`charOffset
      ensures old(charOffset) < charOffset <= |text|
      ensures Follows(cfg, FeedAll(cfg, old(st), text[old(charOffset)..]), text, st, charOffset, out, Success, c)
      ensures c == text[charOffset - 1]
    {
      hide Step, FeedAll, StepText, StepComment, Valid, Gathered;
      var start := charOffset;
      c := text[charOffset];
      GatherNone(text, st, start);
      ghost var run := FeedAll(cfg, st, text[start..]);
      while c != st.quote && c != '\\'
        invariant start <= charOffset < |text| && c == text[charOffset]
        invariant st == old(st)
        invariant Follows(cfg, run, text, Gathered(st, text, start, charOffset), charOffset, false, Success, c)
        decreases |text| - charOffset
      {
        GatherOne(cfg, run, text, st, start, charOffset);
        var more := Advance(c);
        if !more || charOffset == |text| {
          st := Gathered(st, text, start, charOffset);
          return c, !more;
        }
        c := text[charOffset];
      }
      GatheredLevels(st, text, start, charOffset);
      st := Gathered(st, text, start, charOffset);
      SegmentEnds(cfg, st, c);
      Pass(cfg, st, text, charOffset);
      st := StepText(st, c).st;
      var more := Advance(c);
      out := !more;
    }

    /** The inner loop of numbers: one segment of number characters. */
    method ScanNumber(text: string) returns (c: char)
      requires Valid(st) && st.top.state.Number? && charOffset < |text|
      modifies this`st, this`charOffset
      ensures old(charOffset) <= charOffset <= |text| && st.top.state.Number? && Valid(st)
      ensures FeedAll(cfg, old(st), text[old(charOffset)..]) == FeedAll(cfg, st, text[charOffset..])
      ensures charOffset < |text| ==> c == text[charOffset] && !IsNumberChar(c)
      ensures charOffset == |text| ==> c == text[|text| - 1] && c != NUL
    {
      var start := charOffset;
      c := text[charOffset];
      var caseLen, isDouble := st.caseLen, st.isDouble;
      ghost var run, here := FeedAll(cfg, st, text[start..]), st;
      assert InNumber(st, st, text[start..start], caseLen, isDouble) by {
        assert st.pb + text[start..start] == st.pb;
      }
      hide Feed, FeedAll, IsNumberChar, Valid, InNumber, JsonChunks.MoreNumber;
      while IsNumberChar(c)
        invariant start <= charOffset < |text| && c == text[charOffset] && st == old(st)
        invariant here.top.state.Number? && InNumber(st, here, text[start..charOffset], caseLen, isDouble)
        invariant Valid(here) && run == FeedAll(cfg, here, text[charOffset..])
        decreases |text| - charOffset
      {
        NumberPass(cfg, st, here, text, start, charOffset, caseLen, isDouble);
        here := JsonChunks.MoreNumber(here, c);
        caseLen := caseLen + 1;
        if c == '.' || c == 'e' || c == 'E' {
          isDouble := true;
        }
        var more := Advance(c);
        if charOffset == |text| {
          NumberRead(st, here, text[start..charOffset], caseLen, isDouble);
          st := st.(pb := st.pb + text[start..charOffset], caseLen := caseLen, isDouble := isDouble);
          return;
        }
        c := text[charOffset];
      }
      NumberRead(st, here, text[start..charOffset], caseLen, isDouble);
      st := st.(pb := st.pb + text[start..charOffset], caseLen := caseLen, isDouble := isDouble);
    }

    /** The inner loops of the two comment forms: everything up to the character that may end it. */
    method ScanComment(text: string) returns (c: char, out: bool)
      requires Valid(st) && (st.top.state.Comment? || st.top.state.CommentEol?) && charOffset < |text|
      modifies this`st, this`charOffset
      ensures old(charOffset) < charOffset <= |text|
      ensures Follows(cfg, FeedAll(cfg, old(st), text[old(charOffset)..]), text, st, charOffset, out, Success, c)
      ensures c == text[charOffset - 1]
    {
      hide Step, FeedAll, StepText, StepComment, Valid, Gathered;
      var start := charOffset;
      c := text[charOffset];
      GatherNone(text, st, start);
      var last := if st.top.state.Comment? then '*' else '\n';
      ghost var run := FeedAll(cfg, st, text[start..]);
      while c != last
        invariant start <= charOffset < |text| && c == text[charOffset]
        invariant st == old(st)
        invariant Follows(cfg, run, text, Gathered(st, text, start, charOffset), charOffset, false, Success, c)
        decreases |text| - charOffset
      {
        GatherOne(cfg, run, text, st, start, charOffset);
        var more := Advance(c);
        if !more || charOffset == |text| {
          st := Gathered(st, text, start, charOffset);
          return c, !more;
        }
        c := text[charOffset];
      }
      GatheredLevels(st, text, start, charOffset);
      st := Gathered(st, text, start, charOffset);
      SegmentEnds(cfg, st, c);
      Pass(cfg, st, text, charOffset);
      st := StepComment(st, c).st;
      var more := Advance(c);
      out := !more;
    }

    /** The code after the `out` label. */
    method Finish(c: char) returns (value: Value)
      modifies this`st, this`err
      ensures Outcome(st, err, value) == Leave(cfg, old(st), old(err), c)
    {
      if c != NUL && st.top.state.Finish? && st.below == [] && cfg.strict {
        err := ErrUnexpected;
      }
      if c == NUL && !st.top.state.Finish? && !st.top.saved.Finish? {
        err := ErrEof;
      }
      if err.Success? {
        value := st.top.current;
        st := ResetLevels(st);
      } else {
        value := Null;
      }
    }

    /** One call with an explicit length: the tight loops refine the automaton. */
    method ParseText(text: string) returns (value: Value)
      requires Valid(st)
      modifies this
      ensures Outcome(st, err, value) == ParseCall(cfg, old(st), text)
    {
      hide Step, FeedAll;
      charOffset := 0;
      err := Success;
      st := Enter(st);
      var c := '\U{0001}';
      var out := false;
      ghost var run := FeedAll(cfg, st, text);
      assert text[0..] == text;
      while charOffset < |text| && !out
        invariant Follows(cfg, run, text, st, charOffset, out, err, c)
        invariant !out ==> err == Success
        invariant !out && charOffset == |text| ==> c == if text == "" then '\U{0001}' else text[|text| - 1]
        decreases !out, |text| - charOffset, Rank(st.top)
      {
        c, out := OnePass(text, run);
      }
      if !out {
        err := if AtEnd(st) then Success else Continue;
        assert text[charOffset..] == "";
        FeedAllNothing(cfg, st);
      }
      value := Finish(c);
    }

    /** One pass through the switch, with the inner loop of the current state if it has one. */
    method OnePass(text: string, ghost run: Run) returns (c: char, out: bool)
      requires charOffset < |text| && err == Success
      requires Follows(cfg, run, text, st, charOffset, false, err, NUL)
      modifies this
      ensures Follows(cfg, run, text, st, charOffset, out, err, c)
      ensures !out ==> err == Success
      ensures !out && charOffset == |text| ==> c == text[|text| - 1]
      ensures old(charOffset) <= charOffset
      ensures !out && charOffset == old(charOffset) ==> Rank(st.top) < old(Rank(st.top))
    {
      hide Step, FeedAll;
      out := false;
      if st.top.state.StringBody? || st.top.state.FieldName? {
        c, out := ScanText(text);
      } else if st.top.state.Comment? || st.top.state.CommentEol? {
        c, out := ScanComment(text);
      } else {
        if st.top.state.Eatws? {
          c := SkipBlanks(text);
        } else if st.top.state.Number? {
          c := ScanNumber(text);
        } else {
          c := text[charOffset];
        }
        if charOffset < |text| {
          Pass(cfg, st, text, charOffset);
          match Step(cfg, st, c)
          case Consume(st') =>
            st := st';
            var more := Advance(c);
            out := !more;
          case Redo(st') =>
            st := st';
          case Halt(st', e) =>
            st := st';
            err := e;
            out := true;
        }
      }
    }

    /** json_tokener_parse_ex with its length argument; -1 means a NUL-terminated string. */
    method ParseEx(str: string, len: int) returns (value: Value)
      requires Valid(st) && len <= |str|
      modifies this
      ensures len < -1 || (len == -1 && |CStr(str)| > INT32_MAX) ==>
        err == ErrSize && value == Null && st == old(st)
      ensures len >= 0 ==> Outcome(st, err, value) == ParseCall(cfg, old(st), str[..len])
      ensures len == -1 && |CStr(str)| <= INT32_MAX ==>
        Outcome(st, err, value) == ParseCall(cfg, old(st), CStr(str) + [NUL])
    {
      charOffset := 0;
      err := Success;
      if len < -1 || (len == -1 && |CStr(str)| > INT32_MAX) {
        err := ErrSize;
        return Null;
      }
      if len == -1 {
        value := ParseText(CStr(str) + [NUL]);
      } else {
        value := ParseText(str[..len]);
      }
    }
  }

  const DEFAULT_DEPTH: nat := 32

  /** json_tokener_parse on what json_object_to_json_string_ext printed. */
  method Reparse(v: Value, style: Style, scanDouble: string -> bool) returns (value: Value, err: Error)
    requires Printable(v) && |Print(v, style, 0)| <= INT32_MAX
    ensures if Height(v) < DEFAULT_DEPTH then err == Success && value == v else err == ErrDepth
  {
    hide Print, FeedAll, Step;
    var cfg := Config(DEFAULT_DEPTH, false, scanDouble);
    var tok := new Tokener(cfg);
    var text := Print(v, style, 0);
    PrintHasNoNul(v, style, 0);
    value := tok.ParseEx(text, -1);
    err := tok.err;
    RoundTrip(cfg, v, style);
  }
}

/**
 The tokener refines the recursive descent of JsonReference: from every state that waits for a
 value, string, item or field, the run over the rest of the text goes on as the descent says.
 */
module JsonSimulation {
  import opened Options
  import opened JsonValue
  import opened JsonTokener
  import opened JsonText
  import opened JsonReference

  // ----- runs of the automaton -----

  /** The rest of the run that reads `t` and the NUL behind it. */
  function Go(cfg: Config, st: State, t: string): Run
    requires Valid(st)
  {
    FeedAll(cfg, st, t + [NUL])
  }

  function First(t: string): char { if t == "" then NUL else t[0] }

  /** The call ends with this error. */
  ghost predicate Refused(cfg: Config, r: Run, err: Error) {
    r.Halted? && Leave(cfg, r.st, r.err, r.at).err == err && !err.Success?
  }

  /** The call ends with this value. */
  ghost predicate Returns(cfg: Config, r: Run, v: Value) {
    r.Halted? && Leave(cfg, r.st, r.err, r.at).err.Success? && Leave(cfg, r.st, r.err, r.at).value == v
  }

  lemma Consumes(cfg: Config, st: State, t: string, st': State)
    requires Valid(st) && t != "" && t[0] != NUL && Step(cfg, st, t[0]) == Consume(st')
    ensures Valid(st') && Go(cfg, st, t) == Go(cfg, st', t[1..])
  {
    hide Step, Valid;
    StepKeepsValid(cfg, st, t[0]);
    assert (t + [NUL])[0] == t[0] && (t + [NUL])[1..] == t[1..] + [NUL];
  }

  lemma Redoes(cfg: Config, st: State, t: string, st': State)
    requires Valid(st) && Step(cfg, st, First(t)) == Redo(st')
    ensures Valid(st') && Go(cfg, st, t) == Go(cfg, st', t)
  {
    hide Step, Valid;
    FeedRedo(cfg, st, First(t), st');
    assert (t + [NUL])[0] == First(t);
  }

  lemma Halts(cfg: Config, st: State, t: string)
    requires Valid(st) && Step(cfg, st, First(t)).Halt?
    ensures var m := Step(cfg, st, First(t)); Go(cfg, st, t) == Halted(m.st, m.err, First(t))
  {
    hide Step, Valid;
    FeedHalt(cfg, st, First(t));
    assert (t + [NUL])[0] == First(t);
  }

  /** The text ends in a phase that reads on: the NUL is consumed and the call ends with the error for it. */
  lemma Ends(cfg: Config, st: State, st': State)
    requires Valid(st) && Step(cfg, st, NUL) == Consume(st') && !st'.top.state.Finish? && !st'.top.saved.Finish?
    ensures Refused(cfg, Go(cfg, st, ""), ErrEof)
  {
    hide Step, Valid;
    StepKeepsValid(cfg, st, NUL);
    assert "" + [NUL] == [NUL];
  }

  /** A halt with an error is a refusal; at the end of the text the error is that. */
  lemma HaltRefuses(cfg: Config, st: State, t: string)
    requires Valid(st) && NUL !in t && Step(cfg, st, First(t)).Halt?
    requires var m := Step(cfg, st, First(t)); !m.err.Success? && !m.st.top.state.Finish? && !m.st.top.saved.Finish?
    ensures Refused(cfg, Go(cfg, st, t), At(t, Step(cfg, st, First(t)).err))
  {
    hide Step;
    Halts(cfg, st, t);
    if t != "" {
      assert t[0] in t;
    }
  }

  // ----- white space and comments -----

  lemma EatwsStep(cfg: Config, st: State, c: char)
    requires Valid(st) && st.top.state.Eatws?
    ensures Step(cfg, st, c) == StepEatws(cfg, st, c)
  {
  }

  lemma CommentStep(cfg: Config, st: State, c: char)
    requires Valid(st) && InComment(st.top.state)
    ensures Step(cfg, st, c) == StepComment(st, c)
  {
  }

  /** The saved phase goes on with the text behind the blanks; or an open comment ends the call. */
  ghost predicate Skips(cfg: Config, st: State, t: string, st': State, r: Skipped) {
    Valid(st) &&
    match r
    case To(rest) =>
      Valid(st') && st' == Goto(st, st.top.saved).(pb := st'.pb) && Go(cfg, st, t) == Go(cfg, st', rest)
    case Stray(_) => Refused(cfg, Go(cfg, st, t), if st.top.saved.Finish? then ErrComment else BlankError(r))
    case Unclosed =>
      if st.top.saved.Finish? then Returns(cfg, Go(cfg, st, t), st.top.current) else Refused(cfg, Go(cfg, st, t), ErrEof)
  }

  lemma SkipsLater(cfg: Config, st: State, t: string, st1: State, t1: string, st': State, r: Skipped)
    requires Valid(st) && Skips(cfg, st1, t1, st', r) && Go(cfg, st, t) == Go(cfg, st1, t1)
    requires st1 == Goto(st, st1.top.state).(pb := st1.pb)
    ensures Skips(cfg, st, t, st', r)
  {
    hide Go, Valid, Refused, Returns;
  }

  /** The text ends inside a comment. */
  lemma CommentOpen(cfg: Config, st: State, st': State)
    requires Valid(st) && Step(cfg, st, NUL) == Consume(st') && !st'.top.state.Finish?
    requires st'.top.saved == st.top.saved && st'.top.current == st.top.current
    ensures Skips(cfg, st, "", st, Unclosed)
  {
    hide Step, Valid;
    StepKeepsValid(cfg, st, NUL);
    assert "" + [NUL] == [NUL];
  }

  lemma {:induction false} SimBlanks(cfg: Config, st: State, t: string) returns (st': State)
    requires Valid(st) && st.top.state.Eatws? && NUL !in t
    ensures Skips(cfg, st, t, st', Blanks(cfg.strict, t))
    decreases |t|
  {
    hide Go, Valid, Refused, Returns, Step, Skips;
    st' := st;
    EatwsStep(cfg, st, First(t));
    NulIsNoSpace();
    if t != "" && IsSpace(t[0]) {
      assert t[0] in t;
      Consumes(cfg, st, t, st);
      st' := SimBlanks(cfg, st, t[1..]);
      SkipsLater(cfg, st, t, st, t[1..], st', Blanks(cfg.strict, t[1..]));
    } else if cfg.strict || t == "" || t[0] != '/' {
      st' := Goto(st, st.top.saved);
      Redoes(cfg, st, t, st');
      SkipsNothing(cfg, st, t, st');
    } else {
      var slash := Goto(st, CommentStart).(pb := "/");
      Consumes(cfg, st, t, slash);
      CommentStep(cfg, slash, First(t[1..]));
      if |t| >= 2 && (t[1] == '*' || t[1] == '/') {
        var next := StepComment(slash, t[1]).st;
        Consumes(cfg, slash, t[1..], next);
        assert t[1..][1..] == t[2..];
        forall c <- t[2..] ensures c != NUL { assert c in t; }
        if t[1] == '*' {
          st' := SimBlock(cfg, next, t[2..]);
        } else {
          st' := SimLine(cfg, next, t[2..]);
        }
        SkipsLater(cfg, st, t, next, t[2..], st', Blanks(cfg.strict, t));
      } else {
        StraySlash(cfg, slash, t[1..]);
        SkipsStray(cfg, st, t, st');
      }
    }
  }

  lemma NulIsNoSpace()
    ensures !IsSpace(NUL)
  {
  }

  lemma SkipsNothing(cfg: Config, st: State, t: string, st': State)
    requires Valid(st) && Valid(st') && st' == Goto(st, st.top.saved) && Go(cfg, st, t) == Go(cfg, st', t)
    ensures Skips(cfg, st, t, st', To(t))
  {
  }

  lemma SkipsStray(cfg: Config, st: State, t: string, st': State)
    requires Valid(st) && t != ""
    requires Refused(cfg, Go(cfg, st, t), if st.top.saved.Finish? then ErrComment else At(t[1..], ErrComment))
    ensures Skips(cfg, st, t, st', Stray(|t| == 1))
  {
  }

  /** A slash that begins no comment. */
  lemma StraySlash(cfg: Config, st: State, t: string)
    requires Valid(st) && st.top.state.CommentStart? && NUL !in t && (t != "" ==> t[0] != '*' && t[0] != '/')
    ensures Refused(cfg, Go(cfg, st, t), if st.top.saved.Finish? then ErrComment else At(t, ErrComment))
  {
    CommentStep(cfg, st, First(t));
    Halts(cfg, st, t);
    if t != "" {
      assert t[0] in t;
    }
  }

  lemma {:induction false} SimBlock(cfg: Config, st: State, t: string) returns (st': State)
    requires !cfg.strict && Valid(st) && st.top.state.Comment? && NUL !in t
    ensures Skips(cfg, st, t, st', InBlock(t))
    decreases |t|
  {
    hide Go, Valid, Refused, Returns, Step, Skips;
    st' := st;
    CommentStep(cfg, st, First(t));
    var next := StepComment(st, First(t)).st;
    if t == "" {
      CommentOpen(cfg, st, next);
      return;
    }
    assert t[0] in t;
    Consumes(cfg, st, t, next);
    forall c <- t[1..] ensures c != NUL { assert c in t; }
    if t[0] != '*' {
      st' := SimBlock(cfg, next, t[1..]);
      SkipsLater(cfg, st, t, next, t[1..], st', InBlock(t));
    } else {
      CommentStep(cfg, next, First(t[1..]));
      var star := StepComment(next, First(t[1..])).st;
      if |t| == 1 {
        CommentOpen(cfg, next, star);
        assert t[1..] == "";
        st' := next;
        SkipsLater(cfg, st, t, next, t[1..], st', Unclosed);
      } else {
        Consumes(cfg, next, t[1..], star);
        assert t[1..][1..] == t[2..];
        forall c <- t[2..] ensures c != NUL { assert c in t; }
        if t[1] == '/' {
          st' := SimBlanks(cfg, star, t[2..]);
        } else {
          st' := SimBlock(cfg, star, t[2..]);
        }
        SkipsLater(cfg, st, t, star, t[2..], st', InBlock(t));
      }
    }
  }

  lemma {:induction false} SimLine(cfg: Config, st: State, t: string) returns (st': State)
    requires !cfg.strict && Valid(st) && st.top.state.CommentEol? && NUL !in t
    ensures Skips(cfg, st, t, st', InLine(t))
    decreases |t|
  {
    hide Go, Valid, Refused, Returns, Step, Skips;
    st' := st;
    CommentStep(cfg, st, First(t));
    var next := StepComment(st, First(t)).st;
    if t == "" {
      CommentOpen(cfg, st, next);
    } else {
      assert t[0] in t;
      Consumes(cfg, st, t, next);
      forall c <- t[1..] ensures c != NUL { assert c in t; }
      if t[0] == '\n' {
        st' := SimBlanks(cfg, next, t[1..]);
      } else {
        st' := SimLine(cfg, next, t[1..]);
      }
      SkipsLater(cfg, st, t, next, t[1..], st', InLine(t));
    }
  }

  /** Behind the blanks there is nothing more to skip. */
  lemma Resumes(cfg: Config, st: State, t: string)
    requires Valid(st) && st.top.state.Eatws? && (t != "" ==> !IsSpace(t[0]) && (cfg.strict || t[0] != '/'))
    ensures Valid(Goto(st, st.top.saved)) && Go(cfg, st, t) == Go(cfg, Goto(st, st.top.saved), t)
  {
    hide Go, Valid, Step;
    NulIsNoSpace();
    EatwsStep(cfg, st, First(t));
    Redoes(cfg, st, t, Goto(st, st.top.saved));
  }

  // ----- strings -----

  /** In the body of a string or field name. */
  ghost predicate InBody(st: State) {
    && Valid(st) && (st.top.state.StringBody? || st.top.state.FieldName?)
    && !st.top.saved.Finish? && st.quote != '\\' && st.quote != NUL
  }

  /** Behind its closing quote. */
  function Quit(st: State, s: string): State {
    if st.top.state.StringBody? then Complete(st, Str(s))
    else Skip(st.(top := st.top.(fieldName := Some(CStr(s)))), FieldEnd)
  }

  /** Same levels, the value or name `s` taken, and the register. */
  ghost predicate Behind(st': State, st: State, s: string, pos: nat) {
    && Valid(st') && st'.below == st.below && st'.stPos == pos && st'.top == Quit(st, s).top
  }

  lemma TextStep(cfg: Config, st: State, c: char)
    requires InBody(st)
    ensures Step(cfg, st, c) == StepText(st, c)
  {
  }

  lemma EscapeStep(cfg: Config, st: State, c: char)
    requires Valid(st) && st.top.state.StringEscape?
    ensures Step(cfg, st, c) == StepEscape(st, c)
  {
  }

  lemma UnicodeStep(cfg: Config, st: State, c: char)
    requires Valid(st) && st.top.state.EscapeUnicode?
    ensures Step(cfg, st, c) == StepUnicode(st, c) && st.stPos < 4
  {
  }

  lemma HexExactly(c: char)
    ensures HexValue(c).Some? <==> IsHexChar(c) && c != NUL
    ensures HexValue(c).Some? ==> HexDigit(c) == HexValue(c).value < 16
  {
  }

  /** An escape whose digits are cut short or are no digits. */
  lemma {:induction false} BadDigits(cfg: Config, st: State, t: string)
    requires Valid(st) && st.top.state.EscapeUnicode? && !st.top.saved.Finish? && NUL !in t
    requires |t| < 4 - st.stPos || exists i :: 0 <= i < 4 - st.stPos && HexValue(t[i]).None?
    ensures Refused(cfg, Go(cfg, st, t), DigitError(t))
    decreases |t|
  {
    hide Go, Valid, Refused, Step, Utf8, IsHexChar, HexDigit;
    UnicodeStep(cfg, st, First(t));
    HexExactly(First(t));
    var m := StepUnicode(st, First(t));
    if t == "" {
      if m.Halt? { HaltRefuses(cfg, st, t); } else { Ends(cfg, st, m.st); }
    } else if HexValue(t[0]).None? {
      assert t[0] in t;
      HaltRefuses(cfg, st, t);
    } else {
      assert t[0] in t;
      Consumes(cfg, st, t, m.st);
      assert forall i :: 0 < i < 4 - st.stPos && i < |t| ==> t[i] == t[1..][i - 1];
      BadDigits(cfg, m.st, t[1..]);
    }
  }

  /** One of the first three digits. */
  lemma GoodDigit(cfg: Config, st: State, t: string) returns (st': State)
    requires Valid(st) && st.top.state.EscapeUnicode? && st.stPos < 3 && st.ucs < 0x1_0000
    requires t != "" && HexValue(t[0]).Some?
    ensures st' == st.(ucs := st.ucs + HexValue(t[0]).value * Shift(st.stPos), stPos := st.stPos + 1)
    ensures Valid(st') && Go(cfg, st, t) == Go(cfg, st', t[1..])
  {
    hide Go, Valid, Step, Utf8, IsHexChar, HexDigit;
    HexExactly(t[0]);
    UnicodeStep(cfg, st, t[0]);
    st' := StepUnicode(st, t[0]).st;
    Consumes(cfg, st, t, st');
  }

  /** And the last. */
  lemma FourthDigit(cfg: Config, st: State, t: string, u: nat) returns (st': State)
    requires Valid(st) && st.top.state.EscapeUnicode? && st.stPos == 3
    requires t != "" && HexValue(t[0]).Some? && u == st.ucs + HexValue(t[0]).value && u < 0x1_0000 && !(0xD800 <= u < 0xDC00)
    ensures st' == Goto(st, st.top.saved).(pb := st.pb + Utf8(u), ucs := u, stPos := 4)
    ensures Valid(st') && Go(cfg, st, t) == Go(cfg, st', t[1..])
  {
    hide Go, Valid, Step, Utf8, IsHexChar, HexDigit;
    HexExactly(t[0]);
    UnicodeStep(cfg, st, t[0]);
    st' := StepUnicode(st, t[0]).st;
    Consumes(cfg, st, t, st');
  }

  /** Four digits. */
  lemma GoodDigits(cfg: Config, st: State, t: string) returns (st': State)
    requires Valid(st) && st.top.state.EscapeUnicode? && st.stPos == 0 && st.ucs == 0
    requires |t| >= 4 && CodeUnit(t[..4]).Some? && !(0xD800 <= CodeUnit(t[..4]).value < 0xDC00)
    ensures Valid(st') && Go(cfg, st, t) == Go(cfg, st', t[4..])
    ensures st' == Goto(st, st.top.saved).(pb := st.pb + Utf8(CodeUnit(t[..4]).value), ucs := CodeUnit(t[..4]).value, stPos := 4)
  {
    hide Go, Valid, Utf8, HexValue;
    assert t[..4][0] == t[0] && t[..4][1] == t[1] && t[..4][2] == t[2] && t[..4][3] == t[3];
    HexExactly(t[0]);
    HexExactly(t[1]);
    HexExactly(t[2]);
    HexExactly(t[3]);
    var st1 := GoodDigit(cfg, st, t);
    var st2 := GoodDigit(cfg, st1, t[1..]);
    assert t[1..][1..] == t[2..];
    var st3 := GoodDigit(cfg, st2, t[2..]);
    assert t[2..][1..] == t[3..];
    st' := FourthDigit(cfg, st3, t[3..], CodeUnit(t[..4]).value);
    assert t[3..][1..] == t[4..];
  }

  /** The body of a string or name up to its quote. */
  lemma {:induction false} SimString(cfg: Config, st: State, t: string) returns (st': State)
    requires InBody(st) && NUL !in t
    ensures match ReadString(st.quote, t, st.pb, st.stPos)
      case Closed(s, rest, pos) => Behind(st', st, s, pos) && Go(cfg, st, t) == Go(cfg, st', rest)
      case Broken(e) => Refused(cfg, Go(cfg, st, t), e)
      case Surrogated => true
    decreases |t|, 2
  {
    hide Go, Refused, Step, Utf8, CodeUnit, ShortEscape;
    st' := st;
    TextStep(cfg, st, First(t));
    if t == "" {
      Ends(cfg, st, StepText(st, NUL).st);
      return;
    }
    assert t[0] in t;
    var next := StepText(st, t[0]).st;
    Consumes(cfg, st, t, next);
    if t[0] == st.quote {
      st' := next;
    } else if t[0] != '\\' {
      st' := SimString(cfg, next, t[1..]);
    } else {
      st' := SimEscape(cfg, st, next, t);
    }
  }

  lemma {:induction false} SimEscape(cfg: Config, st: State, esc: State, t: string) returns (st': State)
    requires InBody(st) && NUL !in t && t != "" && t[0] == '\\' && t[0] != st.quote
    requires Valid(esc) && esc == st.(top := st.top.(state := StringEscape, saved := st.top.state))
    requires Go(cfg, st, t) == Go(cfg, esc, t[1..])
    ensures match ReadString(st.quote, t, st.pb, st.stPos)
      case Closed(s, rest, pos) => Behind(st', st, s, pos) && Go(cfg, st, t) == Go(cfg, st', rest)
      case Broken(e) => Refused(cfg, Go(cfg, st, t), e)
      case Surrogated => true
    decreases |t|, 1
  {
    hide Go, Refused, Step, Utf8;
    st' := st;
    var u := t[1..];
    EscapeStep(cfg, esc, First(u));
    if u == "" || (ShortEscape(u[0]).None? && u[0] != 'u') {
      HaltRefuses(cfg, esc, u);
    } else {
      assert u[0] in t;
      var next := StepEscape(esc, u[0]).st;
      Consumes(cfg, esc, u, next);
      assert u[1..] == t[2..];
      if ShortEscape(u[0]).Some? {
        assert Unescaped(u[0]) == ShortEscape(u[0]).value;
        st' := SimString(cfg, next, t[2..]);
      } else {
        st' := SimUnicode(cfg, st, next, t);
      }
    }
  }

  lemma {:induction false} SimUnicode(cfg: Config, st: State, uni: State, t: string) returns (st': State)
    requires InBody(st) && NUL !in t && |t| >= 2 && t[0] == '\\' && t[0] != st.quote && t[1] == 'u'
    requires Valid(uni)
    requires uni == st.(top := st.top.(state := EscapeUnicode, saved := st.top.state), ucs := 0, stPos := 0)
    requires Go(cfg, st, t) == Go(cfg, uni, t[2..])
    ensures match ReadString(st.quote, t, st.pb, st.stPos)
      case Closed(s, rest, pos) => Behind(st', st, s, pos) && Go(cfg, st, t) == Go(cfg, st', rest)
      case Broken(e) => Refused(cfg, Go(cfg, st, t), e)
      case Surrogated => true
    decreases |t|, 0
  {
    hide Go, Refused, Step, Utf8;
    st' := st;
    var d := t[2..];
    forall c <- d ensures c != NUL { assert c in t; }
    if |t| >= 6 && CodeUnit(t[2..6]).Some? {
      assert d[..4] == t[2..6];
      if !(0xD800 <= CodeUnit(t[2..6]).value < 0xDC00) {
        var next := GoodDigits(cfg, uni, d);
        assert d[4..] == t[6..];
        st' := SimString(cfg, next, t[6..]);
      }
    } else {
      if |t| >= 6 {
        assert t[2..6][0] == d[0] && t[2..6][1] == d[1] && t[2..6][2] == d[2] && t[2..6][3] == d[3];
      }
      BadDigits(cfg, uni, d);
    }
  }

  // ----- words -----

  function WordPhase(w: string): Phase {
    if w == "null" || w == "NaN" then NullLit else if w == "true" || w == "false" then BooleanLit else Inf
  }

  function PhaseError(w: string): Error {
    if w == "null" || w == "NaN" then ErrNull else if w == "Infinity" then ErrUnexpected else ErrBoolean
  }

  /** The other word that the phase knows. */
  function Partner(w: string): string {
    if w == "null" then "NaN" else if w == "NaN" then "null" else if w == "true" then "false"
    else if w == "false" then "true" else w
  }

  /** The first `k` letters of the word have been read, and `t` is left. */
  ghost predicate InWord(strict: bool, st: State, w: string, k: nat, t: string) {
    && Valid(st) && k <= |w| && st.top.state == WordPhase(w) && st.stPos == k && !st.top.saved.Finish?
    && |st.pb| == k && WordMatches(strict, w, st.pb, k)
    && st.pb + t != "" && StartsWord((st.pb + t)[0]) && w == WordOf(strict, st.pb + t)
  }

  lemma MatchSnoc(strict: bool, w: string, buf: string, c: char)
    requires |buf| < |w| && WordMatches(strict, w, buf, |buf|)
    ensures WordMatches(strict, w, buf + [c], |buf| + 1) <==> Same(strict, c, w[|buf|])
  {
  }

  lemma MatchLonger(strict: bool, w: string, buf: string, c: char)
    requires |buf| == |w| && WordMatches(strict, w, buf, |w|)
    ensures WordMatches(strict, w, buf + [c], |w|)
  {
  }

  /** The other word is out of the game, but for a first letter that is common to both. */
  lemma NoPartner(strict: bool, st: State, w: string, k: nat, t: string)
    requires InWord(strict, st, w, k, t) && Partner(w) != w && !(k == 0 && Same(strict, First(t), w[0]))
    ensures !WordMatches(strict, Partner(w), st.pb + [First(t)], Min(k + 1, |Partner(w)|))
  {
    var buf, full := st.pb + [First(t)], st.pb + t;
    assert k > 0 ==> buf[0] == st.pb[0] == full[0];
    assert k > 1 ==> buf[1] == st.pb[1];
    assert k == 1 && t != "" ==> full[1] == t[0] == buf[1];
    assert k == 0 ==> full == t;
  }

  /** One more letter: the right one, or a refusal. */
  lemma WordStep(cfg: Config, st: State, w: string, k: nat, t: string)
    requires InWord(cfg.strict, st, w, k, t) && k < |w|
    ensures var m, c := Step(cfg, st, First(t)), First(t);
      if Same(cfg.strict, c, w[k]) then m == Consume(st.(pb := st.pb + [c], stPos := k + 1))
      else m.Halt? && m.err == PhaseError(w) && m.st.top == st.top
  {
    hide WordMatches, Infinite, Step, Same;
    var c, p := First(t), Partner(w);
    var pb := st.pb + [c];
    MatchSnoc(cfg.strict, w, st.pb, c);
    if p != w && !(k == 0 && Same(cfg.strict, c, w[0])) {
      NoPartner(cfg.strict, st, w, k, t);
    }
    if st.top.state.NullLit? {
      NullStep(cfg, st, c);
    } else if st.top.state.BooleanLit? {
      BooleanStep(cfg, st, c);
    } else {
      NoSign(cfg.strict, st, w, k, t);
      InfStep(cfg, st, c);
    }
  }

  /** Without a sign the buffer of Infinity starts with its first letter. */
  lemma NoSign(strict: bool, st: State, w: string, k: nat, t: string)
    requires InWord(strict, st, w, k, t) && w == "Infinity"
    ensures (st.pb + [First(t)])[0] != '-'
  {
    if k == 0 {
      assert st.pb + t == t;
    } else {
      assert (st.pb + t)[0] == st.pb[0];
    }
  }

  /** The character behind a complete word ends it. */
  lemma WordEnds(cfg: Config, st: State, w: string, t: string)
    requires InWord(cfg.strict, st, w, |w|, t)
    ensures Step(cfg, st, First(t)) == Redo(Complete(st.(pb := st.pb + [First(t)]), WordValue(w)))
  {
    hide WordMatches, Step, Same;
    var c, p := First(t), Partner(w);
    var pb := st.pb + [c];
    MatchLonger(cfg.strict, w, st.pb, c);
    if p != w {
      NoPartner(cfg.strict, st, w, |w|, t);
    }
    if st.top.state.NullLit? {
      NullStep(cfg, st, c);
    } else if st.top.state.BooleanLit? {
      BooleanStep(cfg, st, c);
    } else {
      NoSign(cfg.strict, st, w, |w|, t);
      InfStep(cfg, st, c);
    }
  }

  lemma NullStep(cfg: Config, st: State, c: char)
    requires Valid(st) && st.top.state.NullLit?
    ensures Step(cfg, st, c) == StepNull(cfg, st, c)
  {
  }

  lemma BooleanStep(cfg: Config, st: State, c: char)
    requires Valid(st) && st.top.state.BooleanLit?
    ensures Step(cfg, st, c) == StepBoolean(cfg, st, c)
  {
  }

  lemma InfStep(cfg: Config, st: State, c: char)
    requires Valid(st) && st.top.state.Inf?
    ensures Step(cfg, st, c) == StepInf(cfg, st, c)
  {
  }

  /** The level holds `v`, ready to be finished, and nothing below it has changed. */
  ghost predicate Settled(st': State, st: State, v: Value, pos: nat) {
    && Valid(st') && st'.below == st.below && st'.stPos == pos
    && st'.top.state.Eatws? && st'.top.saved.Finish? && st'.top.current == v
  }

  lemma {:induction false} SimWord(cfg: Config, st: State, w: string, k: nat, t: string) returns (st': State)
    requires k <= |w| && InWord(cfg.strict, st, w, k, t) && NUL !in t
    ensures if Spells(cfg.strict, w, k, t) then Settled(st', st, WordValue(w), |w|) && Go(cfg, st, t) == Go(cfg, st', t[|w| - k..])
            else Refused(cfg, Go(cfg, st, t), WordError(cfg.strict, w, k, t))
    decreases |w| - k
  {
    hide Go, Refused, Step, Valid, WordValue, InWord, IsWord, Same, Spells, WordError, PhaseError;
    WordFacts(cfg.strict, st, w, k, t);
    st' := st;
    if k == |w| {
      assert Spells(cfg.strict, w, k, t) by { SpellsNothing(cfg.strict, w, t); }
      WordEnds(cfg, st, w, t);
      st' := Complete(st.(pb := st.pb + [First(t)]), WordValue(w));
      Redoes(cfg, st, t, st');
      assert t[0..] == t;
    } else {
      WordStep(cfg, st, w, k, t);
      NulIsNoLetter(cfg.strict, w, k);
      if t != "" && Same(cfg.strict, t[0], w[k]) {
        assert t[0] in t;
        var next := st.(pb := st.pb + [t[0]], stPos := k + 1);
        Consumes(cfg, st, t, next);
        NextLetter(cfg.strict, st, next, w, k, t);
        forall c <- t[1..] ensures c != NUL { assert c in t; }
        st' := SimWord(cfg, next, w, k + 1, t[1..]);
        WordErrorOn(cfg.strict, w, k, t);
        SpellsOn(cfg.strict, w, k, t);
        if Spells(cfg.strict, w, k, t) {
          SpellsLength(cfg.strict, w, k, t);
          assert t[1..][|w| - (k + 1)..] == t[|w| - k..];
        }
      } else {
        SpellsFirst(cfg.strict, w, k, t);
        WordErrorHere(cfg.strict, w, k, t);
        HaltRefuses(cfg, st, t);
      }
    }
  }

  lemma WordErrorOn(strict: bool, w: string, k: nat, t: string)
    requires k < |w| && t != "" && Same(strict, t[0], w[k])
    ensures WordError(strict, w, k, t) == WordError(strict, w, k + 1, t[1..])
  {
  }

  lemma WordErrorHere(strict: bool, w: string, k: nat, t: string)
    requires k < |w| && !(t != "" && Same(strict, t[0], w[k]))
    ensures WordError(strict, w, k, t) == At(t, PhaseError(w)) && !PhaseError(w).Success?
  {
  }

  lemma WordFacts(strict: bool, st: State, w: string, k: nat, t: string)
    requires InWord(strict, st, w, k, t)
    ensures Valid(st) && k <= |w| && IsWord(w) && st.stPos == k && !st.top.saved.Finish? && !st.top.state.Finish?
  {
  }

  lemma NextLetter(strict: bool, st: State, next: State, w: string, k: nat, t: string)
    requires InWord(strict, st, w, k, t) && k < |w| && t != "" && Same(strict, t[0], w[k])
    requires Valid(next) && next == st.(pb := st.pb + [t[0]], stPos := k + 1)
    ensures InWord(strict, next, w, k + 1, t[1..])
  {
    hide WordMatches, WordOf, Valid, StartsWord, Same, WordPhase;
    MatchSnoc(strict, w, st.pb, t[0]);
    assert next.pb + t[1..] == st.pb + t;
  }

  lemma SpellsNothing(strict: bool, w: string, t: string)
    ensures Spells(strict, w, |w|, t)
  {
  }

  lemma SpellsLength(strict: bool, w: string, k: nat, t: string)
    requires k <= |w| && Spells(strict, w, k, t)
    ensures |w| - k <= |t|
  {
  }

  lemma SpellsFirst(strict: bool, w: string, k: nat, t: string)
    requires k < |w| && !(t != "" && Same(strict, t[0], w[k]))
    ensures !Spells(strict, w, k, t)
  {
  }

  lemma NulIsNoLetter(strict: bool, w: string, k: nat)
    requires IsWord(w) && k < |w|
    ensures !Same(strict, NUL, w[k])
  {
  }

  lemma SpellsOn(strict: bool, w: string, k: nat, t: string)
    requires k < |w| && t != "" && Same(strict, t[0], w[k])
    ensures Spells(strict, w, k, t) <==> Spells(strict, w, k + 1, t[1..])
  {
    hide Same;
    if Spells(strict, w, k + 1, t[1..]) {
      forall i | k <= i < |w| ensures Same(strict, t[i - k], w[i]) {
        if i > k {
          assert t[1..][i - (k + 1)] == t[i - k];
        }
      }
    }
    if Spells(strict, w, k, t) {
      forall i | k + 1 <= i < |w| ensures Same(strict, t[1..][i - (k + 1)], w[i]) {
        assert t[1..][i - (k + 1)] == t[i - k];
      }
    }
  }

  // ----- numbers -----

  /** `num` has been read of a number. */
  ghost predicate InNumber(st: State, num: string) {
    && Valid(st) && st.top.state.Number? && st.pb == num && st.caseLen == |num|
    && (st.isDouble <==> exists c <- num :: IsFraction(c)) && !st.top.saved.Finish?
  }

  lemma NumberStep(cfg: Config, st: State, c: char)
    requires Valid(st) && st.top.state.Number?
    ensures Step(cfg, st, c) == StepNumber(cfg, st, c)
  {
  }

  /** The whole run of number characters is read. */
  lemma {:induction false} SimDigits(cfg: Config, st: State, num: string, t: string) returns (st': State)
    requires InNumber(st, num) && NUL !in t
    ensures var n := NumberRun(t);
      && InNumber(st', num + t[..n]) && st'.below == st.below && st'.stPos == st.stPos && st'.top == st.top
      && Go(cfg, st, t) == Go(cfg, st', t[n..])
    decreases |t|
  {
    hide Go, Step, Valid;
    if t == "" || !IsNumberChar(t[0]) {
      st' := st;
      assert num + t[..0] == num && t[0..] == t;
    } else {
      assert t[0] in t;
      NumberStep(cfg, st, t[0]);
      var next := StepNumber(cfg, st, t[0]).st;
      Consumes(cfg, st, t, next);
      FractionSnoc(num, t[0]);
      st' := SimDigits(cfg, next, num + [t[0]], t[1..]);
      var n := NumberRun(t[1..]);
      assert num + [t[0]] + t[1..][..n] == num + t[..n + 1] && t[1..][n..] == t[n + 1..];
    }
  }

  lemma FractionSnoc(num: string, x: char)
    ensures (exists c <- num + [x] :: IsFraction(c)) <==> (exists c <- num :: IsFraction(c)) || IsFraction(x)
  {
    if c :| c in num && IsFraction(c) {
      assert c in num + [x];
    }
    assert x in num + [x];
  }

  /** The character behind a number decides it. */
  lemma SimNumberEnd(cfg: Config, st: State, num: string, t: string) returns (st': State)
    requires InNumber(st, num) && num != "" && NUL !in t && !IsNumberChar(First(t))
    requires !(num == "-" && (First(t) == 'i' || First(t) == 'I'))
    ensures match NumberValue(cfg, num)
      case Some(v) => Settled(st', st, v, st.stPos) && Go(cfg, st, t) == Go(cfg, st', t)
      case None => Refused(cfg, Go(cfg, st, t), At(t, ErrNumber))
  {
    hide Go, Refused, Step, Valid, ParseInt64, IsNumberChar;
    st' := st;
    NumberStep(cfg, st, First(t));
    assert st.pb[0] == '-' && st.caseLen == 1 ==> num == "-";
    match NumberValue(cfg, num)
    case None => HaltRefuses(cfg, st, t);
    case Some(v) =>
      st' := Complete(st, v);
      Redoes(cfg, st, t, st');
  }

  // ----- minus infinity -----

  const INF: string := "Infinity"

  ghost predicate InMinus(strict: bool, st: State, k: nat) {
    && Valid(st) && st.top.state.Inf? && k <= 8 && st.stPos == k
    && !st.top.saved.Finish? && |st.pb| == k + 1 && st.pb[0] == '-' && WordMatches(strict, INF, st.pb[1..], k)
  }

  lemma MinusStep(cfg: Config, st: State, k: nat, c: char)
    requires InMinus(cfg.strict, st, k)
    ensures var m := Step(cfg, st, c);
      if k == 8 then m == Redo(Complete(st.(pb := st.pb + [c]), Double("-Infinity")))
      else if Same(cfg.strict, c, INF[k]) then m == Consume(st.(pb := st.pb + [c], stPos := k + 1))
      else m.Halt? && m.err.ErrUnexpected? && m.st.top == st.top
  {
    hide WordMatches, Step, Same;
    assert (st.pb + [c])[1..] == st.pb[1..] + [c];
    InfStep(cfg, st, c);
    if k == 8 {
      MatchLonger(cfg.strict, INF, st.pb[1..], c);
    } else {
      MatchSnoc(cfg.strict, INF, st.pb[1..], c);
    }
  }

  lemma {:induction false} SimMinus(cfg: Config, st: State, k: nat, t: string) returns (st': State)
    requires InMinus(cfg.strict, st, k) && NUL !in t
    ensures if Spells(cfg.strict, INF, k, t) then Settled(st', st, Double("-Infinity"), 8) && Go(cfg, st, t) == Go(cfg, st', t[8 - k..])
            else Refused(cfg, Go(cfg, st, t), WordError(cfg.strict, INF, k, t))
    decreases 8 - k
  {
    hide Go, Refused, Step, Valid, WordMatches, Same;
    st' := st;
    MinusStep(cfg, st, k, First(t));
    if k == 8 {
      st' := Complete(st.(pb := st.pb + [First(t)]), Double("-Infinity"));
      Redoes(cfg, st, t, st');
      assert t[0..] == t;
    } else {
      NulIsNoLetter(cfg.strict, INF, k);
      if t != "" && Same(cfg.strict, t[0], INF[k]) {
        assert t[0] in t;
        var next := st.(pb := st.pb + [t[0]], stPos := k + 1);
        Consumes(cfg, st, t, next);
        assert next.pb[1..] == st.pb[1..] + [t[0]];
        MatchSnoc(cfg.strict, INF, st.pb[1..], t[0]);
        forall c <- t[1..] ensures c != NUL { assert c in t; }
        st' := SimMinus(cfg, next, k + 1, t[1..]);
        SpellsOn(cfg.strict, INF, k, t);
        if Spells(cfg.strict, INF, k, t) {
          assert t[1..][8 - (k + 1)..] == t[8 - k..];
        }
      } else {
        HaltRefuses(cfg, st, t);
      }
    }
  }

  /** The sign before an i: minus infinity, if the register is clear. */
  lemma SimSign(cfg: Config, st: State, t: string) returns (st': State)
    requires InNumber(st, "-") && NUL !in t && t != "" && (t[0] == 'i' || t[0] == 'I')
    ensures if st.stPos > 0 then Refused(cfg, Go(cfg, st, t), ErrUnexpected)
            else if Spells(cfg.strict, INF, 0, t) then
              Settled(st', st, Double("-Infinity"), 8) && Go(cfg, st, t) == Go(cfg, st', t[8..])
            else Refused(cfg, Go(cfg, st, t), WordError(cfg.strict, INF, 0, t))
  {
    hide Go, Refused, Step, Valid, Spells;
    NumberStep(cfg, st, t[0]);
    var inf := Goto(st, Inf);
    Redoes(cfg, st, t, inf);
    st' := inf;
    if st.stPos == 0 {
      st' := SimMinus(cfg, inf, 0, t);
    } else {
      LeftOver(cfg, inf, t[0]);
      HaltRefuses(cfg, inf, t);
    }
  }

  /** A register that an earlier token left makes the comparison run past the buffer. */
  lemma LeftOver(cfg: Config, st: State, c: char)
    requires Valid(st) && st.top.state.Inf? && st.pb == "-" && st.stPos > 0
    ensures var m := Step(cfg, st, c); m.Halt? && m.err.ErrUnexpected? && m.st.top == st.top
  {
    hide Step;
    InfStep(cfg, st, c);
    assert |(st.pb + [c])[1..]| == 1 && INF[1] == 'n';
    assert !WordMatches(cfg.strict, INF, (st.pb + [c])[1..], Min(st.stPos + 1, 8));
  }

  // ----- values -----

  /** The level waits for a value. */
  ghost predicate Waits(st: State) { Valid(st) && st.top == FRESH }

  lemma StartStep(cfg: Config, st: State, c: char)
    requires Valid(st) && st.top.state.Start?
    ensures Step(cfg, st, c) == StepStart(cfg, st, c)
  {
  }

  /** The automaton does what the descent says. */
  ghost predicate Follows(cfg: Config, st: State, t: string, st': State, r: Result) {
    Valid(st) &&
    match r
    case Got(v, rest, pos) => Settled(st', st, v, pos) && Go(cfg, st, t) == Go(cfg, st', rest)
    case Bad(e) => Refused(cfg, Go(cfg, st, t), e)
    case Cut(v) => Returns(cfg, Go(cfg, st, t), v)
    case Unsaid => true
  }

  /** What follows from a later state follows from an earlier one that leads to it. */
  lemma FollowsLater(cfg: Config, st: State, t: string, st1: State, t1: string, st': State, r: Result)
    requires Valid(st) && Valid(st1) && st1.below == st.below && Go(cfg, st, t) == Go(cfg, st1, t1) && Follows(cfg, st1, t1, st', r)
    ensures Follows(cfg, st, t, st', r)
  {
    hide Go, Valid, Refused, Returns;
  }

  /** A scalar behind the blanks. */
  function ReadScalar(cfg: Config, pos: nat, u: string): Result {
    if u == "" then Bad(ErrEof)
    else if u[0] == '"' || (u[0] == '\'' && !cfg.strict) then
      match ReadString(u[0], u[1..], "", pos)
      case Closed(s, rest, p) => Got(Str(s), rest, p)
      case Broken(e) => Bad(e)
      case Surrogated => Unsaid
    else if StartsWord(u[0]) then ReadWord(cfg.strict, u)
    else if IsDigit(u[0]) || u[0] == '-' then ReadNumber(cfg, pos, u)
    else Bad(ErrUnexpected)
  }

  lemma SimScalar(cfg: Config, st: State, t: string) returns (st': State)
    requires Valid(st) && st.top == FRESH.(state := Start) && NUL !in t
    requires t == "" || (t[0] != '{' && t[0] != '[')
    ensures Follows(cfg, st, t, st', ReadScalar(cfg, st.stPos, t))
  {
    hide Go, Refused, Returns, Step, ReadWord, ReadNumber, ReadString;
    st' := st;
    StartStep(cfg, st, First(t));
    if t == "" {
      HaltRefuses(cfg, st, t);
      return;
    }
    var c := t[0];
    assert c in t;
    if c == '"' || (c == '\'' && !cfg.strict) {
      var body := StepStart(cfg, st, c).st;
      Consumes(cfg, st, t, body);
      forall x <- t[1..] ensures x != NUL { assert x in t; }
      st' := SimString(cfg, body, t[1..]);
    } else if StartsWord(c) {
      st' := SimLiteral(cfg, st, t);
    } else if IsDigit(c) || c == '-' {
      st' := SimNumber(cfg, st, t);
    } else {
      HaltRefuses(cfg, st, t);
    }
  }

  lemma SimLiteral(cfg: Config, st: State, t: string) returns (st': State)
    requires Valid(st) && st.top == FRESH.(state := Start) && NUL !in t && t != "" && StartsWord(t[0])
    ensures Follows(cfg, st, t, st', ReadWord(cfg.strict, t))
  {
    hide Go, Refused, Returns, Step, Spells, InWord;
    StartStep(cfg, st, t[0]);
    var w, lit := WordOf(cfg.strict, t), StepStart(cfg, st, t[0]).st;
    Redoes(cfg, st, t, lit);
    EnterWord(cfg, st, t, lit);
    st' := SimWord(cfg, lit, w, 0, t);
  }

  lemma EnterWord(cfg: Config, st: State, t: string, lit: State)
    requires Valid(st) && st.top == FRESH.(state := Start) && t != "" && StartsWord(t[0]) && Valid(lit) && StepStart(cfg, st, t[0]) == Redo(lit)
    ensures InWord(cfg.strict, lit, WordOf(cfg.strict, t), 0, t)
  {
    hide Valid;
    assert lit.pb + t == t;
  }

  lemma SimNumber(cfg: Config, st: State, t: string) returns (st': State)
    requires Valid(st) && st.top == FRESH.(state := Start) && NUL !in t
    requires t != "" && (IsDigit(t[0]) || t[0] == '-')
    ensures Follows(cfg, st, t, st', ReadNumber(cfg, st.stPos, t))
  {
    hide Go, Refused, Returns, Step, NumberValue, Settled, Spells;
    StartStep(cfg, st, t[0]);
    var start := StepStart(cfg, st, t[0]).st;
    Redoes(cfg, st, t, start);
    var num := SimDigits(cfg, start, "", t);
    var n := NumberRun(t);
    assert n > 0;
    var rest := t[n..];
    assert "" + t[..n] == t[..n];
    forall x <- rest ensures x != NUL { assert x in t; }
    if t[..n] == "-" && n < |t| && (t[n] == 'i' || t[n] == 'I') {
      st' := SimSign(cfg, num, rest);
    } else {
      assert !IsNumberChar(First(rest)) by { assert !IsNumberChar(NUL); }
      st' := SimNumberEnd(cfg, num, t[..n], rest);
    }
    SettledSame(st', num, st);
  }

  lemma SettledSame(st': State, num: State, st: State)
    requires num.below == st.below
    ensures forall v, pos :: Settled(st', num, v, pos) <==> Settled(st', st, v, pos)
  {
  }

  // ----- containers -----

  ghost predicate InItems(st: State, items: seq<Value>, sep: bool) {
    && Valid(st) && st.top.state.Eatws? && st.top.current == Array(items)
    && st.top.saved == if sep then ArrayAfterSep else ArrayStart
  }

  lemma ArrayStep(cfg: Config, st: State, c: char)
    requires Valid(st) && OnArray(st.top.state)
    ensures PhaseOk(st.top.state, st.top) && Step(cfg, st, c) == StepArray(cfg, st, c)
  {
  }

  lemma FinishStep(cfg: Config, st: State, c: char)
    requires Valid(st) && st.top.state.Finish?
    ensures Step(cfg, st, c) == StepFinish(st)
  {
  }

  /** A complete value is handed to the level below it. */
  lemma HandDown(cfg: Config, st: State, v: Value, w: string) returns (up: State)
    requires Valid(st) && st.top.state.Finish? && st.top.current == v && st.below != []
    ensures Valid(up) && Go(cfg, st, w) == Go(cfg, up, w)
    ensures up.below == st.below[..|st.below| - 1] && up.top == st.below[|st.below| - 1] && up.obj == v && up.stPos == st.stPos
  {
    hide Go, Step;
    FinishStep(cfg, st, First(w));
    up := StepFinish(st).st;
    Redoes(cfg, st, w, up);
  }

  /** The text starts behind the blanks. */
  predicate Trimmed(strict: bool, w: string) { w != "" ==> !IsSpace(w[0]) && (strict || w[0] != '/') }

  /** And appended to the array there. */
  lemma AfterItem(cfg: Config, st: State, items: seq<Value>, v: Value, w: string) returns (here: State)
    requires Valid(st) && st.top.state.Finish? && st.top.current == v && st.below != [] && Trimmed(cfg.strict, w)
    requires var p := st.below[|st.below| - 1]; p.state.ArrayAdd? && p.current == Array(items)
    ensures Valid(here) && Go(cfg, st, w) == Go(cfg, here, w)
    ensures here.below == st.below[..|st.below| - 1] && here.stPos == st.stPos
    ensures here.top.state.ArraySep? && here.top.saved.ArraySep? && here.top.current == Array(items + [v])
  {
    hide Go, Step, Valid, IsSpace;
    var up := HandDown(cfg, st, v, w);
    ArrayStep(cfg, up, First(w));
    var sep := StepArray(cfg, up, First(w)).st;
    Redoes(cfg, up, w, sep);
    Resumes(cfg, sep, w);
    here := Goto(sep, ArraySep);
  }

  lemma BlanksOnce(strict: bool, t: string)
    requires Trimmed(strict, t)
    ensures Blanks(strict, t) == To(t)
  {
  }

  /** The descent does not mind blanks before a value. */
  lemma ReadTrimmed(cfg: Config, depth: nat, pos: nat, t: string)
    ensures var b := Blanks(cfg.strict, t);
      ReadValue(cfg, depth, pos, t) == if b.To? then ReadValue(cfg, depth, pos, b.rest) else Bad(BlankError(b))
  {
    if Blanks(cfg.strict, t).To? {
      BlanksOnce(cfg.strict, Blanks(cfg.strict, t).rest);
    }
  }

  lemma ReadAsScalar(cfg: Config, depth: nat, pos: nat, u: string)
    requires Trimmed(cfg.strict, u) && (u == "" || (u[0] != '{' && u[0] != '['))
    ensures ReadValue(cfg, depth, pos, u) == ReadScalar(cfg, pos, u)
  {
    BlanksOnce(cfg.strict, u);
  }

  lemma {:induction false} SimValue(cfg: Config, st: State, t: string) returns (st': State)
    requires Waits(st) && NUL !in t
    ensures Follows(cfg, st, t, st', ReadValue(cfg, |st.below|, st.stPos, t))
    decreases |t|, 0
  {
    hide Go, Refused, Returns, Step, IsSpace, Follows, Blanks, ReadItems, ReadFields, ReadScalar;
    var start := SimBlanks(cfg, st, t);
    ReadTrimmed(cfg, |st.below|, st.stPos, t);
    st' := st;
    if !Blanks(cfg.strict, t).To? {
      NoValue(cfg, st, t, st');
      return;
    }
    var u := Blanks(cfg.strict, t).rest;
    BlanksOnce(cfg.strict, u);
    if u != "" && (u[0] == '[' || u[0] == '{') {
      StartStep(cfg, start, u[0]);
      var inside := StepStart(cfg, start, u[0]).st;
      assert u[0] in u;
      Consumes(cfg, start, u, inside);
      forall x <- u[1..] ensures x != NUL { assert x in u; }
      if u[0] == '[' {
        st' := SimItems(cfg, inside, u[1..], [], false);
      } else {
        st' := SimFields(cfg, inside, u[1..], [], false);
      }
      FollowsLater(cfg, st, t, inside, u[1..], st', ReadValue(cfg, |st.below|, st.stPos, t));
    } else {
      ReadAsScalar(cfg, |st.below|, st.stPos, u);
      st' := SimScalar(cfg, start, u);
      FollowsLater(cfg, st, t, start, u, st', ReadValue(cfg, |st.below|, st.stPos, t));
    }
  }

  lemma NoValue(cfg: Config, st: State, t: string, st': State)
    requires Valid(st) && !st.top.saved.Finish? && !Blanks(cfg.strict, t).To?
    requires exists st1 :: Skips(cfg, st, t, st1, Blanks(cfg.strict, t))
    ensures Follows(cfg, st, t, st', Bad(BlankError(Blanks(cfg.strict, t))))
  {
  }

  lemma {:induction false} SimItems(cfg: Config, st: State, t: string, items: seq<Value>, sep: bool) returns (st': State)
    requires InItems(st, items, sep) && NUL !in t
    ensures Follows(cfg, st, t, st', ReadItems(cfg, |st.below|, st.stPos, t, items, sep))
    decreases |t|, 2
  {
    hide Go, Refused, Returns, Step, IsSpace, Blanks, BehindItem;
    var here := SimBlanks(cfg, st, t);
    st' := st;
    if !Blanks(cfg.strict, t).To? {
      return;
    }
    var u := Blanks(cfg.strict, t).rest;
    ArrayStep(cfg, here, First(u));
    if u != "" && u[0] == ']' {
      if sep && cfg.strict {
        HaltRefuses(cfg, here, u);
      } else {
        st' := Skip(here, Finish);
        Consumes(cfg, here, u, st');
      }
    } else if |st.below| + 1 >= cfg.maxDepth {
      HaltRefuses(cfg, here, u);
    } else {
      var child := Push(here, ArrayAdd);
      Redoes(cfg, here, u, child);
      var c' := SimValue(cfg, child, u);
      var r := ReadValue(cfg, |st.below| + 1, st.stPos, u);
      if u == "" {
        BlanksOnce(cfg.strict, u);
      } else if r.Got? {
        st' := SimMoreItems(cfg, st, t, items, sep, c', r.v, r.rest);
      }
    }
  }

  /** Behind an item: the bracket, a comma and more, or a refusal. */
  lemma {:induction false} SimMoreItems(cfg: Config, st: State, t: string, items: seq<Value>, sep: bool, c': State, v: Value, rest: string)
      returns (st': State)
    requires InItems(st, items, sep) && NUL !in t && NUL !in rest && |rest| < |t|
    requires c'.below != [] && Settled(c', c', v, c'.stPos) && Go(cfg, st, t) == Go(cfg, c', rest)
    requires c'.below == st.below + [st.top.(state := ArrayAdd)]
    ensures Follows(cfg, st, t, st', BehindItem(cfg, |st.below|, c'.stPos, rest, items, v))
    decreases |t|, 1
  {
    hide Go, Refused, Returns, Step, IsSpace, Blanks, ReadItems;
    var fin := SimBlanks(cfg, c', rest);
    st' := st;
    if !Blanks(cfg.strict, rest).To? {
      return;
    }
    var w := Blanks(cfg.strict, rest).rest;
    var here := AfterItem(cfg, fin, items, v, w);
    ArrayStep(cfg, here, First(w));
    if w != "" && (w[0] == ']' || w[0] == ',') {
      var next := StepArray(cfg, here, w[0]).st;
      Consumes(cfg, here, w, next);
      forall x <- w[1..] ensures x != NUL { assert x in w; }
      if w[0] == ']' {
        st' := next;
      } else {
        st' := SimItems(cfg, next, w[1..], items + [v], true);
        FollowsLater(cfg, st, t, next, w[1..], st', ReadItems(cfg, |st.below|, c'.stPos, w[1..], items + [v], true));
      }
    } else {
      HaltRefuses(cfg, here, w);
    }
  }

  ghost predicate InFields(st: State, fields: seq<Field>, sep: bool) {
    && Valid(st) && st.top.state.Eatws? && st.top.current == Object(fields)
    && st.top.saved == if sep then FieldStartAfterSep else FieldStart
  }

  lemma ObjectStep(cfg: Config, st: State, c: char)
    requires Valid(st) && OnObject(st.top.state) && !st.top.state.FieldName?
    ensures PhaseOk(st.top.state, st.top) && Step(cfg, st, c) == StepObject(cfg, st, c)
  {
  }

  /** A complete value is added to the object below it under the pending name. */
  lemma AfterField(cfg: Config, st: State, fields: seq<Field>, name: string, v: Value, w: string) returns (here: State)
    requires Valid(st) && st.top.state.Finish? && st.top.current == v && st.below != [] && Trimmed(cfg.strict, w)
    requires var p := st.below[|st.below| - 1]; p.state.FieldValueAdd? && p.current == Object(fields) && p.fieldName == Some(name)
    ensures Valid(here) && Go(cfg, st, w) == Go(cfg, here, w)
    ensures here.below == st.below[..|st.below| - 1] && here.stPos == st.stPos
    ensures here.top.state.FieldSep? && here.top.saved.FieldSep? && here.top.current == Object(AddField(fields, name, v))
  {
    hide Go, Step, Valid, IsSpace, AddField;
    var up := HandDown(cfg, st, v, w);
    ObjectStep(cfg, up, First(w));
    var sep := StepObject(cfg, up, First(w)).st;
    Redoes(cfg, up, w, sep);
    Resumes(cfg, sep, w);
    here := Goto(sep, FieldSep);
  }

  lemma {:induction false} SimFields(cfg: Config, st: State, t: string, fields: seq<Field>, sep: bool) returns (st': State)
    requires InFields(st, fields, sep) && NUL !in t
    ensures Follows(cfg, st, t, st', ReadFields(cfg, |st.below|, st.stPos, t, fields, sep))
    decreases |t|, 3
  {
    hide Go, Refused, Returns, Step, IsSpace, ReadString, AddField, Blanks, BehindName;
    var here := SimBlanks(cfg, st, t);
    st' := st;
    if !Blanks(cfg.strict, t).To? {
      return;
    }
    var u := Blanks(cfg.strict, t).rest;
    ObjectStep(cfg, here, First(u));
    if u != "" && u[0] == '}' {
      if sep && cfg.strict {
        HaltRefuses(cfg, here, u);
      } else {
        st' := Skip(here, Finish);
        Consumes(cfg, here, u, st');
      }
    } else if u != "" && (u[0] == '"' || u[0] == '\'') {
      var body := Goto(here, FieldName).(pb := "", quote := u[0]);
      Consumes(cfg, here, u, body);
      forall x <- u[1..] ensures x != NUL { assert x in u; }
      var named := SimString(cfg, body, u[1..]);
      var r := ReadString(u[0], u[1..], "", st.stPos);
      if r.Closed? {
        st' := SimColon(cfg, st, t, fields, named, r.s, r.rest);
      }
    } else {
      HaltRefuses(cfg, here, u);
    }
  }

  lemma {:induction false} SimColon(cfg: Config, st: State, t: string, fields: seq<Field>, named: State, name: string, after: string)
      returns (st': State)
    requires Valid(st) && NUL !in t && NUL !in after && |after| < |t|
    requires Valid(named) && named.below == st.below && Go(cfg, st, t) == Go(cfg, named, after)
    requires named.top == Level(Eatws, FieldEnd, Object(fields), Some(CStr(name)))
    ensures Follows(cfg, st, t, st', BehindName(cfg, |st.below|, named.stPos, after, fields, name))
    decreases |t|, 2
  {
    hide Go, Refused, Returns, Step, IsSpace, AddField, CStr, Blanks, BehindField, ReadValue;
    var end := SimBlanks(cfg, named, after);
    st' := st;
    if !Blanks(cfg.strict, after).To? {
      return;
    }
    var x := Blanks(cfg.strict, after).rest;
    ObjectStep(cfg, end, First(x));
    if x == "" || x[0] != ':' {
      HaltRefuses(cfg, end, x);
    } else {
      var colon := Skip(end, FieldValue);
      Consumes(cfg, end, x, colon);
      forall c <- x[1..] ensures c != NUL { assert c in x; }
      st' := SimFieldValue(cfg, st, t, fields, colon, CStr(name), x[1..]);
    }
  }

  /** Behind the colon. */
  function BehindColon(cfg: Config, depth: nat, pos: nat, x: string, fields: seq<Field>, name: string): Result {
    if depth + 1 >= cfg.maxDepth then Bad(TooDeep(cfg, x))
    else
      match ReadValue(cfg, depth + 1, pos, x)
      case Bad(e) => Bad(e)
      case Cut(v) => Cut(v)
      case Unsaid => Unsaid
      case Got(v, rest, q) => BehindField(cfg, depth, q, rest, AddField(fields, name, v), v)
  }

  lemma {:induction false} SimFieldValue(cfg: Config, st: State, t: string, fields: seq<Field>, colon: State, name: string, x: string)
      returns (st': State)
    requires Valid(st) && NUL !in t && NUL !in x && |x| < |t|
    requires Valid(colon) && colon.below == st.below && Go(cfg, st, t) == Go(cfg, colon, x)
    requires colon.top == Level(Eatws, FieldValue, Object(fields), Some(name))
    ensures Follows(cfg, st, t, st', BehindColon(cfg, |st.below|, colon.stPos, x, fields, name))
    decreases |t|, 1
  {
    hide Go, Refused, Returns, Step, IsSpace, AddField, Blanks, BehindField, ReadValue;
    var val := SimBlanks(cfg, colon, x);
    ReadTrimmed(cfg, |st.below| + 1, colon.stPos, x);
    st' := st;
    if !Blanks(cfg.strict, x).To? {
      return;
    }
    var y := Blanks(cfg.strict, x).rest;
    ObjectStep(cfg, val, First(y));
    if |st.below| + 1 >= cfg.maxDepth {
      HaltRefuses(cfg, val, y);
    } else {
      var child := Push(val, FieldValueAdd);
      Redoes(cfg, val, y, child);
      var c' := SimValue(cfg, child, y);
      var r := ReadValue(cfg, |st.below| + 1, colon.stPos, y);
      if r.Got? {
        st' := SimMoreFields(cfg, st, t, fields, name, c', r.v, r.rest);
      }
    }
  }

  /** Behind a field: the bracket, a comma and more, or a refusal. */
  lemma {:induction false} SimMoreFields(cfg: Config, st: State, t: string, fields: seq<Field>, name: string, c': State, v: Value, rest: string)
      returns (st': State)
    requires Valid(st) && NUL !in t && NUL !in rest && |rest| < |t|
    requires c'.below != [] && Settled(c', c', v, c'.stPos) && Go(cfg, st, t) == Go(cfg, c', rest)
    requires c'.below == st.below + [Level(FieldValueAdd, FieldValue, Object(fields), Some(name))]
    ensures Follows(cfg, st, t, st', BehindField(cfg, |st.below|, c'.stPos, rest, AddField(fields, name, v), v))
    decreases |t|, 0
  {
    hide Go, Refused, Returns, Step, IsSpace, ReadFields, AddField, Blanks;
    var fin := SimBlanks(cfg, c', rest);
    st' := st;
    if !Blanks(cfg.strict, rest).To? {
      return;
    }
    var w := Blanks(cfg.strict, rest).rest;
    var here := AfterField(cfg, fin, fields, name, v, w);
    var fields' := AddField(fields, name, v);
    ObjectStep(cfg, here, First(w));
    if w != "" && (w[0] == '}' || w[0] == ',') {
      var next := StepObject(cfg, here, w[0]).st;
      Consumes(cfg, here, w, next);
      forall x <- w[1..] ensures x != NUL { assert x in w; }
      if w[0] == '}' {
        st' := next;
      } else {
        st' := SimFields(cfg, next, w[1..], fields', true);
        FollowsLater(cfg, st, t, next, w[1..], st', ReadFields(cfg, |st.below|, c'.stPos, w[1..], fields', true));
      }
    } else {
      HaltRefuses(cfg, here, w);
    }
  }

  // ----- whole texts -----

  /**
   The tokener accepts exactly the texts that the descent reads, strict or lenient, and returns
   the value that it reads or the error that it gives, for every text without a NUL in which no escape for a high
   surrogate comes to be read.
   */
  lemma TokenerLanguage(cfg: Config, t: string)
    requires NUL !in t && !ReadText(cfg, t).Unsaid?
    ensures var o := ParseCall(cfg, INITIAL, t + [NUL]);
      var r := ReadText(cfg, t);
      if r.Bad? then o.err == r.err && !r.err.Success? && o.value == Null else o.err.Success? && o.value == r.v
  {
    hide FeedAll, Step, ReadValue, Leave, Blanks;
    assert Valid(INITIAL) && Enter(INITIAL) == INITIAL;
    var st' := SimValue(cfg, INITIAL, t);
    match ReadValue(cfg, 0, 0, t)
    case Unsaid =>
    case Cut(v) => ReturnedCall(cfg, t, v);
    case Bad(e) => RefusedCall(cfg, t, e);
    case Got(v, rest, pos) =>
      var fin := SimBlanks(cfg, st', rest);
      match Blanks(cfg.strict, rest) {
        case Stray(_) => RefusedCall(cfg, t, ErrComment);
        case Unclosed => ReturnedCall(cfg, t, v);
        case To(w) =>
          FinishStep(cfg, fin, First(w));
          Halts(cfg, fin, w);
          FinishedCall(cfg, fin, v, w);
      }
  }

  lemma RefusedCall(cfg: Config, t: string, err: Error)
    requires Valid(INITIAL) && Refused(cfg, Go(cfg, INITIAL, t), err)
    ensures var o := ParseCall(cfg, INITIAL, t + [NUL]); o.err == err && !err.Success? && o.value == Null
  {
  }

  lemma ReturnedCall(cfg: Config, t: string, v: Value)
    requires Valid(INITIAL) && Returns(cfg, Go(cfg, INITIAL, t), v)
    ensures var o := ParseCall(cfg, INITIAL, t + [NUL]); o.err.Success? && o.value == v
  {
  }

  lemma FinishedCall(cfg: Config, fin: State, v: Value, w: string)
    requires fin.below == [] && fin.top.state.Finish? && fin.top.current == v && NUL !in w
    ensures var o := Leave(cfg, fin, Success, First(w));
      if w == "" || !cfg.strict then o.err.Success? && o.value == v else o.err.ErrUnexpected? && o.value == Null
  {
    if w != "" {
      assert w[0] in w;
    }
  }

  // ----- where that is not the language of RFC 8259 -----

  /** Strict mode takes words that are no JSON, raw control characters in strings, and names in single quotes. */
  lemma StrictIsNotRfc(cfg: Config)
    requires cfg.strict
    ensures ParseCall(cfg, INITIAL, "NaN" + [NUL]).value == Double("NaN")
    ensures ParseCall(cfg, INITIAL, "\"\n\"" + [NUL]).value == Str("\n")
    ensures cfg.maxDepth >= 2 ==> ParseCall(cfg, INITIAL, "{'':1}" + [NUL]).value == Object([Field("", Int(1))])
  {
    hide ParseCall;
    assert ReadText(cfg, "NaN") == Got(Double("NaN"), "", 3);
    TokenerLanguage(cfg, "NaN");
    RawControl(cfg);
    TokenerLanguage(cfg, "\"\n\"");
    if cfg.maxDepth >= 2 {
      SingleQuotes(cfg);
      TokenerLanguage(cfg, "{'':1}");
    }
  }

  lemma RawControl(cfg: Config)
    ensures ReadText(cfg, "\"\n\"") == Got(Str("\n"), "", 0)
  {
    assert "\"\n\""[1..] == "\n\"" && "\n\""[1..] == "\"" && "\""[1..] == "";
    assert ReadString('"', "\"", "" + ['\n'], 0) == Closed("\n", "", 0);
    assert ReadString('"', "\n\"", "", 0) == Closed("\n", "", 0);
  }

  lemma SingleQuotes(cfg: Config)
    requires cfg.strict && cfg.maxDepth >= 2
    ensures ReadText(cfg, "{'':1}") == Got(Object([Field("", Int(1))]), "", 0)
  {
    hide ReadNumber, ReadWord, ReadItems, ReadString, Blanks, BehindName, StartsWord, IsDigit, IsSpace;
    assert "{'':1}"[1..] == "'':1}" && "'':1}"[1..] == "':1}";
    NoBlanks();
    EmptyName();
    AfterEmptyName(cfg);
  }

  lemma AfterEmptyName(cfg: Config)
    requires cfg.strict && cfg.maxDepth >= 2
    ensures BehindName(cfg, 0, 0, ":1}", [], "") == Got(Object([Field("", Int(1))]), "", 0)
  {
    hide ReadValue, ReadFields;
    assert ":1}"[1..] == "1}" == "1" + "}" && "}"[1..] == "";
    OneThen(cfg, "}");
  }

  lemma NoBlanks()
    ensures Blanks(true, "{'':1}") == To("{'':1}") && Blanks(true, "'':1}") == To("'':1}") && Blanks(true, "") == To("")
  {
  }

  lemma EmptyName()
    ensures ReadString('\'', "':1}", "", 0) == Closed("", ":1}", 0)
  {
    assert "':1}"[1..] == ":1}";
  }

  /** The number one before something else. */
  lemma OneThen(cfg: Config, rest: string)
    requires rest != "" && !IsNumberChar(rest[0])
    ensures forall depth, pos :: ReadValue(cfg, depth, pos, "1" + rest) == Got(Int(1), rest, pos)
  {
    var t := "1" + rest;
    assert t[0] == '1' && t[1..] == rest;
    assert NumberRun(rest) == 0 && NumberRun(t) == 1;
    assert t[..1] == "1";
    assert ParseInt64("1") == Some(1) by {
      assert "1"[1..] == "" && LeadingDigits("1") == "1" && "1"[..0] == "";
    }
  }

  /** A comment that is open at the end makes the call return a value from inside the array. */
  lemma OpenCommentReturns(cfg: Config)
    requires !cfg.strict && cfg.maxDepth >= 2
    ensures var o := ParseCall(cfg, INITIAL, "[1/*" + [NUL]); o.err.Success? && o.value == Int(1)
  {
    hide ParseCall;
    OneThen(cfg, "/*");
    assert "[1/*"[1..] == "1/*" == "1" + "/*" && "/*"[2..] == "";
    assert Blanks(false, "/*") == Unclosed;
    assert ReadItems(cfg, 0, 0, "1/*", [], false) == Cut(Int(1));
    assert ReadText(cfg, "[1/*") == Cut(Int(1));
    TokenerLanguage(cfg, "[1/*");
  }
}

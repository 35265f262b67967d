/**
 Feeding a text to the tokener in pieces.

 The only thing a call forgets is its local variables.  `SplitIndependence` says
 exactly when that shows, for texts without an escape for a high surrogate: a split is
 harmful only inside a number that starts with a minus sign and is followed by the letter
 i, where the code counts the characters of the number within the current call only.
 Decoding a surrogate pair needs a further local variable, which the model does not have,
 so nothing is said about runs that come to one (`Decoded`).
 */
module JsonChunks {
  import opened Options
  import opened JsonValue
  import opened JsonTokener
  import opened JsonRoundTrip
  import JsonContainers

  // ----- states between two characters -----

  predicate Adding(p: Phase) { p.ArrayAdd? || p.FieldValueAdd? }

  predicate NumberText(s: string) { forall c <- s :: IsNumberChar(c) }

  predicate NumberOk(st: State) { st.top.state.Number? ==> NumberText(st.pb) }

  /** What holds whenever the tokener has consumed a character. */
  predicate AtRest(st: State) {
    && Valid(st) && NumberOk(st) && (st.top.state.Number? ==> st.pb != "")
    && !Adding(st.top.state) && !st.top.state.Finish?
  }

  lemma NumberRests(cfg: Config, st: State, c: char)
    requires Valid(st) && NumberOk(st) && st.top.state.Number?
    ensures var m := StepNumber(cfg, st, c);
      && (m.Redo? ==> NumberOk(m.st))
      && (m.Consume? ==> NumberOk(m.st) && m.st.pb != "" && m.st.top == st.top)
  {
    hide ParseInt64;
  }

  /** A pass that neither enters a number nor rests in a parent phase. */
  predicate Calm(m: Move) {
    && (m.Redo? ==> !m.st.top.state.Number?)
    && (m.Consume? ==> !m.st.top.state.Number? && !Adding(m.st.top.state) && !m.st.top.state.Finish?)
  }

  lemma ContainerRests(cfg: Config, st: State, c: char)
    requires Valid(st) && (OnArray(st.top.state) || OnObject(st.top.state) || st.top.state.Finish?)
    ensures Calm(Step(cfg, st, c))
  {
    hide AddField, CStr;
    if st.top.state.Finish? && st.below != [] {
      assert ParentOk(st.below[|st.below| - 1]);
    }
  }

  lemma TokenRests(cfg: Config, st: State, c: char)
    requires Valid(st) && !OnArray(st.top.state) && !OnObject(st.top.state)
    requires !st.top.state.Finish? && !st.top.state.Number? && !st.top.state.Start?
    ensures Calm(Step(cfg, st, c))
  {
    hide WordMatches, Utf8, IsHexChar, HexDigit, IsSpace, Infinite, Unescaped, Shift;
  }

  /** All phases other than Number and Start. */
  lemma OtherRests(cfg: Config, st: State, c: char)
    requires Valid(st) && !st.top.state.Number? && !st.top.state.Start?
    ensures Calm(Step(cfg, st, c))
  {
    hide Step;
    if OnArray(st.top.state) || OnObject(st.top.state) || st.top.state.Finish? {
      ContainerRests(cfg, st, c);
    } else {
      TokenRests(cfg, st, c);
    }
  }

  lemma StartRests(cfg: Config, st: State, c: char)
    requires Valid(st) && st.top.state.Start?
    ensures var m := StepStart(cfg, st, c);
      && (m.Redo? ==> NumberOk(m.st))
      && (m.Consume? ==> Calm(m))
  {
  }

  lemma StepRests(cfg: Config, st: State, c: char)
    requires Valid(st) && NumberOk(st)
    ensures var m := Step(cfg, st, c);
      && (m.Redo? ==> NumberOk(m.st))
      && (m.Consume? ==> AtRest(m.st))
  {
    StepKeepsValid(cfg, st, c);
    if st.top.state.Number? {
      hide StepNumber, NumberText;
      NumberRests(cfg, st, c);
    } else if st.top.state.Start? {
      hide StepStart, NumberText;
      StartRests(cfg, st, c);
    } else {
      hide Step, NumberText;
      OtherRests(cfg, st, c);
    }
  }

  lemma {:induction false} FeedRests(cfg: Config, st: State, c: char)
    requires Valid(st) && NumberOk(st)
    ensures Feed(cfg, st, c).Going? ==> AtRest(Feed(cfg, st, c).st)
    decreases Rank(st.top)
  {
    hide Step;
    StepKeepsValid(cfg, st, c);
    StepRests(cfg, st, c);
    if Step(cfg, st, c).Redo? {
      FeedRests(cfg, Step(cfg, st, c).st, c);
    }
  }

  lemma {:induction false} FeedAllRests(cfg: Config, st: State, text: string)
    requires AtRest(st)
    ensures FeedAll(cfg, st, text).Going? ==> AtRest(FeedAll(cfg, st, text).st)
    ensures FeedAll(cfg, st, text).Going? ==> NUL !in text
    decreases |text|
  {
    hide Step;
    if text != "" {
      FeedRests(cfg, st, text[0]);
      FeedNul(cfg, st, text[0]);
      if Feed(cfg, st, text[0]).Going? {
        FeedAllRests(cfg, Feed(cfg, st, text[0]).st, text[1..]);
      }
      assert text == [text[0]] + text[1..];
    }
  }

  lemma {:induction false} FeedNul(cfg: Config, st: State, c: char)
    requires Valid(st)
    ensures c == NUL ==> Feed(cfg, st, c).Halted?
    decreases Rank(st.top)
  {
    hide Step;
    StepKeepsValid(cfg, st, c);
    if Step(cfg, st, c).Redo? {
      FeedNul(cfg, Step(cfg, st, c).st, c);
    }
  }

  // ----- states that differ in the locals of a call only -----

  /** The test that sends a number to the phase that reads Infinity. */
  predicate InfTest(st: State, c: char) {
    st.pb != "" && st.pb[0] == '-' && st.caseLen == 1 && (c == 'i' || c == 'I')
  }

  ghost predicate Twins(a: State, b: State, c: char) {
    && Enter(a) == Enter(b)
    && (Adding(a.top.state) ==> a.obj == b.obj)
    && (a.top.state.Number? ==> InfTest(a, c) == InfTest(b, c))
  }

  /** Two runs with the same visible result. */
  ghost predicate Alike(a: Run, b: Run) {
    match (a, b)
    case (Going(s), Going(t)) => Enter(s) == Enter(t)
    case (Halted(s, e, c), Halted(t, f, d)) => Enter(s) == Enter(t) && e == f && c == d
    case _ => false
  }

  ghost predicate AlikeMoves(a: Move, b: Move, c: char) {
    match (a, b)
    case (Consume(s), Consume(t)) => Enter(s) == Enter(t)
    case (Redo(s), Redo(t)) => Twins(s, t, c)
    case (Halt(s, e), Halt(t, f)) => Enter(s) == Enter(t) && e == f
    case _ => false
  }

  lemma StartTwins(cfg: Config, a: State, b: State, c: char)
    requires Valid(a) && Valid(b) && Twins(a, b, c) && (a.top.state.Eatws? || a.top.state.Start?)
    ensures AlikeMoves(Step(cfg, a, c), Step(cfg, b, c), c)
  {
    hide IsSpace, IsDigit;
  }

  lemma LiteralTwins(cfg: Config, a: State, b: State, c: char)
    requires Valid(a) && Valid(b) && Twins(a, b, c) && (a.top.state.Inf? || a.top.state.NullLit? || a.top.state.BooleanLit?)
    ensures AlikeMoves(Step(cfg, a, c), Step(cfg, b, c), c)
  {
    hide WordMatches, Infinite;
  }

  lemma NumberTwins(cfg: Config, a: State, b: State, c: char)
    requires Valid(a) && Valid(b) && Twins(a, b, c) && (a.top.state.Number? || a.top.state.Finish?)
    ensures AlikeMoves(Step(cfg, a, c), Step(cfg, b, c), c)
  {
    hide ParseInt64, IsNumberChar;
    if a.top.state.Finish? && a.below != [] {
      assert ParentOk(a.below[|a.below| - 1]);
    }
  }

  lemma TextTwins(cfg: Config, a: State, b: State, c: char)
    requires Valid(a) && Valid(b) && Twins(a, b, c) && (InComment(a.top.state) || a.top.state.StringBody? || a.top.state.FieldName?)
    ensures AlikeMoves(Step(cfg, a, c), Step(cfg, b, c), c)
  {
    hide CStr;
  }

  lemma EscapeTwins(cfg: Config, a: State, b: State, c: char)
    requires Valid(a) && Valid(b) && Twins(a, b, c) && (InEscape(a.top.state))
    ensures AlikeMoves(Step(cfg, a, c), Step(cfg, b, c), c)
  {
    hide Utf8, IsHexChar, HexDigit, Shift, Unescaped;
  }

  lemma ArrayTwins(cfg: Config, a: State, b: State, c: char)
    requires Valid(a) && Valid(b) && Twins(a, b, c) && (OnArray(a.top.state))
    ensures AlikeMoves(Step(cfg, a, c), Step(cfg, b, c), c)
  {
  }

  lemma ObjectTwins(cfg: Config, a: State, b: State, c: char)
    requires Valid(a) && Valid(b) && Twins(a, b, c) && (OnObject(a.top.state) && !a.top.state.FieldName?)
    ensures AlikeMoves(Step(cfg, a, c), Step(cfg, b, c), c)
  {
    hide AddField;
  }

  lemma StepTwins(cfg: Config, a: State, b: State, c: char)
    requires Valid(a) && Valid(b) && Twins(a, b, c)
    ensures AlikeMoves(Step(cfg, a, c), Step(cfg, b, c), c)
  {
    hide Step;
    match a.top.state
    case Eatws | Start => StartTwins(cfg, a, b, c);
    case Inf | NullLit | BooleanLit => LiteralTwins(cfg, a, b, c);
    case Number | Finish => NumberTwins(cfg, a, b, c);
    case CommentStart | Comment | CommentEol | CommentEnd | StringBody | FieldName => TextTwins(cfg, a, b, c);
    case StringEscape | EscapeUnicode => EscapeTwins(cfg, a, b, c);
    case ArrayStart | ArrayAfterSep | ArrayAdd | ArraySep => ArrayTwins(cfg, a, b, c);
    case _ => ObjectTwins(cfg, a, b, c);
  }

  lemma {:induction false} FeedTwins(cfg: Config, a: State, b: State, c: char)
    requires Valid(a) && Valid(b) && Twins(a, b, c)
    ensures Alike(Feed(cfg, a, c), Feed(cfg, b, c))
    decreases Rank(a.top)
  {
    hide Step;
    StepTwins(cfg, a, b, c);
    StepKeepsValid(cfg, a, c);
    StepKeepsValid(cfg, b, c);
    if Step(cfg, a, c).Redo? {
      FeedTwins(cfg, Step(cfg, a, c).st, Step(cfg, b, c).st, c);
    }
  }

  // ----- where a split shows -----

  /** How many characters at the front of `s` can continue a number. */
  function NumberRun(s: string): (k: nat)
    ensures k <= |s| && NumberText(s[..k]) && (k < |s| ==> !IsNumberChar(s[k]))
  {
    if s == "" || !IsNumberChar(s[0]) then 0
    else
      var k := NumberRun(s[1..]);
      assert s[..k + 1] == [s[0]] + s[1..][..k];
      1 + k
  }

  /** The two states disagree on whether the number ahead turns into Infinity. */
  predicate Differ(s: State, t: State, b: string) {
    && s.top.state.Number? && s.pb != "" && s.pb[0] == '-'
    && var k := NumberRun(b);
       k < |b| && (b[k] == 'i' || b[k] == 'I') && (s.caseLen + k == 1) != (t.caseLen + k == 1)
  }

  /** Splitting the input in state `s` before `b` changes how the number ahead is read. */
  predicate BadSplit(s: State, b: string) { Differ(s, Enter(s), b) }

  /** A number character read in a number, as a function of the state. */
  function MoreNumber(st: State, c: char): State {
    st.(pb := st.pb + [c], caseLen := st.caseLen + 1,
        isDouble := st.isDouble || c == '.' || c == 'e' || c == 'E')
  }

  /** A state at rest in a number either was in it before, or has read one character of it. */
  lemma {:induction false} EnterNumber(cfg: Config, st: State, c: char)
    requires Valid(st)
    ensures var r := Feed(cfg, st, c);
      && (st.top.state.Number? && IsNumberChar(c) ==> r == Going(MoreNumber(st, c)))
      && (r.Going? && r.st.top.state.Number? && !(st.top.state.Number? && IsNumberChar(c)) ==> r.st.caseLen == 1)
    decreases Rank(st.top)
  {
    hide Step, IsNumberChar, FeedAll;
    StepKeepsValid(cfg, st, c);
    NulIsNoNumber(c);
    var m := Step(cfg, st, c);
    if st.top.state.Start? {
      EnterFromStart(cfg, st, c);
    } else if st.top.state.Number? {
      NumberMoves(cfg, st, c);
    } else {
      OtherRests(cfg, st, c);
    }
    if m.Redo? {
      EnterNumber(cfg, m.st, c);
      if st.top.state.Start? && m.st.top.state.Number? {
        assert Feed(cfg, m.st, c) == Going(MoreNumber(m.st, c));
      }
    }
  }

  lemma NulIsNoNumber(c: char)
    ensures c == NUL ==> !IsNumberChar(c)
  {
  }

  lemma EnterFromStart(cfg: Config, st: State, c: char)
    requires Valid(st) && st.top.state.Start?
    ensures var m := Step(cfg, st, c);
      && (m.Consume? ==> !m.st.top.state.Number?)
      && (m.Redo? && m.st.top.state.Number? ==> m.st.caseLen == 0 && IsNumberChar(c))
  {
  }

  lemma NumberMoves(cfg: Config, st: State, c: char)
    requires Valid(st) && st.top.state.Number?
    ensures var m := Step(cfg, st, c);
      && (IsNumberChar(c) ==> m == Consume(MoreNumber(st, c)))
      && (!IsNumberChar(c) ==> !m.Consume? && (m.Redo? ==> !m.st.top.state.Number?))
  {
    hide ParseInt64;
  }

  /** The run does not come to an escape for a high surrogate. */
  predicate Decoded(r: Run) { r.Halted? ==> !r.err.Surrogate? }

  /** Decoded runs from states that differ in the locals only stay alike unless the states differ as above. */
  lemma {:induction false} HarmlessSplit(cfg: Config, s: State, t: State, b: string)
    requires AtRest(s) && Valid(t) && Enter(s) == Enter(t) && !Differ(s, t, b)
    requires Decoded(FeedAll(cfg, s, b))
    ensures Alike(FeedAll(cfg, s, b), FeedAll(cfg, t, b))
    decreases |b|
  {
    hide Feed, Step, IsNumberChar;
    if b != "" {
      var c := b[0];
      assert s.top.state.Number? ==> InfTest(s, c) == InfTest(t, c) by { LettersEndNumbers(c); }
      FeedTwins(cfg, s, t, c);
      var r, q := Feed(cfg, s, c), Feed(cfg, t, c);
      if r.Going? {
        FeedRests(cfg, s, c);
        EnterNumber(cfg, s, c);
        EnterNumber(cfg, t, c);
        if s.top.state.Number? && IsNumberChar(c) {
          assert NumberRun(b) == 1 + NumberRun(b[1..]);
        }
        HarmlessSplit(cfg, r.st, q.st, b[1..]);
      }
    }
  }

  lemma LettersEndNumbers(c: char)
    ensures c == 'i' || c == 'I' ==> !IsNumberChar(c)
  {
  }

  /** Reading number characters inside a number. */
  lemma {:induction false} ReadNumber(cfg: Config, st: State, b: string) returns (st': State)
    requires AtRest(st) && st.top.state.Number? && NumberText(b)
    ensures FeedAll(cfg, st, b) == Going(st') && AtRest(st')
    ensures st'.top == st.top && st'.below == st.below && st'.stPos == st.stPos
    ensures st'.pb == st.pb + b && st'.caseLen == st.caseLen + |b|
    decreases |b|
  {
    hide Feed, Step, IsNumberChar;
    if b == "" {
      st' := st;
    } else {
      assert b[0] in b;
      EnterNumber(cfg, st, b[0]);
      FeedRests(cfg, st, b[0]);
      forall c <- b[1..] ensures IsNumberChar(c) { assert c in b; }
      st' := ReadNumber(cfg, MoreNumber(st, b[0]), b[1..]);
      assert [b[0]] + b[1..] == b;
    }
  }

  lemma InfStep(cfg: Config, st: State, c: char)
    requires Valid(st) && st.top.state.Inf? && NumberText(st.pb) && st.pb != "" && st.pb[0] == '-'
    requires c == 'i' || c == 'I'
    ensures var m := Step(cfg, st, c);
      (m.Consume? && m.st.top.state.Inf?) || (m.Halt? && m.err.ErrUnexpected?)
  {
    hide Infinite;
    var buf := (st.pb + [c])[1..];
    var n := Min(st.stPos + 1, 8);
    if |st.pb| >= 2 {
      assert buf[0] == st.pb[1] && st.pb[1] in st.pb;
      assert !WordMatches(cfg.strict, "Infinity", buf, n);
    } else if n >= 2 {
      var word := "Infinity";
      assert |buf| == 1 && word[1] == 'n';
      assert !WordMatches(cfg.strict, "Infinity", buf, n);
    }
  }

  /** The phase that reads Infinity takes the letter or stops with its own error. */
  lemma InfBranch(cfg: Config, st: State, c: char)
    requires AtRest(st) && st.top.state.Number? && InfTest(st, c)
    ensures var r := Feed(cfg, st, c);
      (r.Going? && r.st.top.state.Inf?) || (r.Halted? && r.err.ErrUnexpected?)
  {
    var inf := Goto(st, Inf);
    assert Step(cfg, st, c) == Redo(inf) by { hide ParseInt64; }
    FeedRedo(cfg, st, c, inf);
    InfStep(cfg, inf, c);
    hide Step;
  }

  /** A number that ends at a letter is rejected there, or its surroundings are. */
  lemma EndBranch(cfg: Config, st: State, c: char)
    requires AtRest(st) && st.top.state.Number? && !InfTest(st, c) && (c == 'i' || c == 'I')
    ensures var r := Feed(cfg, st, c); r.Halted? && !r.err.ErrUnexpected?
  {
    var m := Step(cfg, st, c);
    assert (m.Halt? && !m.err.ErrUnexpected?) || (m.Redo? && m.st.top.state.Eatws? && m.st.top.saved.Finish?) by {
      hide ParseInt64;
    }
    hide Step;
    if m.Redo? {
      FeedRedo(cfg, st, c, m.st);
      EndOfValue(cfg, m.st, c);
    } else {
      FeedHalt(cfg, st, c);
    }
  }

  lemma EndOfValue(cfg: Config, st: State, c: char)
    requires Valid(st) && st.top.state.Eatws? && st.top.saved.Finish? && (c == 'i' || c == 'I')
    ensures var r := Feed(cfg, st, c); r.Halted? && !r.err.ErrUnexpected?
  {
    hide Feed, AddField;
    if st.below == [] {
      JsonContainers.Resume(cfg, st, c);
      FeedHalt(cfg, Goto(st, Finish), c);
    } else {
      var p := st.below[|st.below| - 1];
      assert ParentOk(p);
      var up := JsonContainers.PopChild(cfg, st, st.top.current, c);
      var sep := Step(cfg, up, c).st;
      FeedRedo(cfg, up, c, sep);
      JsonContainers.Resume(cfg, sep, c);
      FeedHalt(cfg, Goto(sep, sep.top.saved), c);
    }
  }

  lemma HarmfulSplit(cfg: Config, s: State, b: string) returns (j: nat)
    requires AtRest(s) && BadSplit(s, b)
    ensures j <= |b| && !Alike(FeedAll(cfg, s, b[..j]), FeedAll(cfg, Enter(s), b[..j]))
  {
    hide Feed, Step, FeedAll, IsNumberChar;
    var k := NumberRun(b);
    var c := b[k];
    var s1 := ReadNumber(cfg, s, b[..k]);
    var t1 := ReadNumber(cfg, Enter(s), b[..k]);
    j := k + 1;
    assert b[..j] == b[..k] + [c];
    FeedAllConcat(cfg, s, b[..k], [c]);
    FeedAllConcat(cfg, Enter(s), b[..k], [c]);
    FeedAllOne(cfg, s1, c);
    FeedAllOne(cfg, t1, c);
    assert s1.pb[0] == '-' && t1.pb[0] == '-';
    if InfTest(s1, c) {
      InfBranch(cfg, s1, c);
      EndBranch(cfg, t1, c);
    } else {
      EndBranch(cfg, s1, c);
      InfBranch(cfg, t1, c);
    }
  }

  lemma FeedAllOne(cfg: Config, st: State, c: char)
    requires Valid(st)
    ensures FeedAll(cfg, st, [c]) == Feed(cfg, st, c)
  {
    hide Feed;
    assert [c][1..] == "";
    if Feed(cfg, st, c).Going? {
      assert FeedAll(cfg, Feed(cfg, st, c).st, "") == Feed(cfg, st, c);
    }
  }

  lemma {:induction false} NumberRunPrefix(b: string, j: nat)
    requires j <= |b|
    ensures NumberRun(b[..j]) == Min(NumberRun(b), j)
  {
    hide IsNumberChar;
    if j > 0 && IsNumberChar(b[0]) {
      assert b[..j][1..] == b[1..][..j - 1];
      NumberRunPrefix(b[1..], j - 1);
    }
  }

  /**
   Resuming in a later call gives, after every further character, the same tokener as
   going on in the same call, exactly when the split is not a bad one, for a text that has
   no escape for a high surrogate.
   */
  lemma SplitIndependence(cfg: Config, s: State, b: string)
    requires AtRest(s) && Decoded(FeedAll(cfg, s, b))
    ensures (forall j :: 0 <= j <= |b| ==> Alike(FeedAll(cfg, s, b[..j]), FeedAll(cfg, Enter(s), b[..j])))
            <==> !BadSplit(s, b)
  {
    hide FeedAll;
    if BadSplit(s, b) {
      var j := HarmfulSplit(cfg, s, b);
    } else {
      forall j | 0 <= j <= |b| ensures Alike(FeedAll(cfg, s, b[..j]), FeedAll(cfg, Enter(s), b[..j])) {
        NumberRunPrefix(b, j);
        assert b[..j] + b[j..] == b;
        FeedAllConcat(cfg, s, b[..j], b[j..]);
        HarmlessSplit(cfg, s, Enter(s), b[..j]);
      }
    }
  }

  // ----- a concrete bad split -----

  /** The pause behind the minus sign. */
  lemma PauseBehindSign(cfg: Config)
    ensures FeedAll(cfg, INITIAL, "-").Going? && AtRest(FeedAll(cfg, INITIAL, "-").st)
    ensures var s := FeedAll(cfg, INITIAL, "-").st;
      s.top == Level(Number, Start, Null, None) && s.below == [] && s.pb == "-" && s.caseLen == 1 && s.stPos == 0 && !s.isDouble
  {
    hide Feed, FeedAll, Step;
    assert Valid(INITIAL);
    hide Valid;
    var twin := EnterToken(cfg, INITIAL, '-');
    assert LiteralPhase('-').None?;
    EnterNumber(cfg, twin, '-');
    FeedAllOne(cfg, INITIAL, '-');
    FeedAllRests(cfg, INITIAL, "-");
  }

  const INFINITY: string := "Infinity"

  /** The phase that reads Infinity, with `k` letters read behind the sign. */
  predicate InInfinity(st: State, k: nat) {
    && Valid(st) && st.below == [] && st.top.state.Inf? && k <= |INFINITY|
    && st.stPos == k && st.pb == "-" + INFINITY[..k]
  }

  lemma InfinityStep(cfg: Config, st: State, k: nat)
    requires InInfinity(st, k) && k < |INFINITY|
    ensures Step(cfg, st, INFINITY[k]).Consume? && InInfinity(Step(cfg, st, INFINITY[k]).st, k + 1)
  {
    hide Step, Valid, WordMatches, Infinite;
    var c, pb := INFINITY[k], st.pb + [INFINITY[k]];
    assert pb == "-" + INFINITY[..k + 1];
    assert pb[1..] == INFINITY[..k + 1];
    OwnPrefixMatches(cfg.strict, INFINITY, k + 1);
    InfinityIsInf(cfg, st, c);
    assert Min(k + 1, 8) == k + 1;
    StepKeepsValid(cfg, st, c);
  }

  lemma InfinityIsInf(cfg: Config, st: State, c: char)
    requires Valid(st) && st.top.state.Inf?
    ensures Step(cfg, st, c) == StepInf(cfg, st, c)
  {
  }

  lemma {:induction false} ReadInfinity(cfg: Config, st: State, k: nat)
    requires InInfinity(st, k)
    ensures var r := FeedAll(cfg, st, INFINITY[k..] + [NUL]);
      r.Halted? && r.err.Success? && r.at == NUL && r.st.top.state.Finish? && r.st.top.current == Double("-Infinity")
    decreases |INFINITY| - k
  {
    hide FeedAll, Step, Valid;
    var text := INFINITY[k..] + [NUL];
    if k < |INFINITY| {
      InfinityStep(cfg, st, k);
      var st' := Step(cfg, st, INFINITY[k]).st;
      ReadInfinity(cfg, st', k + 1);
      assert text == [INFINITY[k]] + (INFINITY[k + 1..] + [NUL]);
      FeedAllConcat(cfg, st, [INFINITY[k]], INFINITY[k + 1..] + [NUL]);
      FeedAllOne(cfg, st, INFINITY[k]);
      assert INFINITY[k] != NUL;
    } else {
      assert text == [NUL];
      FeedAllOne(cfg, st, NUL);
      InfinityEnds(cfg, st);
    }
  }

  lemma InfinityEnds(cfg: Config, st: State)
    requires InInfinity(st, |INFINITY|)
    ensures var r := Feed(cfg, st, NUL);
      r.Halted? && r.err.Success? && r.at == NUL && r.st.top.state.Finish? && r.st.top.current == Double("-Infinity")
  {
    hide Feed;
    var pb := st.pb + [NUL];
    assert pb[1..] == INFINITY + [NUL] && INFINITY[..|INFINITY|] == INFINITY;
    OwnPrefixMatches(cfg.strict, INFINITY, |INFINITY|);
    assert WordMatches(cfg.strict, INFINITY, INFINITY + [NUL], 8);
    var done := Complete(st.(pb := pb), Double("-Infinity"));
    assert Step(cfg, st, NUL) == Redo(done);
    FeedRedo(cfg, st, NUL, done);
    JsonContainers.Resume(cfg, done, NUL);
    FeedHalt(cfg, Goto(done, Finish), NUL);
  }

  /** A lone sign is no number. */
  lemma SignAlone(cfg: Config, s: State)
    requires Valid(s) && s.top.state.Number? && s.pb == "-" && s.caseLen == 0 && !s.isDouble
    ensures Feed(cfg, s, 'I') == Halted(s, ErrNumber, 'I')
  {
    assert ParseInt64("-").None? by {
      var buf := "-";
      assert buf[1..] == "";
    }
  }

  /**
   A concrete bad split: the code reads -Infinity in one call, and after a pause behind the
   sign it answers that there is no number.
   */
  lemma MinusInfinityNeedsOneCall(cfg: Config)
    ensures var once := ParseCall(cfg, INITIAL, "-" + (INFINITY + [NUL]));
      once.err.Success? && once.value == Double("-Infinity")
    ensures var first := ParseCall(cfg, INITIAL, "-");
      first.err.Continue? && Valid(first.st) && ParseCall(cfg, first.st, INFINITY + [NUL]).err.ErrNumber?
  {
    hide Feed, FeedAll, Step;
    assert Enter(INITIAL) == INITIAL;
    PauseBehindSign(cfg);
    var s, rest := FeedAll(cfg, INITIAL, "-").st, INFINITY + [NUL];
    SignGoesOn(cfg, s);
    FeedAllConcat(cfg, INITIAL, "-", rest);
    SignAlone(cfg, Enter(s));
    assert rest == ['I'] + rest[1..];
    FeedAllConcat(cfg, Enter(s), ['I'], rest[1..]);
    FeedAllOne(cfg, Enter(s), 'I');
  }

  lemma SignGoesOn(cfg: Config, s: State)
    requires Valid(s) && s.top == Level(Number, Start, Null, None) && s.below == []
    requires s.pb == "-" && s.caseLen == 1 && s.stPos == 0
    ensures var r := FeedAll(cfg, s, INFINITY + [NUL]);
      r.Halted? && r.err.Success? && r.at == NUL && r.st.top.state.Finish? && r.st.top.current == Double("-Infinity")
  {
    hide FeedAll, Feed;
    var inf, rest := Goto(s, Inf), INFINITY + [NUL];
    assert "-" + INFINITY[..0] == "-" && INFINITY[0..] == INFINITY;
    ReadInfinity(cfg, inf, 0);
    FeedRedo(cfg, s, 'I', inf);
    assert rest == ['I'] + rest[1..];
    FeedAllConcat(cfg, s, ['I'], rest[1..]);
    FeedAllConcat(cfg, inf, ['I'], rest[1..]);
    FeedAllOne(cfg, s, 'I');
    FeedAllOne(cfg, inf, 'I');
  }

  /** At the level of whole calls: a pause in such a text that is no bad split is not noticed. */
  lemma ResumedCall(cfg: Config, st: State, a: string, b: string)
    requires AtRest(st) && ParseCall(cfg, st, a).err.Continue? && Decoded(FeedAll(cfg, Enter(st), a + b))
    requires !BadSplit(ParseCall(cfg, st, a).st, b)
    ensures AtRest(ParseCall(cfg, st, a).st)
    ensures var twice, once := ParseCall(cfg, ParseCall(cfg, st, a).st, b), ParseCall(cfg, st, a + b);
      twice.err == once.err && twice.value == once.value && Enter(twice.st) == Enter(once.st)
  {
    hide Step, Feed, FeedAll;
    ContinueMeansGoing(cfg, st, a);
    var s := ParseCall(cfg, st, a).st;
    FeedAllConcat(cfg, Enter(st), a, b);
    assert b[..|b|] == b;
    FeedAllRests(cfg, Enter(st), a);
    HarmlessSplit(cfg, s, Enter(s), b);
    FeedAllRests(cfg, s, b);
    FeedAllRests(cfg, Enter(s), b);
    assert b != "" ==> b[|b| - 1] in b && (a + b)[|a + b| - 1] == b[|b| - 1];
    assert a != "" ==> a[|a| - 1] in a;
    assert b == "" ==> a + b == a;
  }

  lemma ContinueMeansGoing(cfg: Config, st: State, a: string)
    requires AtRest(st) && ParseCall(cfg, st, a).err.Continue?
    ensures FeedAll(cfg, Enter(st), a) == Going(ParseCall(cfg, st, a).st)
  {
    var run := FeedAll(cfg, Enter(st), a);
    if run.Halted? {
      NeverContinue(cfg, Enter(st), a);
    }
  }

  lemma {:induction false} NeverContinue(cfg: Config, st: State, text: string)
    requires Valid(st)
    ensures var r := FeedAll(cfg, st, text); r.Halted? ==> !r.err.Continue?
    decreases |text|
  {
    hide Step, Feed;
    if text != "" {
      FeedNeverContinues(cfg, st, text[0]);
      if Feed(cfg, st, text[0]).Going? {
        NeverContinue(cfg, Feed(cfg, st, text[0]).st, text[1..]);
      }
    }
  }

  lemma {:induction false} FeedNeverContinues(cfg: Config, st: State, c: char)
    requires Valid(st)
    ensures var r := Feed(cfg, st, c); r.Halted? ==> !r.err.Continue?
    decreases Rank(st.top)
  {
    assert Step(cfg, st, c).Halt? ==> !Step(cfg, st, c).err.Continue? by {
      hide WordMatches, ParseInt64, AddField, CStr, Utf8, IsNumberChar, IsSpace, IsDigit, IsHexChar, HexDigit, Feed;
    }
    hide Step;
    StepKeepsValid(cfg, st, c);
    if Step(cfg, st, c).Redo? {
      FeedNeverContinues(cfg, Step(cfg, st, c).st, c);
    }
  }
}

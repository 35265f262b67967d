/** What the JSON library promises: printed values are read back, whole or in pieces. */
module JsonTheorems {
  import opened JsonValue
  import opened JsonTokener
  import opened JsonRoundTrip
  import opened JsonContainers
  import opened JsonChunks
  import JsonNumbers

  /** The value is complete in state `st`; a terminating NUL then ends the parse with it. */
  lemma NulEndsParse(cfg: Config, st: State, v: Value)
    requires Done(st, v) && Printable(v) && st.below == []
    ensures var r := Feed(cfg, st, NUL);
      r.Halted? && r.err.Success? && r.at == NUL && r.st.top.state.Finish? && r.st.top.current == v
  {
    hide Step, Feed;
    var twin := Settle(cfg, st, v, NUL);
    Resume(cfg, twin, NUL);
    var fin := Goto(twin, Finish);
    assert Step(cfg, fin, NUL) == Halt(fin, Success) by { FinishStep(cfg, fin, NUL); }
    FeedHalt(cfg, fin, NUL);
  }

  lemma FinishStep(cfg: Config, st: State, c: char)
    requires Valid(st) && st.top.state.Finish? && st.below == []
    ensures Step(cfg, st, c) == Halt(st, Success)
  {
  }

  // ----- printed text is a C string -----

  lemma {:induction false} EscapeHasNoNul(s: string)
    ensures NUL !in Escape(s)
  {
    if s != "" {
      assert NUL !in EscapeChar(s[0]) by {
        if s[0] < ' ' {
          HexDigitOfHexChar(s[0] as int / 16);
          HexDigitOfHexChar(s[0] as int % 16);
        }
      }
      EscapeHasNoNul(s[1..]);
    }
  }

  lemma BlankHasNoNul(ws: string)
    requires Blank(ws)
    ensures NUL !in ws
  {
    assert forall c <- ws :: c != NUL;
  }

  lemma {:induction false} PrintHasNoNul(v: Value, style: Style, level: nat)
    requires Printable(v)
    ensures NUL !in Print(v, style, level)
    decreases v, 1
  {
    hide PrintItems, PrintFields, Newline, Trail, Escape, PrintInt;
    match v
    case Int(i) => JsonNumbers.ParsePrintedInt(i);
    case Str(s) => EscapeHasNoNul(s);
    case Array(items) =>
      LeadsHaveNoNul(style, level, items != []);
      ItemsHaveNoNul(items, true, style, level);
    case Object(fields) =>
      LeadsHaveNoNul(style, level, fields != []);
      FieldsHaveNoNul(fields, true, style, level);
    case _ =>
  }

  lemma LeadsHaveNoNul(style: Style, level: nat, children: bool)
    ensures NUL !in Newline(style) && NUL !in Lead(style, level) && NUL !in Trail(style, level, children)
    ensures NUL !in BeforeChild(style, true, level) && NUL !in BeforeChild(style, false, level)
  {
    BlankTexts(style, level, children);
    BlankHasNoNul(Newline(style));
    BlankHasNoNul(Lead(style, level));
    BlankHasNoNul(Trail(style, level, children));
  }

  lemma {:induction false} ItemsHaveNoNul(items: seq<Value>, first: bool, style: Style, level: nat)
    requires forall x <- items :: Printable(x)
    ensures NUL !in PrintItems(items, first, style, level)
    decreases items, 0
  {
    hide BeforeChild;
    if items != [] {
      assert items[0] in items;
      LeadsHaveNoNul(style, level, true);
      PrintHasNoNul(items[0], style, level + 1);
      forall x <- items[1..] ensures Printable(x) { assert x in items; }
      ItemsHaveNoNul(items[1..], false, style, level);
    }
  }

  lemma NameHasNoNul(key: string, style: Style)
    ensures NUL !in PrintName(key, style)
  {
    EscapeHasNoNul(CStr(key));
    hide Escape;
  }

  lemma {:induction false} FieldsHaveNoNul(fields: seq<Field>, first: bool, style: Style, level: nat)
    requires forall f <- fields :: NUL !in f.key && Printable(f.value)
    ensures NUL !in PrintFields(fields, first, style, level)
    decreases fields, 0
  {
    hide BeforeChild, PrintName, Print;
    if fields != [] {
      assert fields[0] in fields;
      LeadsHaveNoNul(style, level, true);
      NameHasNoNul(fields[0].key, style);
      PrintHasNoNul(fields[0].value, style, level + 1);
      forall f <- fields[1..] ensures NUL !in f.key && Printable(f.value) { assert f in fields; }
      FieldsHaveNoNul(fields[1..], false, style, level);
    }
  }

  // ----- the round trip -----

  /**
   Round trip through NUL-terminated text: json_tokener_parse of a printed value is
   that value, with the same field order, if and only if the nesting fits the limit.
   */
  lemma RoundTrip(cfg: Config, v: Value, style: Style)
    requires Printable(v) && cfg.maxDepth >= 1
    ensures var o := ParseCall(cfg, INITIAL, Print(v, style, 0) + [NUL]);
      if Height(v) < cfg.maxDepth then o.err == Success && o.value == v else o.err == ErrDepth
  {
    hide Step, Feed, FeedAll, Clean, Print, Done;
    var text := Print(v, style, 0);
    assert Enter(INITIAL) == INITIAL;
    ParseValue(cfg, INITIAL, v, style, 0);
    FeedAllConcat(cfg, INITIAL, text, [NUL]);
    if Height(v) < cfg.maxDepth {
      var st :| Reads(cfg, INITIAL, text, st) && st.below == INITIAL.below && Done(st, v);
      DoneValid(st, v);
      FeedAllOne(cfg, st, NUL);
      NulEndsParse(cfg, st, v);
    }
  }

  // ----- feeding a text in pieces -----

  function Flatten(chunks: seq<string>): string {
    if chunks == [] then "" else chunks[0] + Flatten(chunks[1..])
  }

  /** The outcomes of successive calls, up to the first that does not ask for more. */
  ghost function Calls(cfg: Config, st: State, chunks: seq<string>): seq<Outcome>
    decreases |chunks|
  {
    if chunks == [] || !Valid(st) then []
    else
      var o := ParseCall(cfg, st, chunks[0]);
      if o.err.Continue? then [o] + Calls(cfg, o.st, chunks[1..]) else [o]
  }

  /** The locals of a call do not matter on a clean text. */
  lemma {:induction false} CleanTwins(cfg: Config, s: State, t: State, text: string)
    requires AtRest(s) && Valid(t) && Enter(s) == Enter(t) && Clean(cfg, s, text)
    ensures Clean(cfg, t, text) && Alike(FeedAll(cfg, s, text), FeedAll(cfg, t, text))
    decreases |text|
  {
    hide Step, Feed;
    if text != "" {
      var c := text[0];
      FeedTwins(cfg, s, t, c);
      FeedRests(cfg, s, c);
      var r, q := Feed(cfg, s, c), Feed(cfg, t, c);
      if r.Going? {
        CleanTwins(cfg, r.st, q.st, text[1..]);
      }
    }
  }

  /** At the outermost level, behind the finished value. */
  predicate Behind(st: State) {
    st.below == [] && st.top.saved.Finish? && (st.top.state.Eatws? || InComment(st.top.state))
  }

  /** Behind the value only white space and comments are consumed. */
  lemma FeedBehind(cfg: Config, st: State, c: char)
    requires Valid(st) && Behind(st)
    ensures var r := Feed(cfg, st, c);
      r.Going? ==> Behind(r.st) && (r.st.top.state.Eatws? ==> IsSpace(c) || c == '/')
  {
    if st.top.state.Eatws? && !IsSpace(c) && c != '/' {
      hide Step, Feed, IsSpace;
      Resume(cfg, st, c);
      FinishStep(cfg, Goto(st, Finish), c);
      FeedHalt(cfg, Goto(st, Finish), c);
    } else if st.top.state.Eatws? && c == '/' && cfg.strict {
      hide Feed;
      FeedRedo(cfg, st, c, Goto(st, Finish));
      FinishStep(cfg, Goto(st, Finish), c);
      FeedHalt(cfg, Goto(st, Finish), c);
    } else {
      assert !Step(cfg, st, c).Redo?;
      assert Step(cfg, st, c).Consume? ==>
        Behind(Step(cfg, st, c).st) && (Step(cfg, st, c).st.top.state.Eatws? ==> IsSpace(c) || c == '/');
    }
  }

  lemma {:induction false} FeedAllBehind(cfg: Config, st: State, text: string)
    requires Valid(st) && Behind(st) && text != ""
    requires FeedAll(cfg, st, text).Going? && AtEnd(FeedAll(cfg, st, text).st)
    ensures IsSpace(text[|text| - 1]) || text[|text| - 1] == '/'
    decreases |text|
  {
    hide Step, Feed, IsSpace;
    FeedBehind(cfg, st, text[0]);
    if |text| == 1 {
      assert text == [text[0]];
      FeedAllOne(cfg, st, text[0]);
    } else {
      FeedAllBehind(cfg, Feed(cfg, st, text[0]).st, text[1..]);
      assert text[1..][|text[1..]| - 1] == text[|text| - 1];
    }
  }

  lemma {:induction false} FlattenNonempty(chunks: seq<string>)
    requires chunks != [] && chunks[|chunks| - 1] != ""
    ensures Flatten(chunks) != ""
  {
    if |chunks| > 1 {
      assert chunks[1..][|chunks[1..]| - 1] == chunks[|chunks| - 1];
      FlattenNonempty(chunks[1..]);
    }
  }

  /** All but the last call ask for more, and the last returns `v`. */
  ghost predicate EndsWith(outcomes: seq<Outcome>, n: nat, v: Value) {
    && n > 0 && |outcomes| == n
    && (forall i :: 0 <= i < n - 1 ==> outcomes[i].err.Continue? && outcomes[i].value.Null?)
    && outcomes[n - 1].err.Success? && outcomes[n - 1].value == v
  }

  lemma {:induction false} ReadInChunks(cfg: Config, s: State, chunks: seq<string>, fin: State, v: Value)
    requires AtRest(s) && chunks != [] && chunks[|chunks| - 1] != ""
    requires Reads(cfg, s, Flatten(chunks), fin) && AtEnd(fin) && fin.top.current == v
    requires var text := Flatten(chunks); text != "" && !IsSpace(text[|text| - 1]) && text[|text| - 1] != '/'
    ensures EndsWith(Calls(cfg, s, chunks), |chunks|, v)
    decreases |chunks|
  {
    hide Step, Feed, FeedAll, IsSpace, Clean;
    var a, b := chunks[0], Flatten(chunks[1..]);
    CleanTwins(cfg, s, Enter(s), a + b);
    FeedAllConcat(cfg, Enter(s), a, b);
    var r := FeedAll(cfg, Enter(s), a);
    FeedAllRests(cfg, Enter(s), a);
    assert a != "" ==> a[|a| - 1] in a;
    if |chunks| == 1 {
      FeedAllNothing(cfg, r.st);
      assert Calls(cfg, s, chunks) == [ParseCall(cfg, s, a)];
    } else {
      assert chunks[1..][|chunks[1..]| - 1] == chunks[|chunks| - 1];
      FlattenNonempty(chunks[1..]);
      assert (a + b)[|a + b| - 1] == b[|b| - 1];
      if AtEnd(r.st) {
        FeedAllBehind(cfg, r.st, b);
      }
      CleanTail(cfg, Enter(s), a, b);
      var fin' := FeedAll(cfg, r.st, b).st;
      ReadInChunks(cfg, r.st, chunks[1..], fin', v);
      assert ParseCall(cfg, s, a) == Outcome(r.st, Continue, Null);
    }
  }

  lemma FeedAllNothing(cfg: Config, st: State)
    requires Valid(st)
    ensures FeedAll(cfg, st, "") == Going(st)
  {
  }

  lemma PrintEnds(v: Value, style: Style)
    requires v.Str? || v.Array? || v.Object?
    ensures var text := Print(v, style, 0);
      text != "" && !IsSpace(text[|text| - 1]) && text[|text| - 1] != '/'
  {
    hide Escape, PrintItems, PrintFields, Newline, Trail;
  }

  /**
   Chunk independence: a printed string, array or object that fits the depth limit,
   fed in any pieces whose last one is not empty, makes every call but the last ask
   for more and the last one return the value.
   */
  lemma PrintedInChunks(cfg: Config, v: Value, style: Style, chunks: seq<string>)
    requires Printable(v) && (v.Str? || v.Array? || v.Object?) && Height(v) < cfg.maxDepth
    requires Flatten(chunks) == Print(v, style, 0) && chunks != [] && chunks[|chunks| - 1] != ""
    ensures EndsWith(Calls(cfg, INITIAL, chunks), |chunks|, v)
  {
    hide Step, Feed, FeedAll, Clean, Print, Done, IsSpace;
    ParseValue(cfg, INITIAL, v, style, 0);
    var st :| Reads(cfg, INITIAL, Print(v, style, 0), st) && st.below == INITIAL.below && Done(st, v);
    DoneValid(st, v);
    PrintEnds(v, style);
    ReadInChunks(cfg, INITIAL, chunks, st, v);
  }

  /** Behind the value a text that is consumed leaves the tokener behind the value. */
  lemma {:induction false} StaysBehind(cfg: Config, st: State, text: string)
    requires Valid(st) && Behind(st) && FeedAll(cfg, st, text).Going?
    ensures Behind(FeedAll(cfg, st, text).st)
    decreases |text|
  {
    hide Step, Feed, IsSpace;
    if text != "" {
      FeedBehind(cfg, st, text[0]);
      StaysBehind(cfg, Feed(cfg, st, text[0]).st, text[1..]);
    }
  }

  /** A literal or number that only the next character completes. */
  ghost predicate Open(st: State, v: Value) {
    Done(st, v) && Printable(v) && st.below == [] && !st.top.state.Eatws?
  }

  lemma {:induction false} OpenInChunks(cfg: Config, s: State, chunks: seq<string>, fin: State, v: Value)
    requires AtRest(s) && Reads(cfg, s, Flatten(chunks), fin) && Open(fin, v)
    ensures EndsWith(Calls(cfg, s, chunks + [[NUL]]), |chunks| + 1, v)
    decreases |chunks|
  {
    hide Step, Feed, FeedAll, Clean, Done, EndsWith;
    if chunks == [] {
      FeedAllNothing(cfg, s);
      LastCall(cfg, s, v);
    } else {
      var a, b := chunks[0], Flatten(chunks[1..]);
      CleanTwins(cfg, s, Enter(s), a + b);
      FeedAllConcat(cfg, Enter(s), a, b);
      var r := FeedAll(cfg, Enter(s), a);
      FeedAllRests(cfg, Enter(s), a);
      assert a != "" ==> a[|a| - 1] in a;
      var fin' := FeedAll(cfg, r.st, b).st;
      OpenTwin(fin, fin', v);
      if AtEnd(r.st) {
        StaysBehind(cfg, r.st, b);
      }
      CleanTail(cfg, Enter(s), a, b);
      OpenInChunks(cfg, r.st, chunks[1..], fin', v);
      assert ParseCall(cfg, s, a) == Outcome(r.st, Continue, Null);
      OneMoreCall(cfg, s, chunks, r.st, v);
    }
  }

  lemma OpenTwin(s: State, t: State, v: Value)
    requires Open(s, v) && Enter(s) == Enter(t)
    ensures Open(t, v) && !Behind(t)
  {
    hide Print, PrintInt;
  }

  lemma LastCall(cfg: Config, s: State, v: Value)
    requires AtRest(s) && Open(s, v)
    ensures EndsWith(Calls(cfg, s, [] + [[NUL]]), 1, v)
  {
    hide Feed, FeedAll, Step, Print, PrintInt;
    var last: seq<string> := [[NUL]];
    assert [] + last == last && last[1..] == [];
    FeedAllOne(cfg, Enter(s), NUL);
    NulEndsParse(cfg, Enter(s), v);
    assert Calls(cfg, s, last) == [ParseCall(cfg, s, [NUL])];
  }

  lemma OneMoreCall(cfg: Config, s: State, chunks: seq<string>, next: State, v: Value)
    requires Valid(s) && chunks != [] && ParseCall(cfg, s, chunks[0]) == Outcome(next, Continue, Null)
    requires EndsWith(Calls(cfg, next, chunks[1..] + [[NUL]]), |chunks|, v)
    ensures EndsWith(Calls(cfg, s, chunks + [[NUL]]), |chunks| + 1, v)
  {
    hide ParseCall;
    var all := chunks + [[NUL]];
    assert all[0] == chunks[0] && all[1..] == chunks[1..] + [[NUL]];
  }

  /**
   Numbers and literals show their end only by what follows: fed in any pieces, every call
   asks for more, and a terminating NUL then makes the next one return the value.
   */
  lemma ScalarInChunks(cfg: Config, v: Value, style: Style, chunks: seq<string>)
    requires Printable(v) && (v.Null? || v.Bool? || v.Int?)
    requires Flatten(chunks) == Print(v, style, 0)
    ensures EndsWith(Calls(cfg, INITIAL, chunks + [[NUL]]), |chunks| + 1, v)
  {
    hide Step, Feed, FeedAll, Clean, EndsWith, Calls, PrintInt, Flatten, Done;
    var text := Print(v, style, 0);
    if v.Int? {
      ParseInt(cfg, INITIAL, v.i);
    } else {
      ParseLiteral(cfg, INITIAL, v, text);
    }
    var st :| Reads(cfg, INITIAL, text, st) && st.below == INITIAL.below && Done(st, v) && !st.top.state.Eatws?;
    OpenInChunks(cfg, INITIAL, chunks, st, v);
  }
}

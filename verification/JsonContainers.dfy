/** Reading printed arrays and objects: the induction over the tree. */
module JsonContainers {
  import opened Options
  import opened JsonValue
  import opened JsonTokener
  import opened JsonRoundTrip

  /** The run stops with the nesting error. */
  ghost predicate TooDeep(cfg: Config, st: State, text: string) {
    Valid(st) && var r := FeedAll(cfg, st, text); r.Halted? && r.err.ErrDepth? && r.at != NUL && !r.st.top.state.Finish?
  }

  lemma TooDeepLater(cfg: Config, st: State, a: string, st1: State, b: string)
    requires Reads(cfg, st, a, st1) && TooDeep(cfg, st1, b)
    ensures TooDeep(cfg, st, a + b)
  {
    FeedAllConcat(cfg, st, a, b);
  }

  lemma TooDeepAlready(cfg: Config, st: State, a: string, b: string)
    requires TooDeep(cfg, st, a)
    ensures TooDeep(cfg, st, a + b)
  {
    FeedAllConcat(cfg, st, a, b);
  }

  // ----- white space -----

  predicate Blank(ws: string) { forall c <- ws :: IsSpace(c) }

  lemma {:induction false} ReadBlanks(cfg: Config, st: State, ws: string)
    requires Valid(st) && st.top.state.Eatws? && Blank(ws)
    ensures Reads(cfg, st, ws, st)
    decreases |ws|
  {
    if ws != "" {
      assert ws[0] in ws;
      assert Step(cfg, st, ws[0]) == Consume(st);
      ReadsOne(cfg, st, ws[0], st);
      forall c <- ws[1..] ensures IsSpace(c) { assert c in ws; }
      ReadBlanks(cfg, st, ws[1..]);
      ReadsThen(cfg, st, [ws[0]], st, ws[1..], st);
      assert [ws[0]] + ws[1..] == ws;
    }
  }

  /** White space after a value leaves the value in place. */
  lemma ReadBlanksAfter(cfg: Config, st: State, v: Value, ws: string) returns (st': State)
    requires Done(st, v) && Printable(v) && Blank(ws)
    ensures Reads(cfg, st, ws, st') && st'.below == st.below && Done(st', v)
  {
    if ws == "" {
      st' := st;
    } else {
      assert ws[0] in ws;
      var twin := Settle(cfg, st, v, ws[0]);
      ReadBlanks(cfg, twin, ws);
      st' := twin;
      assert Feed(cfg, st, ws[0]) == Feed(cfg, twin, ws[0]);
    }
  }

  // ----- returning to the parent -----

  /** A value that is complete is handed to the level below. */
  lemma PopChild(cfg: Config, st: State, v: Value, c: char) returns (up: State)
    requires Valid(st) && st.below != []
    requires st.top.state.Eatws? && st.top.saved.Finish? && st.top.current == v
    requires !IsSpace(c) && c != '/'
    ensures Valid(up) && Feed(cfg, st, c) == Feed(cfg, up, c)
    ensures up.below == st.below[..|st.below| - 1]
    ensures up.top == st.below[|st.below| - 1] && up.obj == v
  {
    var fin := Goto(st, Finish);
    FeedRedo(cfg, st, c, fin);
    up := StepFinish(fin).st;
    FeedRedo(cfg, fin, c, up);
  }

  /** Skipping no white space resumes the saved phase. */
  lemma Resume(cfg: Config, st: State, c: char)
    requires Valid(st) && st.top.state.Eatws? && !IsSpace(c) && c != '/'
    ensures Valid(Goto(st, st.top.saved)) && Feed(cfg, st, c) == Feed(cfg, Goto(st, st.top.saved), c)
  {
    FeedRedo(cfg, st, c, Goto(st, st.top.saved));
  }

  /** A character that the saved phase consumes. */
  lemma ResumeStep(cfg: Config, st: State, c: char, st': State)
    requires Valid(st) && st.top.state.Eatws? && !IsSpace(c) && c != '/' && c != NUL
    requires Valid(Goto(st, st.top.saved)) && Step(cfg, Goto(st, st.top.saved), c) == Consume(st')
    ensures Reads(cfg, st, [c], st') && Valid(st')
  {
    hide Step, IsSpace, Reads;
    Resume(cfg, st, c);
    FeedConsume(cfg, Goto(st, st.top.saved), c, st');
    ReadsOne(cfg, st, c, st');
  }

  /** After an item, a comma asks for the next item and a bracket ends the array. */
  lemma CloseItem(cfg: Config, st: State, v: Value, c: char) returns (st': State)
    requires Valid(st) && Done(st, v) && Printable(v) && (c == ',' || c == ']')
    requires st.below != [] && st.below[|st.below| - 1].state.ArrayAdd?
    ensures Reads(cfg, st, [c], st') && Valid(st')
    ensures st'.below == st.below[..|st.below| - 1]
    ensures st.below[|st.below| - 1].current.Array?
    ensures var p := st.below[|st.below| - 1];
      st'.top == Level(Eatws, if c == ',' then ArrayAfterSep else Finish, Array(p.current.items + [v]), p.fieldName)
  {
    hide Done, Printable, Feed, FeedAll, Clean;
    var p := st.below[|st.below| - 1];
    assert ParentOk(p);
    var twin := Settle(cfg, st, v, c);
    var up := PopChild(cfg, twin, v, c);
    var sep := Skip(up.(top := p.(current := Array(p.current.items + [v]))), ArraySep);
    FeedRedo(cfg, up, c, sep);
    Resume(cfg, sep, c);
    var here := Goto(sep, ArraySep);
    st' := Skip(here, if c == ',' then ArrayAfterSep else Finish);
    FeedConsume(cfg, here, c, st');
    ReadsOne(cfg, st, c, st');
  }

  lemma CloseField(cfg: Config, st: State, v: Value, c: char) returns (st': State)
    requires Valid(st) && Done(st, v) && Printable(v) && (c == ',' || c == '}')
    requires st.below != [] && st.below[|st.below| - 1].state.FieldValueAdd?
    ensures Reads(cfg, st, [c], st') && Valid(st')
    ensures st'.below == st.below[..|st.below| - 1]
    ensures st.below[|st.below| - 1].current.Object? && st.below[|st.below| - 1].fieldName.Some?
    ensures var p := st.below[|st.below| - 1];
      st'.top == Level(Eatws, if c == ',' then FieldStartAfterSep else Finish,
                       Object(AddField(p.current.fields, p.fieldName.value, v)), None)
  {
    hide Done, Printable, Feed, FeedAll, Clean;
    hide AddField;
    var p := st.below[|st.below| - 1];
    assert ParentOk(p);
    var twin := Settle(cfg, st, v, c);
    var up := PopChild(cfg, twin, v, c);
    var fields := AddField(p.current.fields, p.fieldName.value, v);
    var sep := Skip(up.(top := p.(current := Object(fields), fieldName := None)), FieldSep);
    FeedRedo(cfg, up, c, sep);
    Resume(cfg, sep, c);
    var here := Goto(sep, FieldSep);
    st' := Skip(here, if c == ',' then FieldStartAfterSep else Finish);
    FeedConsume(cfg, here, c, st');
    ReadsOne(cfg, st, c, st');
  }

  // ----- descending into a child -----

  predicate OpensValue(c: char) {
    c == '{' || c == '[' || c == '"' || c == 'n' || c == 't' || c == 'f' || IsDigit(c) || c == '-'
  }

  lemma PrintOpensValue(v: Value, style: Style, level: nat)
    requires Printable(v)
    ensures Print(v, style, level) != "" && OpensValue(Print(v, style, level)[0])
  {
    if v.Int? {
      JsonNumbers.ParsePrintedInt(v.i);
      var text := PrintInt(v.i);
      assert text[0] in text;
    }
  }

  /** The phase in which a parent waits for its child. */
  function ParentPhase(p: Phase): Phase {
    if p.FieldValue? then FieldValueAdd else ArrayAdd
  }

  lemma OpensNoSpace(c: char)
    requires OpensValue(c)
    ensures !IsSpace(c) && c != '/' && c != ']'
  {
  }

  /** The first character of a child pushes a fresh level, if the depth limit allows it. */
  lemma EnterChild(cfg: Config, st: State, c: char)
    requires Valid(st) && OpensValue(c) && st.top.state.Eatws?
    requires st.top.saved.ArrayStart? || st.top.saved.ArrayAfterSep? || st.top.saved.FieldValue?
    ensures |st.below| + 1 < cfg.maxDepth ==>
      var child := Push(st, ParentPhase(st.top.saved));
      Ready(child) && Feed(cfg, st, c) == Feed(cfg, child, c)
    ensures |st.below| + 1 >= cfg.maxDepth ==>
      Feed(cfg, st, c) == Halted(Goto(st, st.top.saved), ErrDepth, c)
  {
    hide Feed, IsDigit;
    assert !IsSpace(c) && c != '/' && c != ']' by { OpensNoSpace(c); }
    Resume(cfg, st, c);
    var here := Goto(st, st.top.saved);
    if |st.below| + 1 < cfg.maxDepth {
      var child := Push(st, ParentPhase(st.top.saved));
      assert Push(here, ParentPhase(st.top.saved)) == child;
      FeedRedo(cfg, here, c, child);
    } else {
      FeedHalt(cfg, here, c);
    }
  }

  /** Reading a whole child from the waiting parent. */
  lemma ReadChild(cfg: Config, st: State, v: Value, text: string) returns (st': State)
    requires Valid(st) && st.top.state.Eatws? && |st.below| + 1 < cfg.maxDepth
    requires st.top.saved.ArrayStart? || st.top.saved.ArrayAfterSep? || st.top.saved.FieldValue?
    requires text != "" && OpensValue(text[0])
    requires var child := Push(st, ParentPhase(st.top.saved)); Valid(child) && Parses(cfg, child, text, v)
    ensures Reads(cfg, st, text, st') && Done(st', v)
    ensures st'.below == st.below + [st.top.(state := ParentPhase(st.top.saved))]
  {
    var child := Push(st, ParentPhase(st.top.saved));
    EnterChild(cfg, st, text[0]);
    st' :| Reads(cfg, child, text, st') && st'.below == child.below && Done(st', v);
    ReadsAlike(cfg, st, child, text, st');
  }

  lemma ReadyChild(st: State)
    requires Valid(st) && st.top.state.Eatws?
    requires st.top.saved.ArrayStart? || st.top.saved.ArrayAfterSep? || st.top.saved.FieldValue?
    ensures Ready(Push(st, ParentPhase(st.top.saved)))
  {
  }

  /** The depth error of a child, or of pushing it at all, is the error of the parent. */
  lemma ChildTooDeep(cfg: Config, st: State, text: string)
    requires Valid(st) && st.top.state.Eatws?
    requires st.top.saved.ArrayStart? || st.top.saved.ArrayAfterSep? || st.top.saved.FieldValue?
    requires text != "" && OpensValue(text[0])
    requires |st.below| + 1 < cfg.maxDepth ==>
      TooDeep(cfg, Push(st, ParentPhase(st.top.saved)), text)
    ensures TooDeep(cfg, st, text)
  {
    hide Step;
    EnterChild(cfg, st, text[0]);
  }

  // ----- arrays -----

  /** Some items of an array have been read; the last one may still be on its own level. */
  ghost predicate InArray(st: State, below: seq<Level>, items: seq<Value>) {
    && Valid(st)
    && if items == [] then
         st.below == below && st.top == Level(Eatws, ArrayStart, Array([]), None)
       else
         var n := |items| - 1;
         && |st.below| == |below| + 1 && st.below[..|below|] == below
         && st.below[|below|].state.ArrayAdd? && st.below[|below|].fieldName.None?
         && st.below[|below|].current == Array(items[..n])
         && Printable(items[n]) && Done(st, items[n])
  }

  lemma BlankTexts(style: Style, level: nat, children: bool)
    ensures Blank(Newline(style)) && Blank(Lead(style, level)) && Blank(Trail(style, level, children))
  {
  }

  lemma ReadFirstLead(cfg: Config, st: State, style: Style, level: nat)
    requires Valid(st) && st.top.state.Eatws?
    ensures Reads(cfg, st, BeforeChild(style, true, level), st)
  {
    hide Reads;
    BlankTexts(style, level, true);
    ReadBlanks(cfg, st, Lead(style, level));
    assert BeforeChild(style, true, level) == Lead(style, level);
  }

  lemma ReadNextLead(cfg: Config, st: State, st': State, style: Style, level: nat)
    requires Reads(cfg, st, ",", st') && Valid(st') && st'.top.state.Eatws?
    ensures Reads(cfg, st, BeforeChild(style, false, level), st')
  {
    hide Reads;
    var ws := Newline(style) + Lead(style, level);
    BlankTexts(style, level, true);
    assert Blank(ws);
    hide Lead, Newline;
    ReadBlanks(cfg, st', ws);
    ReadsThen(cfg, st, ",", st', ws, st');
    assert BeforeChild(style, false, level) == "," + ws;
  }

  lemma InArrayValid(st: State, below: seq<Level>, items: seq<Value>)
    requires InArray(st, below, items)
    ensures Valid(st)
  {
  }

  lemma ReadItem(cfg: Config, st: State, below: seq<Level>, done: seq<Value>, v: Value, text: string)
      returns (st': State)
    requires Valid(st) && st.top.state.Eatws? && |below| + 1 < cfg.maxDepth
    requires st.top.saved.ArrayStart? || st.top.saved.ArrayAfterSep?
    requires st.below == below && st.top.current == Array(done) && st.top.fieldName.None?
    requires text != "" && OpensValue(text[0]) && Printable(v)
    requires Valid(Push(st, ArrayAdd)) && Parses(cfg, Push(st, ArrayAdd), text, v)
    ensures Reads(cfg, st, text, st') && InArray(st', below, done + [v])
  {
    hide Feed, FeedAll, Clean, Reads, Step, Done, Printable;
    st' := ReadChild(cfg, st, v, text);
    assert (done + [v])[..|done|] == done;
    DoneValid(st', v);
  }

  lemma DoneValid(st: State, v: Value)
    requires Done(st, v)
    ensures Valid(st)
    ensures v.Str? || v.Array? || v.Object? ==>
      st.top.state.Eatws? && st.top.saved.Finish? && st.top.current == v
  {
  }

  /** Everything printed before an item leads to a level that waits for it. */
  lemma BeforeItem(cfg: Config, st: State, below: seq<Level>, items: seq<Value>, style: Style, level: nat)
      returns (st': State)
    requires InArray(st, below, items)
    ensures Reads(cfg, st, BeforeChild(style, items == [], level), st')
    ensures Valid(st') && st'.below == below && st'.top.state.Eatws? && st'.top.fieldName.None?
    ensures st'.top.saved.ArrayStart? || st'.top.saved.ArrayAfterSep?
    ensures st'.top.current == Array(items)
  {
    hide Feed, FeedAll, Clean, Reads, Step, Done, BeforeChild, Valid;
    if items == [] {
      ReadFirstLead(cfg, st, style, level);
      st' := st;
    } else {
      var n := |items| - 1;
      st' := CloseItem(cfg, st, items[n], ',');
      assert items[..n] + [items[n]] == items;
      ReadNextLead(cfg, st, st', style, level);
    }
  }

  /** The closing bracket of an empty container. */
  lemma CloseEmpty(cfg: Config, st: State) returns (st': State)
    requires Valid(st) && st.top.state.Eatws? && (st.top.saved.ArrayStart? || st.top.saved.FieldStart?)
    ensures Reads(cfg, st, if st.top.saved.ArrayStart? then "]" else "}", st')
    ensures Valid(st') && st' == st.(top := st.top.(saved := Finish))
  {
    hide Feed, FeedAll, Clean, Reads;
    st' := st.(top := st.top.(saved := Finish));
    ResumeStep(cfg, st, if st.top.saved.ArrayStart? then ']' else '}', st');
  }

  lemma EndArray(cfg: Config, st: State, below: seq<Level>, items: seq<Value>, style: Style, level: nat)
    requires InArray(st, below, items)
    ensures exists st' :: Reads(cfg, st, Trail(style, level, items != []) + "]", st')
                          && st'.below == below && Done(st', Array(items))
  {
    hide Feed, FeedAll, Clean, Reads, Step, Trail;
    var ws := Trail(style, level, items != []);
    BlankTexts(style, level, items != []);
    var st1, st';
    if items == [] {
      ReadBlanks(cfg, st, ws);
      st1 := st;
      st' := CloseEmpty(cfg, st);
    } else {
      var n := |items| - 1;
      st1 := ReadBlanksAfter(cfg, st, items[n], ws);
      st' := CloseItem(cfg, st1, items[n], ']');
      assert items[..n] + [items[n]] == items;
    }
    ReadsThen(cfg, st, ws, st1, "]", st');
    assert Done(st', Array(items));
  }

  // ----- objects -----

  /** Some fields of an object have been read; the last value may still be on its own level. */
  ghost predicate InObject(st: State, below: seq<Level>, fields: seq<Field>) {
    && Valid(st)
    && if fields == [] then
         st.below == below && st.top == Level(Eatws, FieldStart, Object([]), None)
       else
         var n := |fields| - 1;
         && |st.below| == |below| + 1 && st.below[..|below|] == below
         && st.below[|below|].state.FieldValueAdd?
         && st.below[|below|].fieldName == Some(fields[n].key)
         && st.below[|below|].current == Object(fields[..n])
         && Printable(fields[n].value) && Done(st, fields[n].value)
  }

  lemma PrefixDistinct(a: seq<Field>, b: seq<Field>)
    requires DistinctKeys(a + b)
    ensures DistinctKeys(a)
  {
    forall i, j | 0 <= i < j < |a| ensures a[i].key != a[j].key {
      assert (a + b)[i] == a[i] && (a + b)[j] == a[j];
    }
  }

  lemma LastFieldIsNew(fields: seq<Field>)
    requires fields != [] && DistinctKeys(fields)
    ensures var n := |fields| - 1;
      AddField(fields[..n], fields[n].key, fields[n].value) == fields
  {
    var n := |fields| - 1;
    AddNewField(fields[..n], fields[n].key, fields[n].value);
    assert fields[..n] + [fields[n]] == fields;
  }

  lemma BeforeField(cfg: Config, st: State, below: seq<Level>, fields: seq<Field>, style: Style, level: nat)
      returns (st': State)
    requires InObject(st, below, fields) && DistinctKeys(fields)
    ensures Reads(cfg, st, BeforeChild(style, fields == [], level), st')
    ensures st'.below == below && st'.top.state.Eatws? && st'.top.fieldName.None?
    ensures st'.top.saved.FieldStart? || st'.top.saved.FieldStartAfterSep?
    ensures st'.top.current == Object(fields)
  {
    hide Feed, FeedAll, Clean, Reads, Step, Done, BeforeChild, Valid;
    if fields == [] {
      ReadFirstLead(cfg, st, style, level);
      st' := st;
    } else {
      var n := |fields| - 1;
      st' := CloseField(cfg, st, fields[n].value, ',');
      LastFieldIsNew(fields);
      ReadNextLead(cfg, st, st', style, level);
    }
  }

  lemma EndObject(cfg: Config, st: State, below: seq<Level>, fields: seq<Field>, style: Style, level: nat)
    requires InObject(st, below, fields) && DistinctKeys(fields)
    ensures exists st' :: Reads(cfg, st, Trail(style, level, fields != []) + "}", st')
                          && st'.below == below && Done(st', Object(fields))
  {
    hide Feed, FeedAll, Clean, Reads, Step, Trail;
    var ws := Trail(style, level, fields != []);
    BlankTexts(style, level, fields != []);
    var st1, st';
    if fields == [] {
      ReadBlanks(cfg, st, ws);
      st1 := st;
      st' := CloseEmpty(cfg, st);
    } else {
      var n := |fields| - 1;
      st1 := ReadBlanksAfter(cfg, st, fields[n].value, ws);
      st' := CloseField(cfg, st1, fields[n].value, '}');
      LastFieldIsNew(fields);
    }
    ReadsThen(cfg, st, ws, st1, "}", st');
    assert Done(st', Object(fields));
  }

  /** A quoted field name and its colon lead to a level that waits for the value. */
  lemma ReadName(cfg: Config, st: State, key: string, style: Style) returns (st': State)
    requires Valid(st) && st.top.state.Eatws? && st.top.fieldName.None? && NUL !in key
    requires st.top.saved.FieldStart? || st.top.saved.FieldStartAfterSep?
    ensures Reads(cfg, st, PrintName(key, style), st')
    ensures st'.below == st.below && st'.top == Level(Eatws, FieldValue, st.top.current, Some(key))
  {
    hide Feed, FeedAll, Clean, Reads, Escape;
    var body := Goto(st, FieldName).(pb := "", quote := '"');
    ResumeStep(cfg, st, '"', body);
    var full := ReadEscaped(cfg, body, body, "", key);
    ReadsThen(cfg, st, "\"", body, Escape(key), full);
    assert "" + key == key;
    var named := ReadNameEnd(cfg, full, key);
    ReadsThen(cfg, st, "\"" + Escape(key), full, "\":", named);
    if style.spaced {
      ReadBlanks(cfg, named, " ");
      ReadsThen(cfg, st, "\"" + Escape(key) + "\":", named, " ", named);
      assert "\"" + Escape(key) + "\":" + " " == "\"" + Escape(key) + Colon(style);
    }
    st' := named;
  }

  lemma ReadNameEnd(cfg: Config, full: State, key: string) returns (st': State)
    requires Valid(full) && full.top.state.FieldName? && full.quote == '"' && full.pb == key && NUL !in key
    ensures Reads(cfg, full, "\":", st')
    ensures st'.below == full.below && st'.top == Level(Eatws, FieldValue, full.top.current, Some(key))
  {
    hide Feed, FeedAll, Clean, Reads;
    var st1 := Skip(full.(top := full.top.(fieldName := Some(key))), FieldEnd);
    ReadsStep(cfg, full, '"', st1);
    st' := Skip(Goto(st1, FieldEnd), FieldValue);
    ResumeStep(cfg, st1, ':', st');
    ReadsThen(cfg, full, "\"", st1, ":", st');
    assert "\"" + ":" == "\":";
  }

  // ----- the induction -----

  /**
   Printed text read at a ready level yields the printed value if the tree fits under
   the depth limit, and stops with the depth error if it does not.
   */
  lemma {:induction false} ParseValue(cfg: Config, st: State, v: Value, style: Style, level: nat)
    requires Ready(st) && Printable(v) && |st.below| < cfg.maxDepth
    ensures |st.below| + Height(v) < cfg.maxDepth ==> Parses(cfg, st, Print(v, style, level), v)
    ensures |st.below| + Height(v) >= cfg.maxDepth ==> TooDeep(cfg, st, Print(v, style, level))
    decreases v, 1
  {
    match v
    case Null => ParseLiteral(cfg, st, v, "null");
    case Bool(b) => ParseLiteral(cfg, st, v, if b then "true" else "false");
    case Int(i) => ParseInt(cfg, st, i);
    case Double(_) =>
    case Str(s) => ParseString(cfg, st, s);
    case Array(items) => ParseArray(cfg, st, items, style, level);
    case Object(fields) => ParseObject(cfg, st, fields, style, level);
  }

  lemma OpenBracket(cfg: Config, st: State, c: char) returns (st': State)
    requires Ready(st) && (c == '[' || c == '{')
    ensures Reads(cfg, st, [c], st') && st'.below == st.below
    ensures c == '[' ==> InArray(st', st.below, [])
    ensures c == '{' ==> InObject(st', st.below, [])
  {
    hide Feed, FeedAll, Clean, Reads;
    var start := Goto(st, Start);
    st' := StepStart(cfg, start, c).st;
    ResumeStep(cfg, st, c, st');
  }

  lemma {:induction false} ParseArray(cfg: Config, st: State, items: seq<Value>, style: Style, level: nat)
    requires Ready(st) && Printable(Array(items)) && |st.below| < cfg.maxDepth
    ensures |st.below| + ItemsHeight(items) < cfg.maxDepth ==>
      Parses(cfg, st, Print(Array(items), style, level), Array(items))
    ensures |st.below| + ItemsHeight(items) >= cfg.maxDepth ==>
      TooDeep(cfg, st, Print(Array(items), style, level))
    decreases items, 1
  {
    hide Feed, FeedAll, Clean, Reads, Step, Done, Trail, PrintItems;
    var body, trail := PrintItems(items, true, style, level), Trail(style, level, items != []);
    var st1 := OpenBracket(cfg, st, '[');
    BlankTexts(style, level, true);
    ReadBlanks(cfg, st1, Newline(style));
    ReadsThen(cfg, st, "[", st1, Newline(style), st1);
    ParseItems(cfg, st1, st.below, [], items, style, level);
    var open := "[" + Newline(style);
    assert open + body + trail + "]" == open + body + (trail + "]");
    if |st.below| + ItemsHeight(items) < cfg.maxDepth {
      var st2 :| Reads(cfg, st1, body, st2) && InArray(st2, st.below, [] + items);
      assert [] + items == items;
      ReadsThen(cfg, st, open, st1, body, st2);
      EndArray(cfg, st2, st.below, items, style, level);
      var st3 :| Reads(cfg, st2, trail + "]", st3) && st3.below == st.below && Done(st3, Array(items));
      ReadsThen(cfg, st, open + body, st2, trail + "]", st3);
    } else {
      TooDeepLater(cfg, st, open, st1, body);
      TooDeepAlready(cfg, st, open + body, trail + "]");
    }
  }

  lemma {:induction false} ParseItems(cfg: Config, st: State, below: seq<Level>, done: seq<Value>,
                                      items: seq<Value>, style: Style, level: nat)
    requires InArray(st, below, done) && Printable(Array(items)) && |below| < cfg.maxDepth
    ensures |below| + ItemsHeight(items) < cfg.maxDepth ==>
      exists st' :: Reads(cfg, st, PrintItems(items, done == [], style, level), st')
                    && InArray(st', below, done + items)
    ensures |below| + ItemsHeight(items) >= cfg.maxDepth ==>
      TooDeep(cfg, st, PrintItems(items, done == [], style, level))
    decreases items, 0
  {
    hide Feed, FeedAll, Clean, Reads, Step, TooDeep, Done, BeforeChild, Print, InArray;
    if items == [] {
      assert done + items == done;
      InArrayValid(st, below, done);
      ReadsNothing(cfg, st);
    } else {
      var v, rest := items[0], items[1..];
      assert v in items;
      var text, more := Print(v, style, level + 1), PrintItems(rest, false, style, level);
      PrintOpensValue(v, style, level + 1);
      var before := BeforeChild(style, done == [], level);
      var st1 := BeforeItem(cfg, st, below, done, style, level);
      if |below| + 1 < cfg.maxDepth {
        ReadyChild(st1);
        ParseValue(cfg, Push(st1, ArrayAdd), v, style, level + 1);
      }
      if |below| + 1 + Height(v) >= cfg.maxDepth {
        ChildTooDeep(cfg, st1, text);
        TooDeepLater(cfg, st, before, st1, text);
        TooDeepAlready(cfg, st, before + text, more);
        return;
      }
      var st2 := ReadItem(cfg, st1, below, done, v, text);
      ReadsThen(cfg, st, before, st1, text, st2);
      assert done + [v] + rest == done + items;
      forall x <- rest ensures Printable(x) { assert x in items; }
      ParseItems(cfg, st2, below, done + [v], rest, style, level);
      if |below| + ItemsHeight(items) < cfg.maxDepth {
        var st3 :| Reads(cfg, st2, more, st3) && InArray(st3, below, done + [v] + rest);
        ReadsThen(cfg, st, before + text, st2, more, st3);
      } else {
        TooDeepLater(cfg, st, before + text, st2, more);
      }
    }
  }

  lemma {:induction false} ParseObject(cfg: Config, st: State, fields: seq<Field>, style: Style, level: nat)
    requires Ready(st) && Printable(Object(fields)) && |st.below| < cfg.maxDepth
    ensures |st.below| + FieldsHeight(fields) < cfg.maxDepth ==>
      Parses(cfg, st, Print(Object(fields), style, level), Object(fields))
    ensures |st.below| + FieldsHeight(fields) >= cfg.maxDepth ==>
      TooDeep(cfg, st, Print(Object(fields), style, level))
    decreases fields, 1
  {
    hide Feed, FeedAll, Clean, Reads, Step, Done, Trail, PrintFields;
    var body, trail := PrintFields(fields, true, style, level), Trail(style, level, fields != []);
    var st1 := OpenBracket(cfg, st, '{');
    BlankTexts(style, level, true);
    ReadBlanks(cfg, st1, Newline(style));
    ReadsThen(cfg, st, "{", st1, Newline(style), st1);
    assert [] + fields == fields;
    ParseFields(cfg, st1, st.below, [], fields, style, level);
    var open := "{" + Newline(style);
    assert open + body + trail + "}" == open + body + (trail + "}");
    if |st.below| + FieldsHeight(fields) < cfg.maxDepth {
      var st2 :| Reads(cfg, st1, body, st2) && InObject(st2, st.below, [] + fields);
      ReadsThen(cfg, st, open, st1, body, st2);
      EndObject(cfg, st2, st.below, fields, style, level);
      var st3 :| Reads(cfg, st2, trail + "}", st3) && st3.below == st.below && Done(st3, Object(fields));
      ReadsThen(cfg, st, open + body, st2, trail + "}", st3);
    } else {
      TooDeepLater(cfg, st, open, st1, body);
      TooDeepAlready(cfg, st, open + body, trail + "}");
    }
  }

  lemma {:induction false} ParseFields(cfg: Config, st: State, below: seq<Level>, done: seq<Field>,
                                       fields: seq<Field>, style: Style, level: nat)
    requires InObject(st, below, done) && |below| < cfg.maxDepth && DistinctKeys(done + fields)
    requires forall f <- fields :: NUL !in f.key && Printable(f.value)
    ensures |below| + FieldsHeight(fields) < cfg.maxDepth ==>
      exists st' :: Reads(cfg, st, PrintFields(fields, done == [], style, level), st')
                    && InObject(st', below, done + fields)
    ensures |below| + FieldsHeight(fields) >= cfg.maxDepth ==>
      TooDeep(cfg, st, PrintFields(fields, done == [], style, level))
    decreases fields, 0
  {
    hide Feed, FeedAll, Clean, Reads, Step, TooDeep, Done, BeforeChild, PrintName, Print, InObject, Printable, Valid;
    if fields == [] {
      assert done + fields == done;
      InObjectValid(st, below, done);
      ReadsNothing(cfg, st);
    } else {
      var f, rest := fields[0], fields[1..];
      assert f in fields;
      var text, more := Print(f.value, style, level + 1), PrintFields(rest, false, style, level);
      PrintOpensValue(f.value, style, level + 1);
      PrefixDistinct(done, fields);
      var st1, before := BeforeValue(cfg, st, below, done, f.key, style, level);
      assert PrintFields(fields, done == [], style, level) == before + text + more;
      if |below| + 1 < cfg.maxDepth {
        ReadyChild(st1);
        ParseValue(cfg, Push(st1, FieldValueAdd), f.value, style, level + 1);
      }
      if |below| + 1 + Height(f.value) >= cfg.maxDepth {
        ChildTooDeep(cfg, st1, text);
        TooDeepLater(cfg, st, before, st1, text);
        TooDeepAlready(cfg, st, before + text, more);
        return;
      }
      var st2 := ReadField(cfg, st1, below, done, f, text);
      ReadsThen(cfg, st, before, st1, text, st2);
      assert done + [f] + rest == done + fields;
      forall g <- rest ensures NUL !in g.key && Printable(g.value) { assert g in fields; }
      ParseFields(cfg, st2, below, done + [f], rest, style, level);
      if |below| + FieldsHeight(fields) < cfg.maxDepth {
        var st3 :| Reads(cfg, st2, more, st3) && InObject(st3, below, done + [f] + rest);
        ReadsThen(cfg, st, before + text, st2, more, st3);
      } else {
        TooDeepLater(cfg, st, before + text, st2, more);
      }
    }
  }

  lemma InObjectValid(st: State, below: seq<Level>, fields: seq<Field>)
    requires InObject(st, below, fields)
    ensures Valid(st)
  {
  }

  lemma ReadField(cfg: Config, st: State, below: seq<Level>, done: seq<Field>, f: Field, text: string)
      returns (st': State)
    requires Valid(st) && |below| + 1 < cfg.maxDepth
    requires st.below == below && st.top == Level(Eatws, FieldValue, Object(done), Some(f.key))
    requires text != "" && OpensValue(text[0]) && Printable(f.value)
    requires Valid(Push(st, FieldValueAdd)) && Parses(cfg, Push(st, FieldValueAdd), text, f.value)
    ensures Reads(cfg, st, text, st') && InObject(st', below, done + [f])
  {
    hide Feed, FeedAll, Clean, Reads, Step, Done, Printable;
    st' := ReadChild(cfg, st, f.value, text);
    assert (done + [f])[..|done|] == done;
    DoneValid(st', f.value);
  }

  /** Everything printed before the value of a field. */
  lemma BeforeValue(cfg: Config, st: State, below: seq<Level>, done: seq<Field>, key: string, style: Style, level: nat)
      returns (st': State, before: string)
    requires InObject(st, below, done) && NUL !in key && DistinctKeys(done)
    ensures before == BeforeChild(style, done == [], level) + PrintName(key, style)
    ensures Reads(cfg, st, before, st')
    ensures Valid(st') && st'.below == below && st'.top == Level(Eatws, FieldValue, Object(done), Some(key))
  {
    hide Feed, FeedAll, Clean, Step, InObject, BeforeChild, PrintName;
    var st1 := BeforeField(cfg, st, below, done, style, level);
    st' := ReadName(cfg, st1, key, style);
    before := BeforeChild(style, done == [], level) + PrintName(key, style);
    ReadsThen(cfg, st, BeforeChild(style, done == [], level), st1, PrintName(key, style), st');
  }
}

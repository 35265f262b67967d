/**
 Reading printed text back.

 The main lemma, `ParseValue`, follows the tree: a level that is ready for a value
 reads the printout of the value and ends up holding it, or the run stops with the
 depth error, whatever lies on the levels below and in the scratch registers.
 */
module JsonRoundTrip {
  import opened Options
  import opened JsonValue
  import opened JsonTokener
  import opened JsonNumbers

  /** The run never meets the letter i while it is inside a number. */
  ghost predicate Clean(cfg: Config, st: State, text: string)
    requires Valid(st)
    decreases |text|
  {
    text != "" ==>
      && !(st.top.state.Number? && (text[0] == 'i' || text[0] == 'I'))
      && var r := Feed(cfg, st, text[0]);
         r.Going? ==> Clean(cfg, r.st, text[1..])
  }

  /** From `st` the text is read completely and cleanly, ending in `st'`. */
  ghost predicate Reads(cfg: Config, st: State, text: string, st': State) {
    Valid(st) && FeedAll(cfg, st, text) == Going(st') && Clean(cfg, st, text)
  }

  lemma {:induction false} CleanConcat(cfg: Config, st: State, a: string, b: string)
    requires Valid(st) && Clean(cfg, st, a)
    requires var r := FeedAll(cfg, st, a); r.Going? ==> Clean(cfg, r.st, b)
    ensures Clean(cfg, st, a + b)
    decreases |a|
  {
    if a == "" {
      assert a + b == b;
    } else {
      assert (a + b)[0] == a[0] && (a + b)[1..] == a[1..] + b;
      var r := Feed(cfg, st, a[0]);
      if r.Going? {
        CleanConcat(cfg, r.st, a[1..], b);
      }
    }
  }

  /** The tail of a clean text is clean. */
  lemma {:induction false} CleanTail(cfg: Config, st: State, a: string, b: string)
    requires Valid(st) && Clean(cfg, st, a + b)
    ensures var r := FeedAll(cfg, st, a); r.Going? ==> Clean(cfg, r.st, b)
    decreases |a|
  {
    if a == "" {
      assert a + b == b;
    } else {
      assert (a + b)[0] == a[0] && (a + b)[1..] == a[1..] + b;
      var r := Feed(cfg, st, a[0]);
      if r.Going? {
        CleanTail(cfg, r.st, a[1..], b);
      }
    }
  }

  lemma ReadsThen(cfg: Config, st: State, a: string, st1: State, b: string, st2: State)
    requires Reads(cfg, st, a, st1) && Reads(cfg, st1, b, st2)
    ensures Reads(cfg, st, a + b, st2)
  {
    FeedAllConcat(cfg, st, a, b);
    CleanConcat(cfg, st, a, b);
  }

  lemma ReadsNothing(cfg: Config, st: State)
    requires Valid(st)
    ensures Reads(cfg, st, "", st)
  {
  }

  lemma ReadsOne(cfg: Config, st: State, c: char, st': State)
    requires Valid(st) && Feed(cfg, st, c) == Going(st')
    requires !(st.top.state.Number? && (c == 'i' || c == 'I'))
    ensures Reads(cfg, st, [c], st')
  {
    assert [c][1..] == "";
  }

  lemma ReadsStep(cfg: Config, st: State, c: char, st': State)
    requires Valid(st) && Step(cfg, st, c) == Consume(st') && c != NUL
    requires !(st.top.state.Number? && (c == 'i' || c == 'I'))
    ensures Reads(cfg, st, [c], st') && Valid(st')
  {
    hide Step;
    ReadsOne(cfg, st, c, st');
  }

  lemma FeedConsume(cfg: Config, st: State, c: char, st': State)
    requires Valid(st) && Step(cfg, st, c) == Consume(st') && c != NUL
    ensures Valid(st') && Feed(cfg, st, c) == Going(st')
  {
    hide Step;
    StepKeepsValid(cfg, st, c);
  }

  // ----- strings -----

  /** Inside the body of a string or field name, with text `t` collected so far. */
  ghost predicate InText(st: State, base: State, t: string) {
    && Valid(st)
    && st.below == base.below
    && st.top.state == base.top.state
    && (st.top.state.StringBody? || st.top.state.FieldName?)
    && st.top.current == base.top.current
    && st.top.fieldName == base.top.fieldName
    && st.quote == '"' && st.pb == t
  }

  lemma ReadPlainChar(cfg: Config, st: State, base: State, t: string, c: char)
    requires InText(st, base, t) && EscapeChar(c) == [c]
    ensures exists st' :: Reads(cfg, st, [c], st') && InText(st', base, t + [c])
  {
    var st' := st.(pb := st.pb + [c]);
    assert c != '"' && c != '\\' && c != NUL;
    ReadsStep(cfg, st, c, st');
  }

  lemma ReadShortEscape(cfg: Config, st: State, base: State, t: string, e: char)
    requires InText(st, base, t)
    requires e in {'"', '\\', '/', 'b', 'n', 'r', 't', 'f'}
    ensures exists st' :: Reads(cfg, st, ['\\', e], st') && InText(st', base, t + [Unescaped(e)])
  {
    hide Feed, FeedAll, Clean;
    var st1 := st.(top := st.top.(state := StringEscape, saved := st.top.state));
    ReadsStep(cfg, st, '\\', st1);
    var st2 := Goto(st1, st1.top.saved).(pb := st1.pb + [Unescaped(e)]);
    ReadsStep(cfg, st1, e, st2);
    ReadsThen(cfg, st, ['\\'], st1, [e], st2);
    assert ['\\'] + [e] == ['\\', e];
  }

  lemma HexDigitOfHexChar(n: nat)
    requires n < 16
    ensures IsHexChar(HexChar(n)) && HexDigit(HexChar(n)) == n
  {
  }

  /** Reading one of the first three hexadecimal digits of an escape. */
  lemma ReadHex(cfg: Config, st: State, n: nat) returns (st': State)
    requires Valid(st) && st.top.state.EscapeUnicode? && n < 16
    requires st.stPos < 3 && st.ucs < 0x1_0000
    ensures Reads(cfg, st, [HexChar(n)], st')
    ensures st' == st.(ucs := st.ucs + n * Shift(st.stPos), stPos := st.stPos + 1)
  {
    HexDigitOfHexChar(n);
    st' := st.(ucs := st.ucs + n * Shift(st.stPos), stPos := st.stPos + 1);
    ReadsStep(cfg, st, HexChar(n), st');
  }

  lemma ReadUnicodeStart(cfg: Config, st: State) returns (st': State)
    requires Valid(st) && (st.top.state.StringBody? || st.top.state.FieldName?) && st.quote == '"'
    ensures Reads(cfg, st, "\\u", st') && Valid(st')
    ensures st' == st.(top := st.top.(state := EscapeUnicode, saved := st.top.state), ucs := 0, stPos := 0)
  {
    hide Feed, FeedAll, Clean;
    var st1 := st.(top := st.top.(state := StringEscape, saved := st.top.state));
    ReadsStep(cfg, st, '\\', st1);
    st' := Goto(st1, EscapeUnicode).(ucs := 0, stPos := 0);
    ReadsStep(cfg, st1, 'u', st');
    ReadsThen(cfg, st, ['\\'], st1, ['u'], st');
    assert ['\\'] + ['u'] == "\\u";
  }

  lemma ReadControlEscape(cfg: Config, st: State, base: State, t: string, c: char)
    requires InText(st, base, t) && c < ' '
    ensures exists st' ::
      && Reads(cfg, st, "\\u00" + [HexChar(c as int / 16), HexChar(c as int % 16)], st')
      && InText(st', base, t + [c])
  {
    hide Feed, FeedAll, Clean, Step;
    var hi, lo := c as int / 16, c as int % 16;
    var st2 := ReadUnicodeStart(cfg, st);
    assert HexChar(0) == '0';
    var st3 := ReadHex(cfg, st2, 0);
    ReadsThen(cfg, st, "\\u", st2, "0", st3);
    assert "\\u" + "0" == "\\u0" && "\\u0" + "0" == "\\u00";
    var st4 := ReadHex(cfg, st3, 0);
    ReadsThen(cfg, st, "\\u0", st3, "0", st4);
    var st5 := ReadHex(cfg, st4, hi);
    ReadsThen(cfg, st, "\\u00", st4, [HexChar(hi)], st5);
    var st6 := ReadLastHex(cfg, st5, base, t, c);
    ReadsThen(cfg, st, "\\u00" + [HexChar(hi)], st5, [HexChar(lo)], st6);
    assert "\\u00" + [HexChar(hi)] + [HexChar(lo)] == "\\u00" + [HexChar(hi), HexChar(lo)];
  }

  lemma ReadLastHex(cfg: Config, st: State, base: State, t: string, c: char) returns (st': State)
    requires Valid(st) && st.top.state.EscapeUnicode? && st.stPos == 3
    requires c < ' ' && st.ucs == c as int / 16 * 16
    requires st.below == base.below && st.top.saved == base.top.state
    requires st.top.current == base.top.current && st.top.fieldName == base.top.fieldName
    requires st.quote == '"' && st.pb == t
    ensures Reads(cfg, st, [HexChar(c as int % 16)], st') && InText(st', base, t + [c])
  {
    var lo := c as int % 16;
    HexDigitOfHexChar(lo);
    var u := c as int;
    assert (st.ucs + HexDigit(HexChar(lo)) * Shift(3)) % 0x1_0000_0000 == u;
    assert Utf8(u) == [c];
    st' := Goto(st.(ucs := u, stPos := 4), st.top.saved).(pb := st.pb + Utf8(u));
    ReadsStep(cfg, st, HexChar(lo), st');
  }

  lemma ReadEscapedChar(cfg: Config, st: State, base: State, t: string, c: char)
    requires InText(st, base, t)
    ensures exists st' :: Reads(cfg, st, EscapeChar(c), st') && InText(st', base, t + [c])
  {
    if c == BACKSPACE { ReadShortEscape(cfg, st, base, t, 'b'); }
    else if c == '\n' { ReadShortEscape(cfg, st, base, t, 'n'); }
    else if c == '\r' { ReadShortEscape(cfg, st, base, t, 'r'); }
    else if c == '\t' { ReadShortEscape(cfg, st, base, t, 't'); }
    else if c == FORMFEED { ReadShortEscape(cfg, st, base, t, 'f'); }
    else if c == '"' { ReadShortEscape(cfg, st, base, t, '"'); }
    else if c == '\\' { ReadShortEscape(cfg, st, base, t, '\\'); }
    else if c == '/' { ReadShortEscape(cfg, st, base, t, '/'); }
    else if c < ' ' { ReadControlEscape(cfg, st, base, t, c); }
    else { ReadPlainChar(cfg, st, base, t, c); }
  }

  /** Unescaping undoes escaping, for every string. */
  lemma {:induction false} ReadEscaped(cfg: Config, st: State, base: State, t: string, s: string)
      returns (st': State)
    requires InText(st, base, t)
    ensures Reads(cfg, st, Escape(s), st') && InText(st', base, t + s)
    decreases |s|
  {
    hide Feed, Step, EscapeChar;
    if s == "" {
      st' := st;
      assert t + s == t;
    } else {
      ReadEscapedChar(cfg, st, base, t, s[0]);
      var st1 :| Reads(cfg, st, EscapeChar(s[0]), st1) && InText(st1, base, t + [s[0]]);
      st' := ReadEscaped(cfg, st1, base, t + [s[0]], s[1..]);
      ReadsThen(cfg, st, EscapeChar(s[0]), st1, Escape(s[1..]), st');
      assert t + [s[0]] + s[1..] == t + s;
    }
  }

  // ----- scalars -----

  /** A level that waits for the first character of a value. */
  predicate Ready(st: State) { Valid(st) && st.top == FRESH }

  /**
   The top level holds `v`, or will hold it as soon as the next character shows
   that the literal or number is complete.
   */
  ghost predicate Done(st: State, v: Value) {
    && Valid(st)
    && st.top.fieldName.None?
    && (|| (st.top.state.Eatws? && st.top.saved.Finish? && st.top.current == v)
        || (v.Null? && st.top.state.NullLit? && st.pb == "null" && st.stPos == 4)
        || (v.Bool? && st.top.state.BooleanLit? && st.pb == Print(v, Style(false, false), 0) && st.stPos == |st.pb|)
        || (v.Int? && st.top.state.Number? && st.pb == PrintInt(v.i) && !st.isDouble))
  }

  /** From `st` the text is read and the top level then holds `v`; the levels below stay. */
  ghost predicate Parses(cfg: Config, st: State, text: string, v: Value) {
    exists st' :: Reads(cfg, st, text, st') && st'.below == st.below && Done(st', v)
  }

  /** The same, with only the next character to complete the literal or number. */
  ghost predicate Leaves(cfg: Config, st: State, text: string, v: Value) {
    exists st' :: Reads(cfg, st, text, st') && st'.below == st.below && Done(st', v) && !st'.top.state.Eatws?
  }

  /** At a ready level, the first character of a token selects its phase. */
  lemma EnterToken(cfg: Config, st: State, c: char) returns (twin: State)
    requires Ready(st) && (IsDigit(c) || c == '-' || LiteralPhase(c).Some?)
    ensures twin == if LiteralPhase(c).Some?
                    then Goto(st, LiteralPhase(c).value).(pb := "", stPos := 0)
                    else Goto(st, Number).(pb := "", isDouble := false, caseLen := 0)
    ensures Valid(twin) && Feed(cfg, st, c) == Feed(cfg, twin, c)
  {
    var start := Goto(st, Start);
    FeedRedo(cfg, st, c, start);
    twin := StepStart(cfg, start, c).st;
    FeedRedo(cfg, start, c, twin);
  }

  lemma OwnPrefixMatches(strict: bool, word: string, k: nat)
    requires k <= |word|
    ensures WordMatches(strict, word, word[..k], k)
  {
  }

  predicate IsLiteral(st: State, word: string) {
    || (st.top.state.NullLit? && word == "null")
    || (st.top.state.BooleanLit? && (word == "true" || word == "false"))
  }

  lemma LiteralStep(cfg: Config, st: State, word: string, k: nat)
    requires Valid(st) && IsLiteral(st, word)
    requires k < |word| && st.pb == word[..k] && st.stPos == k
    ensures Step(cfg, st, word[k]) == Consume(st.(pb := word[..k + 1], stPos := k + 1))
  {
    assert st.pb + [word[k]] == word[..k + 1];
    OwnPrefixMatches(cfg.strict, word, k + 1);
    if word == "false" {
      assert !WordMatches(cfg.strict, "true", word[..k + 1], Min(k + 1, 4)) by {
        assert word[..k + 1][0] == 'f';
      }
    }
  }

  lemma {:induction false} ReadWord(cfg: Config, st: State, word: string, k: nat)
    requires Valid(st) && IsLiteral(st, word)
    requires k <= |word| && st.pb == word[..k] && st.stPos == k
    ensures Reads(cfg, st, word[k..], st.(pb := word, stPos := |word|))
    decreases |word| - k
  {
    hide Feed, FeedAll, Clean, Step;
    if k == |word| {
      assert word[..k] == word && word[k..] == "";
      ReadsNothing(cfg, st);
    } else {
      var st1 := st.(pb := word[..k + 1], stPos := k + 1);
      LiteralStep(cfg, st, word, k);
      assert word[k] != NUL;
      ReadsStep(cfg, st, word[k], st1);
      ReadWord(cfg, st1, word, k + 1);
      ReadsThen(cfg, st, [word[k]], st1, word[k + 1..], st.(pb := word, stPos := |word|));
      assert [word[k]] + word[k + 1..] == word[k..];
    }
  }

  /** Reading from two states that treat the first character alike. */
  lemma ReadsAlike(cfg: Config, st: State, twin: State, text: string, st': State)
    requires Valid(st) && !st.top.state.Number? && text != ""
    requires Reads(cfg, twin, text, st') && Feed(cfg, st, text[0]) == Feed(cfg, twin, text[0])
    ensures Reads(cfg, st, text, st')
  {
  }

  lemma ParseLiteral(cfg: Config, st: State, v: Value, word: string)
    requires Ready(st)
    requires (v.Null? && word == "null") || (v.Bool? && word == if v.b then "true" else "false")
    ensures Parses(cfg, st, word, v) && Leaves(cfg, st, word, v)
  {
    hide Feed, FeedAll, Clean;
    var twin := EnterToken(cfg, st, word[0]);
    assert word[..0] == "" && word[0..] == word;
    ReadWord(cfg, twin, word, 0);
    var st' := twin.(pb := word, stPos := |word|);
    ReadsAlike(cfg, st, twin, word, st');
    assert Done(st', v) && !st'.top.state.Eatws?;
  }

  lemma {:induction false} ReadDigits(cfg: Config, st: State, s: string) returns (st': State)
    requires Valid(st) && st.top.state.Number? && !st.isDouble
    requires forall c <- s :: IsDigit(c) || c == '-'
    ensures Reads(cfg, st, s, st')
    ensures st'.below == st.below && st'.top == st.top && st'.pb == st.pb + s && !st'.isDouble
    decreases |s|
  {
    if s == "" {
      st' := st;
    } else {
      assert s[0] in s;
      var st1 := st.(pb := st.pb + [s[0]], caseLen := st.caseLen + 1);
      ReadsStep(cfg, st, s[0], st1);
      forall c <- s[1..] ensures IsDigit(c) || c == '-' { assert c in s; }
      st' := ReadDigits(cfg, st1, s[1..]);
      ReadsThen(cfg, st, [s[0]], st1, s[1..], st');
      assert [s[0]] + s[1..] == s;
    }
  }

  lemma ParseInt(cfg: Config, st: State, i: int)
    requires Ready(st) && INT64_MIN <= i <= INT64_MAX
    ensures Parses(cfg, st, PrintInt(i), Int(i)) && Leaves(cfg, st, PrintInt(i), Int(i))
  {
    hide Feed, FeedAll, Clean, Step, ParseInt64;
    ParsePrintedInt(i);
    var text := PrintInt(i);
    assert text[0] in text;
    var twin := EnterToken(cfg, st, text[0]);
    var st' := ReadDigits(cfg, twin, text);
    ReadsAlike(cfg, st, twin, text, st');
    assert Done(st', Int(i)) && !st'.top.state.Eatws?;
  }

  lemma ParseString(cfg: Config, st: State, s: string)
    requires Ready(st)
    ensures Parses(cfg, st, "\"" + Escape(s) + "\"", Str(s))
  {
    hide Feed, FeedAll, Clean, Reads, Escape;
    var start := Goto(st, Start);
    var body := Goto(st, StringBody).(pb := "", quote := '"');
    FeedRedo(cfg, st, '"', start);
    FeedConsume(cfg, start, '"', body);
    ReadsOne(cfg, st, '"', body);
    var full := ReadEscaped(cfg, body, body, "", s);
    ReadsThen(cfg, st, "\"", body, Escape(s), full);
    assert "" + s == s;
    var st' := Complete(full, Str(s));
    ReadsStep(cfg, full, '"', st');
    ReadsThen(cfg, st, "\"" + Escape(s), full, "\"", st');
    assert Done(st', Str(s));
  }

  // ----- leaving a value -----

  predicate Delimiter(c: char) { IsSpace(c) || c == ',' || c == ']' || c == '}' || c == NUL }

  lemma SettleInt(cfg: Config, st: State, i: int, c: char)
    requires Valid(st) && st.top.state.Number? && st.pb == PrintInt(i) && !st.isDouble
    requires INT64_MIN <= i <= INT64_MAX && Delimiter(c)
    ensures Step(cfg, st, c) == Redo(Complete(st, Int(i)))
  {
    hide ParseInt64, PrintInt;
    ParsePrintedInt(i);
    assert !IsNumberChar(c);
    assert Step(cfg, st, c) == StepNumber(cfg, st, c);
  }

  /** A delimiter completes a pending literal or number. */
  lemma Settle(cfg: Config, st: State, v: Value, c: char) returns (st': State)
    requires Done(st, v) && Printable(v) && Delimiter(c)
    ensures Valid(st') && st'.below == st.below && st'.top == Level(Eatws, Finish, v, None)
    ensures Feed(cfg, st, c) == Feed(cfg, st', c)
  {
    hide Feed, Step, Print, IsSpace;
    if st.top.state.Eatws? {
      st' := st;
    } else if v.Int? {
      SettleInt(cfg, st, v.i, c);
      st' := Complete(st, v);
      FeedRedo(cfg, st, c, st');
    } else {
      st' := Complete(st.(pb := st.pb + [c]), v);
      SettleLiteral(cfg, st, v, c);
      FeedRedo(cfg, st, c, st');
    }
  }

  lemma SettleLiteral(cfg: Config, st: State, v: Value, c: char)
    requires Done(st, v) && (st.top.state.NullLit? || st.top.state.BooleanLit?)
    ensures Step(cfg, st, c) == Redo(Complete(st.(pb := st.pb + [c]), v))
  {
    var word := st.pb;
    OwnPrefixMatches(cfg.strict, word, |word|);
    assert word[..|word|] == word;
    assert WordMatches(cfg.strict, word, word + [c], |word|);
    if word == "false" {
      assert !WordMatches(cfg.strict, "true", word + [c], 4) by {
        assert (word + [c])[0] == 'f';
      }
    }
  }
}

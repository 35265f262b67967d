/**
 Strings as RFC 8259 and RFC 3629 define them, apart from the printer and the tokener, and
 what both make of them: every printed string is in the grammar and denotes its bytes, and
 every string of the grammar is read to the bytes it denotes.
 */
module JsonText {
  import opened Options
  import opened JsonValue
  import opened JsonTokener
  import opened JsonRoundTrip

  // ----- UTF-8: section 4 of RFC 3629 -----

  predicate Byte(c: char, lo: int, hi: int) { lo <= c as int <= hi }

  predicate Tail(c: char) { Byte(c, 0x80, 0xBF) }

  /** The character that a sequence of one to four bytes stands for, by the table of well-formed sequences. */
  function Utf8Decode(s: string): Option<nat> {
    if |s| == 1 && Byte(s[0], 0x00, 0x7F) then Some(s[0] as int)
    else if |s| == 2 && Byte(s[0], 0xC2, 0xDF) && Tail(s[1]) then
      Some((s[0] as int - 0xC0) * 64 + (s[1] as int - 0x80))
    else if |s| == 3 && Three(s) && Tail(s[2]) then
      Some((s[0] as int - 0xE0) * 4096 + (s[1] as int - 0x80) * 64 + (s[2] as int - 0x80))
    else if |s| == 4 && Four(s) && Tail(s[2]) && Tail(s[3]) then
      Some((s[0] as int - 0xF0) * 262144 + (s[1] as int - 0x80) * 4096 + (s[2] as int - 0x80) * 64 + (s[3] as int - 0x80))
    else None
  }

  /** The first two of three bytes: no overlong form and no surrogate. */
  predicate Three(s: string)
    requires |s| >= 2
  {
    || (Byte(s[0], 0xE0, 0xE0) && Byte(s[1], 0xA0, 0xBF))
    || (Byte(s[0], 0xE1, 0xEC) && Tail(s[1]))
    || (Byte(s[0], 0xED, 0xED) && Byte(s[1], 0x80, 0x9F))
    || (Byte(s[0], 0xEE, 0xEF) && Tail(s[1]))
  }

  /** The first two of four bytes: no overlong form and nothing above 10FFFF. */
  predicate Four(s: string)
    requires |s| >= 2
  {
    || (Byte(s[0], 0xF0, 0xF0) && Byte(s[1], 0x90, 0xBF))
    || (Byte(s[0], 0xF1, 0xF3) && Tail(s[1]))
    || (Byte(s[0], 0xF4, 0xF4) && Byte(s[1], 0x80, 0x8F))
  }

  predicate IsSurrogate(u: nat) { 0xD800 <= u < 0xE000 }

  /**
   The encoder of the tokener gives a sequence that decodes to the character.  Those whose low
   half looks like a low surrogate, in any plane, decode to the replacement character U+FFFD.
   */
  lemma Utf8Decodes(u: nat)
    requires u < 0x11_0000 && !(0xD800 <= u < 0xDC00)
    ensures Utf8Decode(Utf8(u)) == Some(if 0xDC00 <= u % 0x1_0000 < 0xE000 then 0xFFFD else u)
  {
    if u < 0x800 {
      TwoByteChar(u);
    } else if 0xDC00 <= u % 0x1_0000 < 0xE000 {
      assert Utf8(u) == REPLACEMENT;
    } else {
      LongChar(u);
    }
  }

  lemma TwoByteChar(u: nat)
    requires u < 0x800
    ensures Utf8Decode(Utf8(u)) == Some(u)
  {
  }

  lemma LongChar(u: nat)
    requires 0x800 <= u < 0x11_0000 && !(0xD800 <= u < 0xDC00) && !(0xDC00 <= u % 0x1_0000 < 0xE000)
    ensures Utf8Decode(Utf8(u)) == Some(u)
  {
    hide Utf8Decode;
    if u < 0x1_0000 {
      DigitsOf(u);
      ThreeBytes(u / 4096, u / 64 % 64, u % 64);
    } else {
      DigitsOf(u);
      FourBytes(u / 262144, u / 4096 % 64, u / 64 % 64, u % 64);
    }
  }

  /** The digits of a number to the base 64. */
  lemma DigitsOf(u: nat)
    ensures u < 0x1_0000 ==> u == 4096 * (u / 4096) + 64 * (u / 64 % 64) + u % 64
    ensures u < 0x11_0000 ==> u == 262144 * (u / 262144) + 4096 * (u / 4096 % 64) + 64 * (u / 64 % 64) + u % 64
  {
    var q := u / 64;
    assert u == 64 * q + u % 64;
    assert u / 4096 == q / 64;
    assert q == 64 * (q / 64) + q % 64;
    var p := u / 4096;
    assert u / 262144 == p / 64;
    assert p == 64 * (p / 64) + p % 64;
  }

  lemma ThreeBytes(a: nat, b: nat, c: nat)
    requires a < 16 && b < 64 && c < 64
    requires a == 0 ==> b >= 32
    requires a == 13 ==> b < 32
    ensures Utf8Decode([(0xE0 + a) as char, (0x80 + b) as char, (0x80 + c) as char]) == Some(4096 * a + 64 * b + c)
  {
  }

  lemma FourBytes(a: nat, b: nat, c: nat, d: nat)
    requires a < 5 && b < 64 && c < 64 && d < 64
    requires a == 0 ==> b >= 16
    requires a == 4 ==> b < 16
    ensures Utf8Decode([(0xF0 + a) as char, (0x80 + b) as char, (0x80 + c) as char, (0x80 + d) as char]) ==
            Some(262144 * a + 4096 * b + 64 * c + d)
  {
  }

  // ----- hexadecimal digits -----

  function HexValue(c: char): Option<nat> {
    if '0' <= c <= '9' then Some(c as int - '0' as int)
    else if 'a' <= c <= 'f' then Some(10 + c as int - 'a' as int)
    else if 'A' <= c <= 'F' then Some(10 + c as int - 'A' as int)
    else None
  }

  /** The number that four hexadecimal digits stand for. */
  function CodeUnit(h: string): Option<nat> {
    if |h| == 4 && HexValue(h[0]).Some? && HexValue(h[1]).Some? && HexValue(h[2]).Some? && HexValue(h[3]).Some? then
      Some(4096 * HexValue(h[0]).value + 256 * HexValue(h[1]).value + 16 * HexValue(h[2]).value + HexValue(h[3]).value)
    else None
  }

  lemma HexAgrees(c: char)
    requires HexValue(c).Some?
    ensures IsHexChar(c) && HexDigit(c) == HexValue(c).value && HexValue(c).value < 16 && c != NUL
  {
  }

  // ----- strings: section 7 of RFC 8259 -----

  /** The characters that a backslash and one letter stand for. */
  function ShortEscape(e: char): Option<char> {
    if e == '"' then Some('"')
    else if e == '\\' then Some('\\')
    else if e == '/' then Some('/')
    else if e == 'b' then Some('\U{0008}')
    else if e == 'f' then Some('\U{000C}')
    else if e == 'n' then Some('\U{000A}')
    else if e == 'r' then Some('\U{000D}')
    else if e == 't' then Some('\U{0009}')
    else None
  }

  /** The first character of a string body, escaped or not: how long its text is, or 0 if there is none. */
  function FirstLength(body: string): (n: nat)
    ensures n <= |body|
  {
    if body == "" then 0
    else if body[0] == '\\' then
      if |body| >= 2 && ShortEscape(body[1]).Some? then 2
      else if |body| >= 6 && body[1] == 'u' && CodeUnit(body[2..6]).Some? then 6
      else 0
    else if body[0] >= ' ' && body[0] != '"' then 1
    else 0
  }

  /**
   What may stand between the quotes: no control character, no bare quote, and a backslash
   only before an escape letter or u and four hexadecimal digits.
   */
  predicate InGrammar(body: string)
    decreases |body|
  {
    body == "" || (FirstLength(body) > 0 && InGrammar(body[FirstLength(body)..]))
  }

  /** The bytes stand for the first character of the body. */
  ghost predicate FirstDenotes(body: string, bytes: string)
    requires FirstLength(body) > 0
  {
    match FirstLength(body)
    case 1 => bytes == [body[0]]
    case 2 => bytes == [ShortEscape(body[1]).value]
    case _ => Utf8Decode(bytes) == CodeUnit(body[2..6])
  }

  /** The bytes are those of the characters of the body, one after the other. */
  ghost predicate Denotes(body: string, bytes: string)
    decreases |body|
  {
    if body == "" then bytes == ""
    else
      && FirstLength(body) > 0
      && exists k: nat :: k <= |bytes| && FirstDenotes(body, bytes[..k]) && Denotes(body[FirstLength(body)..], bytes[k..])
  }

  /** No escape for a surrogate. */
  predicate NoSurrogates(body: string)
    decreases |body|
  {
    FirstLength(body) > 0 ==>
      && (FirstLength(body) == 6 ==> !IsSurrogate(CodeUnit(body[2..6]).value))
      && NoSurrogates(body[FirstLength(body)..])
  }

  // ----- the printer -----

  /** The printed form of every character, by its text. */
  lemma EscapeTexts(c: char)
    ensures EscapeChar('\U{0008}') == "\\b" && EscapeChar('\U{0009}') == "\\t" && EscapeChar('\U{000A}') == "\\n"
    ensures EscapeChar('\U{000C}') == "\\f" && EscapeChar('\U{000D}') == "\\r"
    ensures EscapeChar('"') == "\\\"" && EscapeChar('\\') == "\\\\" && EscapeChar('/') == "\\/"
    ensures c >= ' ' && c !in {'"', '\\', '/'} ==> EscapeChar(c) == [c]
    ensures c < ' ' && c !in {'\U{0008}', '\U{0009}', '\U{000A}', '\U{000C}', '\U{000D}'} ==>
      && |EscapeChar(c)| == 6 && EscapeChar(c)[..4] == "\\u00" && CodeUnit(EscapeChar(c)[2..]) == Some(c as int)
      && forall i :: 2 <= i < 6 ==> !('A' <= EscapeChar(c)[i] <= 'Z')
  {
    if c < ' ' {
      HexCharValue(c as int / 16);
      HexCharValue(c as int % 16);
    }
  }

  lemma HexCharValue(n: nat)
    requires n < 16
    ensures HexValue(HexChar(n)) == Some(n) && !('A' <= HexChar(n) <= 'Z')
  {
  }

  /** One printed character in front of a body. */
  lemma EscapedFirst(c: char, rest: string)
    ensures FirstLength(EscapeChar(c) + rest) == |EscapeChar(c)| > 0
    ensures FirstDenotes(EscapeChar(c) + rest, [c])
  {
    EscapeTexts(c);
    var body := EscapeChar(c) + rest;
    if |EscapeChar(c)| == 6 {
      assert body[2..6] == EscapeChar(c)[2..];
    }
  }

  /** Every printed string is a string of the grammar and denotes what was printed. */
  lemma {:induction false} EscapeDenotes(s: string)
    ensures InGrammar(Escape(s)) && Denotes(Escape(s), s)
  {
    hide EscapeChar, FirstLength, FirstDenotes;
    if s != "" {
      EscapeDenotes(s[1..]);
      EscapedFirst(s[0], Escape(s[1..]));
      assert Escape(s)[|EscapeChar(s[0])|..] == Escape(s[1..]);
      assert s[..1] == [s[0]];
    }
  }

  // ----- the tokener -----

  /** Reading one hexadecimal digit of either case, but for the last. */
  lemma ReadHexDigit(cfg: Config, st: State, c: char) returns (st': State)
    requires Valid(st) && st.top.state.EscapeUnicode? && HexValue(c).Some?
    requires st.stPos < 3 && st.ucs < 0x1_0000
    ensures Reads(cfg, st, [c], st')
    ensures st' == st.(ucs := st.ucs + HexValue(c).value * Shift(st.stPos), stPos := st.stPos + 1)
  {
    HexAgrees(c);
    st' := st.(ucs := st.ucs + HexValue(c).value * Shift(st.stPos), stPos := st.stPos + 1);
    ReadsStep(cfg, st, c, st');
  }

  lemma ReadFourthDigit(cfg: Config, st: State, base: State, t: string, c: char, u: nat) returns (st': State)
    requires Valid(st) && st.top.state.EscapeUnicode? && HexValue(c).Some? && st.stPos == 3
    requires u == st.ucs + HexValue(c).value && u < 0x1_0000 && !(0xD800 <= u < 0xDC00)
    requires st.below == base.below && st.top.saved == base.top.state
    requires st.top.current == base.top.current && st.top.fieldName == base.top.fieldName
    requires st.quote == '"' && st.pb == t
    ensures Reads(cfg, st, [c], st') && InText(st', base, t + Utf8(u))
  {
    hide Utf8;
    HexAgrees(c);
    st' := Goto(st.(ucs := u, stPos := 4), st.top.saved).(pb := st.pb + Utf8(u));
    ReadsStep(cfg, st, c, st');
  }

  /**
   A unicode escape in a string or field name, with digits of either case, appends the bytes
   of its character, and those of the replacement character for a low surrogate.
   */
  lemma ReadUnicodeEscape(cfg: Config, st: State, base: State, t: string, h: string, u: nat)
      returns (st': State, bytes: string)
    requires InText(st, base, t) && CodeUnit(h) == Some(u) && !(0xD800 <= u < 0xDC00)
    ensures Reads(cfg, st, "\\u" + h, st') && InText(st', base, t + bytes)
    ensures Utf8Decode(bytes) == Some(if IsSurrogate(u) then 0xFFFD else u)
  {
    hide Feed, FeedAll, Clean, Step, Reads, Utf8, Utf8Decode;
    var st2 := ReadUnicodeStart(cfg, st);
    var st3 := ReadHexDigit(cfg, st2, h[0]);
    HexAgrees(h[0]);
    HexAgrees(h[1]);
    HexAgrees(h[2]);
    HexAgrees(h[3]);
    var st4 := ReadHexDigit(cfg, st3, h[1]);
    var st5 := ReadHexDigit(cfg, st4, h[2]);
    st' := ReadFourthDigit(cfg, st5, base, t, h[3], u);
    ReadsThen(cfg, st, "\\u", st2, [h[0]], st3);
    ReadsThen(cfg, st, "\\u" + [h[0]], st3, [h[1]], st4);
    ReadsThen(cfg, st, "\\u" + [h[0]] + [h[1]], st4, [h[2]], st5);
    ReadsThen(cfg, st, "\\u" + [h[0]] + [h[1]] + [h[2]], st5, [h[3]], st');
    assert "\\u" + [h[0]] + [h[1]] + [h[2]] + [h[3]] == "\\u" + h;
    bytes := Utf8(u);
    Utf8Decodes(u);
  }

  /** The first character of a body is read to its bytes. */
  lemma ReadFirst(cfg: Config, st: State, base: State, t: string, body: string) returns (st': State, bytes: string)
    requires InText(st, base, t) && FirstLength(body) > 0 && NoSurrogates(body)
    ensures Reads(cfg, st, body[..FirstLength(body)], st') && InText(st', base, t + bytes) && FirstDenotes(body, bytes)
  {
    hide Feed, FeedAll, Clean, Step, Reads, InText, Utf8Decode;
    var n := FirstLength(body);
    if n == 6 {
      st', bytes := ReadUnicodeEscape(cfg, st, base, t, body[2..6], CodeUnit(body[2..6]).value);
      assert body[..6] == "\\u" + body[2..6];
    } else if n == 2 {
      ReadShortEscape(cfg, st, base, t, body[1]);
      bytes := [ShortEscape(body[1]).value];
      assert Unescaped(body[1]) == ShortEscape(body[1]).value;
      assert body[..2] == ['\\', body[1]];
      st' :| Reads(cfg, st, ['\\', body[1]], st') && InText(st', base, t + [Unescaped(body[1])]);
    } else {
      bytes := [body[0]];
      assert body[..1] == bytes;
      st' := ReadRaw(cfg, st, base, t, body[0]);
    }
  }

  lemma ReadRaw(cfg: Config, st: State, base: State, t: string, c: char) returns (st': State)
    requires InText(st, base, t) && c != '"' && c != '\\' && c != NUL
    ensures Reads(cfg, st, [c], st') && InText(st', base, t + [c])
  {
    st' := st.(pb := st.pb + [c]);
    ReadsStep(cfg, st, c, st');
  }

  /** Every string of the grammar without surrogates is read, in strings and field names, to bytes that it denotes. */
  lemma {:induction false} ReadBody(cfg: Config, st: State, base: State, t: string, body: string)
      returns (st': State, bytes: string)
    requires InText(st, base, t) && InGrammar(body) && NoSurrogates(body)
    ensures Reads(cfg, st, body, st') && InText(st', base, t + bytes) && Denotes(body, bytes)
    decreases |body|
  {
    hide Feed, Step, FirstDenotes, FirstLength;
    if body == "" {
      st', bytes := st, "";
      assert t + bytes == t;
      ReadsNothing(cfg, st);
    } else {
      var n := FirstLength(body);
      var st1, first := ReadFirst(cfg, st, base, t, body);
      var rest: string;
      st', rest := ReadBody(cfg, st1, base, t + first, body[n..]);
      ReadsThen(cfg, st, body[..n], st1, body[n..], st');
      assert body[..n] + body[n..] == body;
      bytes := first + rest;
      assert t + first + rest == t + bytes;
      assert bytes[..|first|] == first && bytes[|first|..] == rest;
    }
  }
}

/** The recursive printers of json_object.c, appending to a shared print buffer. */
module JsonPrinter {
  import opened JsonValue

  class PrintBuf {
    var buf: string

    constructor ()
      ensures buf == ""
    {
      buf := "";
    }

    /** printbuf_memappend and sprintbuf with a plain string. */
    method Append(s: string)
      modifies this
      ensures buf == old(buf) + s
    {
      buf := buf + s;
    }
  }

  /** Characters that json_escape_str copies as they are. */
  predicate Literal(s: string) { forall c <- s :: EscapeChar(c) == [c] }

  lemma {:induction false} EscapeConcat(a: string, b: string)
    ensures Escape(a + b) == Escape(a) + Escape(b)
  {
    hide EscapeChar;
    if a == "" {
      assert a + b == b;
    } else {
      assert (a + b)[0] == a[0] && (a + b)[1..] == a[1..] + b;
      EscapeConcat(a[1..], b);
    }
  }

  lemma {:induction false} EscapeLiteral(s: string)
    requires Literal(s)
    ensures Escape(s) == s
  {
    hide EscapeChar;
    if s != "" {
      assert s[0] in s;
      forall c <- s[1..] ensures EscapeChar(c) == [c] { assert c in s; }
      EscapeLiteral(s[1..]);
    }
  }

  lemma EscapeSnoc(s: string, c: char)
    ensures Escape(s + [c]) == Escape(s) + EscapeChar(c)
  {
    hide EscapeChar;
    EscapeConcat(s, [c]);
    assert [c][1..] == "";
  }

  /**
   json_escape_str: runs of ordinary characters are appended in one piece, between the
   escapes of the others.
   */
  method EscapeStr(pb: PrintBuf, str: string)
    modifies pb
    ensures pb.buf == old(pb.buf) + Escape(str)
  {
    hide EscapeChar, Escape;
    var pos, start := 0, 0;
    EscapeLiteral("");
    while pos < |str|
      invariant 0 <= start <= pos <= |str|
      invariant Literal(str[start..pos])
      invariant pb.buf == old(pb.buf) + Escape(str[..start])
    {
      var c := str[pos];
      var run := str[start..pos];
      assert str[..pos] == str[..start] + run;
      assert str[..pos + 1] == str[..pos] + [c];
      EscapeConcat(str[..start], run);
      EscapeLiteral(run);
      EscapeSnoc(str[..pos], c);
      if EscapeChar(c) != [c] {
        if pos - start > 0 {
          pb.Append(run);
        }
        assert pb.buf == old(pb.buf) + Escape(str[..pos]);
        pb.Append(EscapeChar(c));
        pos := pos + 1;
        start := pos;
        assert str[start..pos] == "";
      } else {
        pos := pos + 1;
        assert str[start..pos] == run + [c];
      }
    }
    assert str[..start] + str[start..pos] == str;
    EscapeConcat(str[..start], str[start..pos]);
    EscapeLiteral(str[start..pos]);
    if pos - start > 0 {
      pb.Append(str[start..pos]);
    }
  }

  /** Appending pieces one by one appends their concatenation. */
  lemma Pieces3(s: string, a: string, b: string, c: string)
    ensures s + a + b + c == s + (a + b + c)
  {
  }

  lemma Pieces4(s: string, a: string, b: string, c: string, d: string)
    ensures s + a + b + c + d == s + (a + b + c + d)
  {
  }

  lemma Pieces5(s: string, a: string, b: string, c: string, d: string, e: string)
    ensures s + a + b + c + d + e == s + (a + b + c + d + e)
  {
    Pieces4(s, a, b, c, d);
    assert (s + (a + b + c + d)) + e == s + ((a + b + c + d) + e);
  }

  /** The _to_json_string method of a value, which dispatches on its type. */
  method ToJson(pb: PrintBuf, v: Value, style: Style, level: nat)
    modifies pb
    ensures pb.buf == old(pb.buf) + Print(v, style, level)
    decreases v, 1
  {
    match v
    case Null => pb.Append("null");
    case Bool(b) => BooleanToJson(pb, b, style, level);
    case Int(i) => pb.Append(PrintInt(i));
    case Double(text) => pb.Append(text);
    case Str(s) => StringToJson(pb, s, style, level);
    case Array(items) => ArrayToJson(pb, v, style, level);
    case Object(fields) => ObjectToJson(pb, v, style, level);
  }

  method BooleanToJson(pb: PrintBuf, b: bool, style: Style, level: nat)
    modifies pb
    ensures pb.buf == old(pb.buf) + Print(Bool(b), style, level)
  {
    if b {
      pb.Append("true");
    } else {
      pb.Append("false");
    }
  }

  method StringToJson(pb: PrintBuf, s: string, style: Style, level: nat)
    modifies pb
    ensures pb.buf == old(pb.buf) + Print(Str(s), style, level)
  {
    hide Escape;
    pb.Append("\"");
    EscapeStr(pb, s);
    pb.Append("\"");
    Pieces3(old(pb.buf), "\"", Escape(s), "\"");
  }

  method AppendLead(pb: PrintBuf, style: Style, hadChildren: bool, level: nat)
    modifies pb
    ensures pb.buf == old(pb.buf) + BeforeChild(style, !hadChildren, level)
  {
    if hadChildren {
      pb.Append(",");
      if style.pretty {
        pb.Append("\n");
      }
    }
    if style.spaced {
      pb.Append(" ");
    }
    if style.pretty {
      pb.Append(Spaces(2 * (level + 1)));
    }
  }

  method AppendTrail(pb: PrintBuf, style: Style, hadChildren: bool, level: nat)
    modifies pb
    ensures pb.buf == old(pb.buf) + Trail(style, level, hadChildren)
  {
    if style.pretty {
      if hadChildren {
        pb.Append("\n");
      }
      pb.Append(Spaces(2 * level));
    }
    if style.spaced {
      pb.Append(" ");
    }
  }

  method ArrayToJson(pb: PrintBuf, v: Value, style: Style, level: nat)
    requires v.Array?
    modifies pb
    ensures pb.buf == old(pb.buf) + Print(v, style, level)
    decreases v, 0
  {
    hide Print, PrintItems, Trail, BeforeChild, Newline;
    var items := v.items;
    pb.Append("[");
    pb.Append(Newline(style));
    var hadChildren := false;
    var ii := 0;
    ghost var open := pb.buf;
    assert items[0..] == items;
    while ii < |items|
      invariant 0 <= ii <= |items| && hadChildren == (ii > 0)
      invariant pb.buf + PrintItems(items[ii..], !hadChildren, style, level)
             == open + PrintItems(items, true, style, level)
    {
      ghost var before := pb.buf;
      AppendLead(pb, style, hadChildren, level);
      ToJson(pb, items[ii], style, level + 1);
      NextItem(before, items, ii, !hadChildren, style, level);
      hadChildren := true;
      ii := ii + 1;
    }
    NoItems(items[ii..], !hadChildren, style, level);
    assert pb.buf + "" == pb.buf;
    AppendTrail(pb, style, hadChildren, level);
    pb.Append("]");
    ArrayPrint(items, style, level);
    Pieces5(old(pb.buf), "[", Newline(style), PrintItems(items, true, style, level), Trail(style, level, items != []), "]");
  }

  lemma NoItems(items: seq<Value>, first: bool, style: Style, level: nat)
    requires items == []
    ensures PrintItems(items, first, style, level) == ""
  {
  }

  lemma NextItem(before: string, items: seq<Value>, ii: nat, first: bool, style: Style, level: nat)
    requires ii < |items|
    ensures before + PrintItems(items[ii..], first, style, level)
         == before + BeforeChild(style, first, level) + Print(items[ii], style, level + 1)
            + PrintItems(items[ii + 1..], false, style, level)
  {
    hide Print, BeforeChild;
    assert items[ii..][0] == items[ii] && items[ii..][1..] == items[ii + 1..];
    Pieces3(before, BeforeChild(style, first, level), Print(items[ii], style, level + 1),
            PrintItems(items[ii + 1..], false, style, level));
  }

  lemma ArrayPrint(items: seq<Value>, style: Style, level: nat)
    ensures Print(Array(items), style, level)
         == "[" + Newline(style) + PrintItems(items, true, style, level) + Trail(style, level, items != []) + "]"
  {
  }

  method ObjectToJson(pb: PrintBuf, v: Value, style: Style, level: nat)
    requires v.Object?
    modifies pb
    ensures pb.buf == old(pb.buf) + Print(v, style, level)
    decreases v, 0
  {
    hide Print, PrintFields, Trail, BeforeChild, Newline, PrintName;
    var fields := v.fields;
    pb.Append("{");
    pb.Append(Newline(style));
    var hadChildren := false;
    var i := 0;
    ghost var open := pb.buf;
    assert fields[0..] == fields;
    while i < |fields|
      invariant 0 <= i <= |fields| && hadChildren == (i > 0)
      invariant pb.buf + PrintFields(fields[i..], !hadChildren, style, level)
             == open + PrintFields(fields, true, style, level)
    {
      ghost var before := pb.buf;
      AppendLead(pb, style, hadChildren, level);
      AppendName(pb, fields[i].key, style);
      ToJson(pb, fields[i].value, style, level + 1);
      NextField(before, fields, i, !hadChildren, style, level);
      hadChildren := true;
      i := i + 1;
    }
    NoFields(fields[i..], !hadChildren, style, level);
    assert pb.buf + "" == pb.buf;
    AppendTrail(pb, style, hadChildren, level);
    pb.Append("}");
    ObjectPrint(fields, style, level);
    Pieces5(old(pb.buf), "{", Newline(style), PrintFields(fields, true, style, level), Trail(style, level, fields != []), "}");
  }

  method AppendName(pb: PrintBuf, key: string, style: Style)
    modifies pb
    ensures pb.buf == old(pb.buf) + PrintName(key, style)
  {
    hide Escape, CStr;
    pb.Append("\"");
    EscapeStr(pb, CStr(key));
    pb.Append(Colon(style));
    Pieces3(old(pb.buf), "\"", Escape(CStr(key)), Colon(style));
  }

  lemma NoFields(fields: seq<Field>, first: bool, style: Style, level: nat)
    requires fields == []
    ensures PrintFields(fields, first, style, level) == ""
  {
  }

  lemma NextField(before: string, fields: seq<Field>, i: nat, first: bool, style: Style, level: nat)
    requires i < |fields|
    ensures before + PrintFields(fields[i..], first, style, level)
         == before + BeforeChild(style, first, level) + PrintName(fields[i].key, style)
            + Print(fields[i].value, style, level + 1) + PrintFields(fields[i + 1..], false, style, level)
  {
    hide Print, BeforeChild, PrintName;
    assert fields[i..][0] == fields[i] && fields[i..][1..] == fields[i + 1..];
    Pieces4(before, BeforeChild(style, first, level), PrintName(fields[i].key, style),
            Print(fields[i].value, style, level + 1), PrintFields(fields[i + 1..], false, style, level));
  }

  lemma ObjectPrint(fields: seq<Field>, style: Style, level: nat)
    ensures Print(Object(fields), style, level)
         == "{" + Newline(style) + PrintFields(fields, true, style, level) + Trail(style, level, fields != []) + "}"
  {
  }
}

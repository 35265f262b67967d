/**
 JSON texts as sections 2 to 7 of RFC 8259 define them, as a relation between a text and the
 value it means.  It knows nothing of the printer or the tokener.  Every printed tree is a
 text of this grammar that means the tree.
 */
module JsonGrammar {
  import opened Options
  import opened JsonValue
  import opened JsonText
  import JsonTokener

  // ----- white space and numbers -----

  predicate Ws(s: string) { forall c <- s :: c == ' ' || c == '\t' || c == '\n' || c == '\r' }

  /** The number that decimal digits stand for. */
  function Decimal(s: string): int {
    if s == "" then 0 else 10 * Decimal(s[..|s| - 1]) + (s[|s| - 1] as int - '0' as int)
  }

  predicate Digits(s: string) { s != "" && forall c <- s :: '0' <= c <= '9' }

  /** Digits without a superfluous zero in front. */
  predicate Whole(s: string) { Digits(s) && (s[0] == '0' ==> |s| == 1) }

  /** A number without fraction and exponent. */
  predicate IntText(s: string, i: int) {
    if s != "" && s[0] == '-' then Whole(s[1..]) && i == -Decimal(s[1..]) else Whole(s) && i == Decimal(s)
  }

  /** An integer cut off at the 64-bit range. */
  function Saturated(i: int): int {
    if i < -0x8000_0000_0000_0000 then -0x8000_0000_0000_0000 else if i > 0x7FFF_FFFF_FFFF_FFFF then 0x7FFF_FFFF_FFFF_FFFF else i
  }

  /** json_parse_int64 takes a sign, digits with any zeros in front and anything behind them, and cuts the value off. */
  lemma Int64Meaning(digits: string, rest: string)
    requires Digits(digits) && (rest != "" ==> !('0' <= rest[0] <= '9'))
    ensures JsonTokener.ParseInt64(digits + rest) == Some(Saturated(Decimal(digits)))
    ensures JsonTokener.ParseInt64("-" + (digits + rest)) == Some(Saturated(-Decimal(digits)))
    ensures JsonTokener.ParseInt64("-" + rest) == None
  {
    hide Decimal;
    LeadingOf(digits, rest);
    LeadingOf("", rest);
    DecimalAgrees(digits);
    assert digits[0] in digits;
    assert ("-" + (digits + rest))[1..] == digits + rest;
    assert ("-" + rest)[1..] == rest && "" + rest == rest;
  }

  lemma {:induction false} LeadingOf(digits: string, rest: string)
    requires (forall c <- digits :: '0' <= c <= '9') && (rest != "" ==> !('0' <= rest[0] <= '9'))
    ensures JsonTokener.LeadingDigits(digits + rest) == digits
  {
    if digits == "" {
      assert digits + rest == rest;
    } else {
      assert digits[0] in digits;
      forall c <- digits[1..] ensures '0' <= c <= '9' { assert c in digits; }
      LeadingOf(digits[1..], rest);
      assert (digits + rest)[1..] == digits[1..] + rest;
    }
  }

  lemma {:induction false} DecimalAgrees(s: string)
    requires forall c <- s :: JsonTokener.IsDigit(c)
    ensures JsonTokener.DigitsValue(s) == Decimal(s)
  {
    if s != "" {
      DecimalAgrees(s[..|s| - 1]);
    }
  }

  // ----- values -----

  ghost predicate StringText(s: string, bytes: string) {
    |s| >= 2 && s[0] == '"' && s[|s| - 1] == '"' && InGrammar(s[1..|s| - 1]) && Denotes(s[1..|s| - 1], bytes)
  }

  /** The text means the value. */
  ghost predicate Means(s: string, v: Value)
    decreases v, 1
  {
    match v
    case Null => s == "null"
    case Bool(b) => s == if b then "true" else "false"
    case Int(i) => IntText(s, i)
    case Double(_) => false
    case Str(bytes) => StringText(s, bytes)
    case Array(items) => |s| >= 2 && s[0] == '[' && s[|s| - 1] == ']' && ItemsMean(s[1..|s| - 1], items)
    case Object(fields) => |s| >= 2 && s[0] == '{' && s[|s| - 1] == '}' && FieldsMean(s[1..|s| - 1], fields)
  }

  /** Items with commas between them and white space anywhere. */
  ghost predicate ItemsMean(s: string, items: seq<Value>)
    decreases items, 0
  {
    if items == [] then Ws(s)
    else exists first, rest ::
      && s == first + rest && Padded(first, items[0])
      && if |items| == 1 then rest == "" else rest != "" && rest[0] == ',' && ItemsMean(rest[1..], items[1..])
  }

  /** A value with white space around it. */
  ghost predicate Padded(s: string, v: Value)
    decreases v, 2
  {
    exists before, x, after :: s == before + x + after && Ws(before) && Means(x, v) && Ws(after)
  }

  ghost predicate FieldsMean(s: string, fields: seq<Field>)
    decreases fields, 0
  {
    if fields == [] then Ws(s)
    else exists first, rest ::
      && s == first + rest && FieldMeans(first, fields[0])
      && if |fields| == 1 then rest == "" else rest != "" && rest[0] == ',' && FieldsMean(rest[1..], fields[1..])
  }

  /** A name, a colon and a value with white space anywhere between them. */
  ghost predicate FieldMeans(s: string, f: Field)
    decreases f, 3
  {
    exists before, name, between, x ::
      && s == before + name + between + ":" + x && Ws(before) && StringText(name, f.key) && Ws(between)
      && Padded(x, f.value)
  }

  // ----- the printer prints it -----

  lemma {:induction false} PrintNatIsWhole(n: nat)
    ensures Whole(PrintNat(n)) && Decimal(PrintNat(n)) == n && (n > 0 ==> PrintNat(n)[0] != '0')
  {
    var s := PrintNat(n);
    if n >= 10 {
      PrintNatIsWhole(n / 10);
      assert s[..|s| - 1] == PrintNat(n / 10) && s[|s| - 1] == DigitChar(n % 10);
      assert s[0] == PrintNat(n / 10)[0];
    } else {
      assert s[..0] == "" && s == [DigitChar(n)];
      assert Decimal(s[..|s| - 1]) == 0;
    }
  }

  lemma PrintIntMeans(i: int)
    ensures IntText(PrintInt(i), i)
  {
    hide PrintNat;
    if i < 0 {
      PrintNatIsWhole(-i);
      assert PrintInt(i)[1..] == PrintNat(-i);
    } else {
      PrintNatIsWhole(i);
      assert PrintNat(i)[0] in PrintNat(i);
    }
  }

  lemma QuotedMeans(bytes: string)
    ensures StringText("\"" + Escape(bytes) + "\"", bytes)
  {
    hide InGrammar, Denotes, Escape;
    EscapeDenotes(bytes);
    var s := "\"" + Escape(bytes) + "\"";
    assert s[1..|s| - 1] == Escape(bytes);
  }

  lemma WsJoin(a: string, b: string)
    requires Ws(a) && Ws(b)
    ensures Ws(a + b)
  {
  }

  /** The layout is white space. */
  lemma LayoutIsWs(style: Style, level: nat, children: bool)
    ensures Ws(Newline(style)) && Ws(Lead(style, level)) && Ws(Trail(style, level, children))
  {
  }

  lemma Inside(open: string, a: string, b: string, c: string, close: string)
    requires |open| == |close| == 1
    ensures var s := open + a + b + c + close;
      |s| >= 2 && s[0] == open[0] && s[|s| - 1] == close[0] && s[1..|s| - 1] == a + b + c
  {
  }

  /** Every printed tree is a text of the grammar that means the tree, in every style. */
  lemma {:induction false} PrintMeans(v: Value, style: Style, level: nat)
    requires Printable(v)
    ensures Means(Print(v, style, level), v)
    decreases v, 1
  {
    hide Escape, PrintInt, IntText, StringText, Lead, Trail, Newline, Ws;
    match v
    case Null =>
    case Bool(_) =>
    case Int(i) => PrintIntMeans(i);
    case Str(bytes) => QuotedMeans(bytes);
    case Array(items) =>
      LayoutIsWs(style, level, items != []);
      var nl, tr := Newline(style), Trail(style, level, items != []);
      Inside("[", nl, PrintItems(items, true, style, level), tr, "]");
      if items == [] {
        WsJoin(nl, tr);
        assert nl + "" + tr == nl + tr;
      } else {
        PrintItemsMean(items, style, level, nl, tr);
        NextItemText(items, true, style, level, nl, tr);
      }
    case Object(fields) =>
      LayoutIsWs(style, level, fields != []);
      var nl, tr := Newline(style), Trail(style, level, fields != []);
      Inside("{", nl, PrintFields(fields, true, style, level), tr, "}");
      if fields == [] {
        WsJoin(nl, tr);
        assert nl + "" + tr == nl + tr;
      } else {
        PrintFieldsMean(fields, style, level, nl, tr);
        NextFieldText(fields, true, style, level, nl, tr);
      }
  }

  /** The items from the first one on, with `pre` and `post` around them. */
  function ItemsText(items: seq<Value>, style: Style, level: nat, pre: string, post: string): string
    requires items != []
  {
    pre + Lead(style, level) + Print(items[0], style, level + 1) + (PrintItems(items[1..], false, style, level) + post)
  }

  lemma NextItemText(items: seq<Value>, first: bool, style: Style, level: nat, pre: string, post: string)
    requires items != []
    ensures pre + PrintItems(items, first, style, level) + post ==
            if first then ItemsText(items, style, level, pre, post)
            else pre + "," + ItemsText(items, style, level, Newline(style), post)
  {
    hide Print, Lead, Newline;
    var lead, x, rest := Lead(style, level), Print(items[0], style, level + 1), PrintItems(items[1..], false, style, level);
    Joined(pre, Separator(style, first), lead, x, rest, post);
    Commas(pre, Newline(style), lead, x, rest + post);
    Nothing(pre, lead);
  }

  lemma Joined(pre: string, sep: string, lead: string, x: string, rest: string, post: string)
    ensures pre + (sep + lead + x + rest) + post == pre + sep + lead + x + (rest + post)
  {
  }

  lemma Commas(pre: string, nl: string, lead: string, x: string, rest: string)
    ensures pre + ("," + nl) + lead + x + rest == pre + "," + (nl + lead + x + rest)
  {
  }

  lemma Nothing(pre: string, lead: string)
    ensures pre + "" + lead == pre + lead && pre + "" == pre && "" + pre == pre
  {
  }

  lemma {:induction false} PrintItemsMean(items: seq<Value>, style: Style, level: nat, pre: string, post: string)
    requires items != [] && (forall x <- items :: Printable(x)) && Ws(pre) && Ws(post)
    ensures ItemsMean(ItemsText(items, style, level, pre, post), items)
    decreases items, 0
  {
    hide Print, Lead, Newline, Means, Ws, PrintItems, Padded;
    assert items[0] in items;
    PrintMeans(items[0], style, level + 1);
    LayoutIsWs(style, level, true);
    var lead, x, rest := Lead(style, level), Print(items[0], style, level + 1), PrintItems(items[1..], false, style, level);
    WsJoin(pre, lead);
    var head, s := pre + lead + x, ItemsText(items, style, level, pre, post);
    if |items| == 1 {
      assert items[1..] == [];
      NoItemsText(style, level);
      PaddedText(pre + lead, x, post, items[0]);
      Nothing(post, "");
      Nothing(head + post, "");
      assert s == (head + post) + "";
    } else {
      forall y <- items[1..] ensures Printable(y) { assert y in items; }
      PrintItemsMean(items[1..], style, level, Newline(style), post);
      NextItemText(items[1..], false, style, level, "", post);
      var next := ItemsText(items[1..], style, level, Newline(style), post);
      Nothing(rest, "");
      Nothing(",", "");
      assert rest + post == "," + next;
      EmptyWs();
      PaddedText(pre + lead, x, "", items[0]);
      Nothing(head, "");
      MoreItems(items, s, head, next);
    }
  }

  lemma PaddedText(before: string, x: string, after: string, v: Value)
    requires Ws(before) && Means(x, v) && Ws(after)
    ensures Padded(before + x + after, v)
  {
    hide Ws, Means;
  }

  lemma MoreItems(items: seq<Value>, s: string, head: string, next: string)
    requires |items| > 1 && s == head + ("," + next) && Padded(head, items[0]) && ItemsMean(next, items[1..])
    ensures ItemsMean(s, items)
  {
    hide Padded;
    assert ("," + next)[1..] == next;
  }

  lemma EmptyWs()
    ensures Ws("")
  {
  }

  lemma NoItemsText(style: Style, level: nat)
    ensures PrintItems([], false, style, level) == "" && PrintFields([], false, style, level) == ""
  {
  }

  function FieldsText(fields: seq<Field>, style: Style, level: nat, pre: string, post: string): string
    requires fields != []
  {
    pre + Lead(style, level) + (PrintName(fields[0].key, style) + Print(fields[0].value, style, level + 1))
    + (PrintFields(fields[1..], false, style, level) + post)
  }

  lemma NextFieldText(fields: seq<Field>, first: bool, style: Style, level: nat, pre: string, post: string)
    requires fields != []
    ensures pre + PrintFields(fields, first, style, level) + post ==
            if first then FieldsText(fields, style, level, pre, post)
            else pre + "," + FieldsText(fields, style, level, Newline(style), post)
  {
    hide Print, Lead, Newline, PrintName;
    var lead, rest := Lead(style, level), PrintFields(fields[1..], false, style, level);
    var x := PrintName(fields[0].key, style) + Print(fields[0].value, style, level + 1);
    Named(pre, Separator(style, first), lead, PrintName(fields[0].key, style), Print(fields[0].value, style, level + 1), rest, post);
    Commas(pre, Newline(style), lead, x, rest + post);
    Nothing(pre, lead);
  }

  lemma Named(pre: string, sep: string, lead: string, name: string, x: string, rest: string, post: string)
    ensures pre + (sep + lead + name + x + rest) + post == pre + sep + lead + (name + x) + (rest + post)
    ensures pre + lead + name + x + (rest + post) == pre + lead + (name + x) + (rest + post)
  {
  }

  /** A printed name, and the value behind it with white space. */
  lemma PrintFieldMeans(f: Field, style: Style, level: nat, before: string, after: string)
    requires NUL !in f.key && Ws(before) && Ws(after) && Means(Print(f.value, style, level), f.value)
    ensures FieldMeans(before + (PrintName(f.key, style) + Print(f.value, style, level)) + after, f)
  {
    hide Print, Means, StringText, Ws, Escape, Padded;
    QuotedMeans(f.key);
    GapIsWs(style);
    EmptyWs();
    var name, gap, x := "\"" + Escape(f.key) + "\"", if style.spaced then " " else "", Print(f.value, style, level);
    PaddedText(gap, x, after, f.value);
    assert PrintName(f.key, style) == name + ":" + gap;
    ColonText(before, name, gap, x, after);
  }

  lemma ColonText(before: string, name: string, gap: string, x: string, after: string)
    ensures before + (name + ":" + gap + x) + after == before + name + "" + ":" + (gap + x + after)
  {
  }

  lemma GapIsWs(style: Style)
    ensures Ws(if style.spaced then " " else "")
  {
  }

  lemma {:induction false} PrintFieldsMean(fields: seq<Field>, style: Style, level: nat, pre: string, post: string)
    requires fields != [] && (forall f <- fields :: NUL !in f.key && Printable(f.value)) && Ws(pre) && Ws(post)
    ensures FieldsMean(FieldsText(fields, style, level, pre, post), fields)
    decreases fields, 0
  {
    hide Print, Lead, Newline, Means, Ws, PrintFields, PrintName, FieldMeans;
    var f := fields[0];
    assert f in fields;
    PrintMeans(f.value, style, level + 1);
    LayoutIsWs(style, level, true);
    EmptyWs();
    var lead, rest := Lead(style, level), PrintFields(fields[1..], false, style, level);
    var head := pre + lead + (PrintName(f.key, style) + Print(f.value, style, level + 1));
    WsJoin(pre, lead);
    var s := FieldsText(fields, style, level, pre, post);
    if |fields| == 1 {
      assert fields[1..] == [];
      NoItemsText(style, level);
      PrintFieldMeans(f, style, level + 1, pre + lead, post);
      Nothing(post, "");
      Nothing(head + post, "");
      assert s == (head + post) + "";
    } else {
      forall g <- fields[1..] ensures NUL !in g.key && Printable(g.value) { assert g in fields; }
      PrintFieldsMean(fields[1..], style, level, Newline(style), post);
      NextFieldText(fields[1..], false, style, level, "", post);
      var next := FieldsText(fields[1..], style, level, Newline(style), post);
      Nothing(rest, "");
      Nothing(",", "");
      assert rest + post == "," + next;
      PrintFieldMeans(f, style, level + 1, pre + lead, "");
      Nothing(head, "");
      MoreFields(fields, s, head, next);
    }
  }

  lemma MoreFields(fields: seq<Field>, s: string, head: string, next: string)
    requires |fields| > 1 && s == head + ("," + next) && FieldMeans(head, fields[0]) && FieldsMean(next, fields[1..])
    ensures FieldsMean(s, fields)
  {
    hide FieldMeans;
    assert ("," + next)[1..] == next;
  }

  // ----- the layout of the styles -----

  /** Spaced text has a space behind brackets and commas, and before closing brackets. */
  function Gap(style: Style): string { if style.spaced then " " else "" }

  /** Pretty text breaks the line and indents by two spaces a level. */
  function Break(style: Style, level: nat): string {
    if style.pretty then "\n" + seq(2 * level, _ => ' ') else ""
  }

  /** The line break, the space and the indentation before a child. */
  function Before(style: Style, level: nat): string {
    if style.pretty then "\n" + Gap(style) + seq(2 * level + 2, _ => ' ') else Gap(style)
  }

  lemma LayoutTexts(style: Style, level: nat)
    ensures Newline(style) + Lead(style, level) == Before(style, level)
    ensures Trail(style, level, true) == Break(style, level) + Gap(style)
    ensures Newline(style) + Trail(style, level, false) == Break(style, level) + Gap(style)
  {
  }

  lemma ArrayPrinted(items: seq<Value>, style: Style, level: nat)
    ensures Print(Array(items), style, level) ==
            "[" + Newline(style) + PrintItems(items, true, style, level) + Trail(style, level, items != []) + "]"
  {
  }

  lemma ObjectPrinted(fields: seq<Field>, style: Style, level: nat)
    ensures Print(Object(fields), style, level) ==
            "{" + Newline(style) + PrintFields(fields, true, style, level) + Trail(style, level, fields != []) + "}"
  {
  }

  lemma TwoItems(x: Value, y: Value, style: Style, level: nat)
    ensures var lead := Lead(style, level);
      PrintItems([x, y], true, style, level) ==
      lead + Print(x, style, level + 1) + ("," + Newline(style) + lead + Print(y, style, level + 1))
  {
    hide Print, Lead, Newline;
    assert [x, y][1..] == [y] && [y][1..] == [];
    NoItemsText(style, level);
    var lead, nl, q := Lead(style, level), Newline(style), Print(y, style, level + 1);
    assert PrintItems([y], false, style, level) == "," + nl + lead + q + "";
    assert PrintItems([x, y], true, style, level) ==
           "" + lead + Print(x, style, level + 1) + PrintItems([y], false, style, level);
    Nothing("," + nl + lead + q, "");
    Nothing(lead, "");
  }

  /** An array of two items, for all values, styles and levels. */
  lemma ArrayLayout(x: Value, y: Value, style: Style, level: nat)
    ensures var b, p, q := Before(style, level), Print(x, style, level + 1), Print(y, style, level + 1);
      Print(Array([x, y]), style, level) == "[" + b + p + "," + b + q + (Break(style, level) + Gap(style)) + "]"
  {
    hide Print, Lead, Trail, Newline, Before, Break, Gap, PrintItems;
    LayoutTexts(style, level);
    TwoItems(x, y, style, level);
    ArrayPrinted([x, y], style, level);
    TwoTexts(Newline(style), Lead(style, level), Print(x, style, level + 1), Print(y, style, level + 1), Trail(style, level, true));
  }

  lemma TwoTexts(nl: string, lead: string, p: string, q: string, trail: string)
    ensures "[" + nl + (lead + p + ("," + nl + lead + q)) + trail + "]" ==
            "[" + (nl + lead) + p + "," + (nl + lead) + q + trail + "]"
  {
  }

  /** An object of one field. */
  lemma ObjectLayout(key: string, x: Value, style: Style, level: nat)
    requires NUL !in key
    ensures Print(Object([Field(key, x)]), style, level) ==
            "{" + Before(style, level) + ("\"" + Escape(key) + "\":" + Gap(style)) + Print(x, style, level + 1)
            + (Break(style, level) + Gap(style)) + "}"
  {
    hide Print, Lead, Trail, Newline, Before, Break, Escape;
    LayoutTexts(style, level);
    var f := Field(key, x);
    assert [f][1..] == [];
    NoItemsText(style, level);
    assert PrintName(key, style) == "\"" + Escape(key) + "\":" + Gap(style);
    assert PrintFields([f], true, style, level) ==
           "" + Lead(style, level) + PrintName(key, style) + Print(x, style, level + 1) + "";
    ObjectPrinted([f], style, level);
    OneText(Newline(style), Lead(style, level), PrintName(key, style), Print(x, style, level + 1), Trail(style, level, true));
  }

  lemma OneText(nl: string, lead: string, name: string, p: string, trail: string)
    ensures "{" + nl + ("" + lead + name + p + "") + trail + "}" == "{" + (nl + lead) + name + p + trail + "}"
  {
  }

  /** Empty containers. */
  lemma EmptyLayout(style: Style, level: nat)
    ensures Print(Array([]), style, level) == "[" + (Break(style, level) + Gap(style)) + "]"
    ensures Print(Object([]), style, level) == "{" + (Break(style, level) + Gap(style)) + "}"
  {
    hide Lead, Trail, Newline, Break, Gap;
    LayoutTexts(style, level);
    assert "[" + Newline(style) + "" + Trail(style, level, false) + "]" == "[" + (Newline(style) + Trail(style, level, false)) + "]";
    assert "{" + Newline(style) + "" + Trail(style, level, false) + "}" == "{" + (Newline(style) + Trail(style, level, false)) + "}";
  }
}

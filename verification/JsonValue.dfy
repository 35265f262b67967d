/**
 JSON values of the json-c library, and the text the library prints for them.

 A value is a tree.  A NULL json_object stands for JSON null.  An object keeps
 its fields in insertion order, as the linked hash table behind it does.
 Characters range over all of `char`; byte strings are the ones below 256.
 */
module JsonValue {

  import opened Options

  datatype Value =
    | Null
    | Bool(b: bool)
    | Int(i: int)
    | Double(text: string)
    | Str(s: string)
    | Array(items: seq<Value>)
    | Object(fields: seq<Field>)

  datatype Field = Field(key: string, value: Value)

  const NUL: char := '\0'
  const INT64_MIN: int := -0x8000_0000_0000_0000
  const INT64_MAX: int := 0x7FFF_FFFF_FFFF_FFFF

  /** The C string that starts at `s`: everything before the first NUL. */
  function CStr(s: string): (r: string)
    ensures NUL !in r && r <= s
    ensures NUL !in s ==> r == s
  {
    if s == "" || s[0] == NUL then "" else [s[0]] + CStr(s[1..])
  }

  // ----- objects as ordered field lists -----

  predicate HasKey(fields: seq<Field>, key: string) {
    exists i :: 0 <= i < |fields| && fields[i].key == key
  }

  /** json_object_object_add: replace the value in place, or append a new field. */
  function AddField(fields: seq<Field>, key: string, value: Value): seq<Field> {
    if fields == [] then [Field(key, value)]
    else if fields[0].key == key then [Field(key, value)] + fields[1..]
    else [fields[0]] + AddField(fields[1..], key, value)
  }

  lemma {:induction false} AddNewField(fields: seq<Field>, key: string, value: Value)
    requires !HasKey(fields, key)
    ensures AddField(fields, key, value) == fields + [Field(key, value)]
  {
    if fields != [] {
      assert fields[0].key != key;
      forall i | 0 <= i < |fields[1..]| ensures fields[1..][i].key != key {
        assert fields[i + 1].key != key;
      }
      AddNewField(fields[1..], key, value);
    }
  }

  /** Adding an existing key replaces its value and nothing else. */
  lemma {:induction false} AddExistingField(fields: seq<Field>, key: string, value: Value, i: nat)
    requires i < |fields| && fields[i].key == key && DistinctKeys(fields)
    ensures AddField(fields, key, value) == fields[i := Field(key, value)]
  {
    if i > 0 {
      assert fields[0].key != fields[i].key;
      AddExistingField(fields[1..], key, value, i - 1);
    }
  }

  predicate DistinctKeys(fields: seq<Field>) {
    forall i, j :: 0 <= i < j < |fields| ==> fields[i].key != fields[j].key
  }

  // ----- the trees the printer and the tokener agree on -----

  /** Trees without doubles, with 64-bit integers, and with distinct C-string keys. */
  predicate Printable(v: Value)
    decreases v
  {
    match v
    case Null => true
    case Bool(_) => true
    case Int(i) => INT64_MIN <= i <= INT64_MAX
    case Double(_) => false
    case Str(_) => true
    case Array(items) => forall x <- items :: Printable(x)
    case Object(fields) =>
      && DistinctKeys(fields)
      && forall f <- fields :: NUL !in f.key && Printable(f.value)
  }

  /** How many levels the tokener must push below the level of `v`. */
  function Height(v: Value): nat
    decreases v, 1
  {
    match v
    case Array(items) => ItemsHeight(items)
    case Object(fields) => FieldsHeight(fields)
    case _ => 0
  }

  function ItemsHeight(items: seq<Value>): nat
    decreases items, 0
  {
    if items == [] then 0 else Max(1 + Height(items[0]), ItemsHeight(items[1..]))
  }

  function FieldsHeight(fields: seq<Field>): nat
    decreases fields, 0
  {
    if fields == [] then 0 else Max(1 + Height(fields[0].value), FieldsHeight(fields[1..]))
  }

  function Max(a: nat, b: nat): nat { if a < b then b else a }

  // ----- printed text -----

  /** The printing flags JSON_C_TO_STRING_SPACED and JSON_C_TO_STRING_PRETTY. */
  datatype Style = Style(spaced: bool, pretty: bool)

  const BACKSPACE: char := '\U{0008}'
  const FORMFEED: char := '\U{000C}'

  function HexChar(n: nat): char
    requires n < 16
  {
    "0123456789abcdef"[n]
  }

  function EscapeChar(c: char): string {
    if c == BACKSPACE then "\\b"
    else if c == '\n' then "\\n"
    else if c == '\r' then "\\r"
    else if c == '\t' then "\\t"
    else if c == FORMFEED then "\\f"
    else if c == '"' then "\\\""
    else if c == '\\' then "\\\\"
    else if c == '/' then "\\/"
    else if c < ' ' then "\\u00" + [HexChar(c as int / 16), HexChar(c as int % 16)]
    else [c]
  }

  function Escape(s: string): string {
    if s == "" then "" else EscapeChar(s[0]) + Escape(s[1..])
  }

  function DigitChar(d: nat): char
    requires d < 10
  {
    '0' + d as char
  }

  function PrintNat(n: nat): (r: string)
    ensures |r| > 0
  {
    if n < 10 then [DigitChar(n)] else PrintNat(n / 10) + [DigitChar(n % 10)]
  }

  function PrintInt(i: int): string {
    if i < 0 then "-" + PrintNat(-i) else PrintNat(i)
  }

  function Spaces(n: nat): string { seq(n, _ => ' ') }

  function Newline(style: Style): string { if style.pretty then "\n" else "" }

  function Indent(style: Style, level: nat): string {
    if style.pretty then Spaces(2 * level) else ""
  }

  /** Text between the opening bracket or a comma and the next child. */
  function Lead(style: Style, level: nat): string {
    (if style.spaced then " " else "") + Indent(style, level + 1)
  }

  /** Text between the last child and the closing bracket. */
  function Trail(style: Style, level: nat, children: bool): string {
    (if style.pretty then (if children then "\n" else "") + Indent(style, level) else "")
    + (if style.spaced then " " else "")
  }

  function Separator(style: Style, first: bool): string {
    if first then "" else "," + Newline(style)
  }

  function BeforeChild(style: Style, first: bool, level: nat): string {
    Separator(style, first) + Lead(style, level)
  }

  function Print(v: Value, style: Style, level: nat): string
    decreases v, 1
  {
    match v
    case Null => "null"
    case Bool(b) => if b then "true" else "false"
    case Int(i) => PrintInt(i)
    case Double(text) => text
    case Str(s) => "\"" + Escape(s) + "\""
    case Array(items) =>
      "[" + Newline(style) + PrintItems(items, true, style, level)
      + Trail(style, level, items != []) + "]"
    case Object(fields) =>
      "{" + Newline(style) + PrintFields(fields, true, style, level)
      + Trail(style, level, fields != []) + "}"
  }

  function PrintItems(items: seq<Value>, first: bool, style: Style, level: nat): string
    decreases items, 0
  {
    if items == [] then ""
    else
      BeforeChild(style, first, level) + Print(items[0], style, level + 1)
      + PrintItems(items[1..], false, style, level)
  }

  function Colon(style: Style): string { if style.spaced then "\": " else "\":" }

  /** A field name in quotes, with the colon behind it; the printer takes strlen of the name. */
  function PrintName(key: string, style: Style): string {
    "\"" + Escape(CStr(key)) + Colon(style)
  }

  function PrintFields(fields: seq<Field>, first: bool, style: Style, level: nat): string
    decreases fields, 0
  {
    if fields == [] then ""
    else
      BeforeChild(style, first, level) + PrintName(fields[0].key, style)
      + Print(fields[0].value, style, level + 1)
      + PrintFields(fields[1..], false, style, level)
  }
}

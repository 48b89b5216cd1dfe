// JSON values and the text they are printed as.
module JsonText {
  // A value; the members of an array or object form a chain. A number stands for
  // mantissa * 10^exponent.
  datatype Json =
    | Null | False | True
    | Number(mantissa: int, exponent: int)
    | String(s: string)
    | Array(items: Items)
    | Object(fields: Fields)
  datatype Items = NoItem | Item(value: Json, next: Items)
  datatype Fields = NoField | Field(name: string, value: Json, next: Fields)

  predicate NulFree(s: string) { forall i :: 0 <= i < |s| ==> s[i] != '\0' }

  // Integers that fit an int, strings without NUL.
  predicate Printable(j: Json) {
    match j
    case Number(m, e) => e == 0 && -0x8000_0000 <= m < 0x8000_0000
    case String(s) => NulFree(s)
    case Array(items) => ItemsPrintable(items)
    case Object(fields) => FieldsPrintable(fields)
    case _ => true
  }

  predicate ItemsPrintable(items: Items) {
    items.Item? ==> Printable(items.value) && ItemsPrintable(items.next)
  }

  predicate FieldsPrintable(fields: Fields) {
    fields.Field? ==> NulFree(fields.name) && Printable(fields.value) && FieldsPrintable(fields.next)
  }

  // ------------------------------------------------------------------- scalars

  function Hex(n: int): (c: char)
    requires 0 <= n < 16
  {
    if n < 10 then ('0' as int + n) as char else ('a' as int + n - 10) as char
  }

  // Printed as four lower-case digits.
  function Hex4(n: int): string
    requires 0 <= n < 0x1_0000
  {
    [Hex(n / 0x1000), Hex(n / 0x100 % 16), Hex(n / 16 % 16), Hex(n % 16)]
  }

  const BACKSPACE := 8 as char
  const FORMFEED := 12 as char

  predicate Plain(c: char) { c as int > 31 && c != '\"' && c != '\\' }

  function Escape(c: char): (e: string)
    requires c != '\0'
    ensures 1 <= |e| <= 6
  {
    if Plain(c) then [c]
    else if c == '\\' then "\\\\"
    else if c == '\"' then "\\\""
    else if c == BACKSPACE then "\\b"
    else if c == FORMFEED then "\\f"
    else if c == '\n' then "\\n"
    else if c == '\r' then "\\r"
    else if c == '\t' then "\\t"
    else "\\u" + Hex4(c as int)
  }

  function Escaped(s: string): string
    requires NulFree(s)
  {
    if s == [] then [] else Escape(s[0]) + Escaped(s[1..])
  }

  function StringText(s: string): string
    requires NulFree(s)
  {
    "\"" + Escaped(s) + "\""
  }

  function Digit(n: int): char
    requires 0 <= n < 10
  {
    ('0' as int + n) as char
  }

  function Digits(n: nat): (s: string)
    ensures |s| > 0
  {
    if n < 10 then [Digit(n)] else Digits(n / 10) + [Digit(n % 10)]
  }

  function NumberText(n: int): string {
    if n < 0 then "-" + Digits(-n) else Digits(n)
  }

  // ---------------------------------------------------------------- whole values

  function Tabs(n: int): (s: string)
    ensures |s| == if n > 0 then n else 0
  {
    if n <= 0 then [] else "\t" + Tabs(n - 1)
  }

  // White space that only formatted output has.
  function Blank(fmt: bool, s: string): string { if fmt then s else "" }

  function Text(j: Json, depth: nat, fmt: bool): string
    requires Printable(j)
  {
    match j
    case Null => "null"
    case False => "false"
    case True => "true"
    case Number(m, _) => NumberText(m)
    case String(s) => StringText(s)
    case Array(items) => "[" + ItemsText(items, depth + 1, fmt) + "]"
    case Object(fields) =>
      "{" + Blank(fmt, "\n") + FieldsText(fields, depth + 1, fmt) + Blank(fmt, Tabs(Closing(fields, depth))) + "}"
  }

  // An empty object is closed one tab to the left.
  function Closing(fields: Fields, depth: nat): int { if fields.NoField? then depth - 1 else depth }

  function ItemsText(items: Items, depth: nat, fmt: bool): string
    requires ItemsPrintable(items)
  {
    match items
    case NoItem => ""
    case Item(v, next) =>
      Text(v, depth, fmt) + if next.NoItem? then "" else "," + Blank(fmt, " ") + ItemsText(next, depth, fmt)
  }

  function FieldsText(fields: Fields, depth: nat, fmt: bool): string
    requires FieldsPrintable(fields)
  {
    match fields
    case NoField => ""
    case Field(name, v, next) =>
      Blank(fmt, Tabs(depth)) + StringText(name) + ":" + Blank(fmt, "\t") + Text(v, depth, fmt)
      + Comma(next) + Blank(fmt, "\n") + FieldsText(next, depth, fmt)
  }

  function Comma(next: Fields): string { if next.NoField? then "" else "," }

  // ----------------------------------------------- the same in front of a text r

  function Put(j: Json, depth: nat, fmt: bool, r: string): string
    requires Printable(j)
  {
    match j
    case Array(items) => "[" + PutItems(items, depth + 1, fmt, "]" + r)
    case Object(fields) =>
      "{" + (Blank(fmt, "\n") + PutFields(fields, depth + 1, fmt, Blank(fmt, Tabs(Closing(fields, depth))) + ("}" + r)))
    case _ => Text(j, depth, fmt) + r
  }

  function PutItems(items: Items, depth: nat, fmt: bool, r: string): string
    requires ItemsPrintable(items)
  {
    match items
    case NoItem => r
    case Item(v, next) =>
      Put(v, depth, fmt, if next.NoItem? then r else "," + (Blank(fmt, " ") + PutItems(next, depth, fmt, r)))
  }

  function PutFields(fields: Fields, depth: nat, fmt: bool, r: string): string
    requires FieldsPrintable(fields)
  {
    match fields
    case NoField => r
    case Field(name, v, next) =>
      Blank(fmt, Tabs(depth)) + (StringText(name) + (":" + (Blank(fmt, "\t") +
        Put(v, depth, fmt, Comma(next) + (Blank(fmt, "\n") + PutFields(next, depth, fmt, r))))))
  }

  lemma {:induction false} PutIsText(j: Json, depth: nat, fmt: bool, r: string)
    requires Printable(j)
    ensures Put(j, depth, fmt, r) == Text(j, depth, fmt) + r
  {
    match j
    case Array(items) =>
      PutItemsIsText(items, depth + 1, fmt, "]" + r);
      Join3("[", ItemsText(items, depth + 1, fmt), "]", r);
    case Object(fields) =>
      var close := Blank(fmt, Tabs(Closing(fields, depth)));
      PutFieldsIsText(fields, depth + 1, fmt, close + ("}" + r));
      Join5("{", Blank(fmt, "\n"), FieldsText(fields, depth + 1, fmt), close, "}", r);
    case _ =>
  }

  lemma {:induction false} PutItemsIsText(items: Items, depth: nat, fmt: bool, r: string)
    requires ItemsPrintable(items)
    ensures PutItems(items, depth, fmt, r) == ItemsText(items, depth, fmt) + r
  {
    match items
    case NoItem =>
    case Item(v, next) =>
      if next.NoItem? {
        PutIsText(v, depth, fmt, r);
        assert Text(v, depth, fmt) + "" == Text(v, depth, fmt);
      } else {
        PutItemsIsText(next, depth, fmt, r);
        PutIsText(v, depth, fmt, "," + (Blank(fmt, " ") + (ItemsText(next, depth, fmt) + r)));
        Join4(Text(v, depth, fmt), ",", Blank(fmt, " "), ItemsText(next, depth, fmt), r);
      }
  }

  lemma {:induction false} PutFieldsIsText(fields: Fields, depth: nat, fmt: bool, r: string)
    requires FieldsPrintable(fields)
    ensures PutFields(fields, depth, fmt, r) == FieldsText(fields, depth, fmt) + r
  {
    match fields
    case NoField =>
    case Field(name, v, next) =>
      var f := FieldsText(next, depth, fmt);
      PutFieldsIsText(next, depth, fmt, r);
      PutIsText(v, depth, fmt, Comma(next) + (Blank(fmt, "\n") + (f + r)));
      Join8(Blank(fmt, Tabs(depth)), StringText(name), ":", Blank(fmt, "\t"),
            Text(v, depth, fmt), Comma(next), Blank(fmt, "\n"), f, r);
  }

  lemma Join3(a: string, b: string, c: string, r: string)
    ensures a + b + c + r == a + (b + (c + r))
  {
  }

  lemma Join4(a: string, b: string, c: string, d: string, r: string)
    ensures a + (b + c + d) + r == a + (b + (c + (d + r)))
  {
    Join3(b, c, d, r);
    assert a + (b + c + d) + r == a + (b + c + d + r);
  }

  lemma Join5(a: string, b: string, c: string, d: string, e: string, r: string)
    ensures a + b + c + d + e + r == a + (b + (c + (d + (e + r))))
  {
    Join3(a + b + c, d, e, r);
    Join3(a, b, c, d + (e + r));
  }

  lemma Join8(a: string, b: string, c: string, d: string, e: string, f: string, g: string, h: string, r: string)
    ensures a + b + c + d + e + f + g + h + r == a + (b + (c + (d + (e + (f + (g + (h + r)))))))
  {
    Join3(a + b + c + d + e, f, g, h + r);
    Join5(a, b, c, d, e, f + (g + (h + r)));
    Join3(a + b + c + d + e + f, g, h, r);
  }
}

// The printers, which compute the length of their output before they write it,
// and the minifier, which works in place.
module JsonWriter {
  import opened JsonText
  import opened JsonParser
  import opened JsonMinify

  // ------------------------------------------------------------------- strings

  lemma Assoc<X>(a: seq<X>, b: seq<X>, c: seq<X>)
    ensures a + b + c == a + (b + c)
  {
  }

  // What print_string_ptr counts for one character.
  function EscapeLength(c: char): int {
    if c == '\"' || c == '\\' || c == BACKSPACE || c == FORMFEED || c == '\n' || c == '\r' || c == '\t' then 2
    else if c as int < 32 then 6
    else 1
  }

  lemma EscapeLengthIs(c: char)
    requires c != '\0'
    ensures EscapeLength(c) == |Escape(c)|
  {
  }

  lemma {:induction false} EscapedSnoc(s: string, c: char)
    requires NulFree(s) && c != '\0'
    ensures NulFree(s + [c]) && Escaped(s + [c]) == Escaped(s) + Escape(c)
  {
    if s == [] {
      assert Escaped([c]) == Escape(c) + Escaped([c][1..]);
    } else {
      assert (s + [c])[1..] == s[1..] + [c];
      EscapedSnoc(s[1..], c);
      Assoc(Escape(s[0]), Escaped(s[1..]), Escape(c));
    }
  }

  // Copies a text into a buffer.
  method Write(out: array<char>, at: nat, s: string) returns (at': nat)
    requires at + |s| <= out.Length
    modifies out
    ensures at' == at + |s| && out[..at'] == old(out[..at]) + s
  {
    for i := 0 to |s|
      invariant out[..at + i] == old(out[..at]) + s[..i]
    {
      out[at + i] := s[i];
      assert s[..i + 1] == s[..i] + [s[i]];
    }
    at' := at + |s|;
    assert s[..|s|] == s;
  }

  // A terminator, to be written over.
  method Terminate(out: array<char>, at: nat)
    requires at < out.Length
    modifies out
    ensures out[..at] == old(out[..at])
  {
    out[at] := '\0';
  }

  // strcpy, which writes a terminator as well.
  method StrCpy(out: array<char>, at: nat, s: string) returns (at': nat)
    requires at + |s| < out.Length
    modifies out
    ensures at' == at + |s| && out[..at'] == old(out[..at]) + s
  {
    at' := Write(out, at, s);
    Terminate(out, at');
  }

  method WriteBlank(out: array<char>, at: nat, fmt: bool, s: string) returns (at': nat)
    requires at + |Blank(fmt, s)| <= out.Length
    modifies out
    ensures at' == at + |Blank(fmt, s)| && out[..at'] == old(out[..at]) + Blank(fmt, s)
  {
    at' := at;
    if fmt {
      at' := Write(out, at, s);
    }
  }

  // What print_string_ptr counts before it writes.
  method CountString(s: string) returns (len: nat)
    requires NulFree(s)
    ensures len == |Escaped(s)|
  {
    len := 0;
    for i := 0 to |s|
      invariant len == |Escaped(s[..i])|
    {
      len := len + EscapeLength(s[i]);
      EscapeLengthIs(s[i]);
      EscapedSnoc(s[..i], s[i]);
      assert s[..i + 1] == s[..i] + [s[i]];
    }
    assert s[..|s|] == s;
  }

  method WriteEscaped(out: array<char>, start: nat, s: string) returns (at: nat)
    requires NulFree(s) && start + |Escaped(s)| <= out.Length
    modifies out
    ensures at == start + |Escaped(s)| && out[..at] == old(out[..start]) + Escaped(s)
  {
    at := start;
    for i := 0 to |s|
      invariant at + |Escaped(s[i..])| <= out.Length
      invariant out[..at] + Escaped(s[i..]) == old(out[..start]) + Escaped(s)
    {
      assert s[i..][1..] == s[i + 1..];
      ghost var e := Escaped(s[i + 1..]);
      assert out[..at] + (Escape(s[i]) + e) == out[..at] + Escape(s[i]) + e;
      at := Write(out, at, Escape(s[i]));
    }
    assert Escaped(s[|s|..]) == "";
    assert out[..at] + "" == out[..at];
  }

  // The buffer is exactly as long as what is written, terminator included.
  method PrintString(s: string) returns (out: array<char>)
    requires NulFree(s)
    ensures fresh(out) && out[..] == StringText(s) + "\0"
  {
    var len := CountString(s);
    out := new char[len + 3];
    var at := Write(out, 0, "\"");
    at := WriteEscaped(out, at, s);
    at := Write(out, at, "\"");
    at := Write(out, at, "\0");
    assert out[..] == out[..at];
  }

  // -------------------------------------------------------------------- values

  // A buffer holds the C string s.
  ghost predicate Holds(out: array<char>, s: string)
    reads out
  {
    NulFree(s) && |s| < out.Length && out[..|s|] == s && out[|s|] == '\0'
  }

  method StrLen(out: array<char>, ghost s: string) returns (n: nat)
    requires Holds(out, s)
    ensures n == |s|
  {
    n := 0;
    assert forall i :: 0 <= i < |s| ==> out[..|s|][i] == out[i];
    while out[n] != '\0'
      invariant n <= |s| && forall i :: n <= i < |s| ==> out[i] == s[i]
      decreases |s| - n
    {
      n := n + 1;
    }
  }

  lemma {:induction false} DigitsNulFree(n: nat)
    ensures NulFree(Digits(n))
  {
    if n >= 10 { DigitsNulFree(n / 10); }
  }

  // 21 characters are enough for an int.
  lemma {:induction false} DigitsLength(n: nat, k: nat, bound: nat)
    requires k > 0 && n < bound && bound == Pow10(k)
    ensures |Digits(n)| <= k
  {
    if n >= 10 { DigitsLength(n / 10, k - 1, Pow10(k - 1)); }
  }

  function Pow10(k: nat): nat { if k == 0 then 1 else 10 * Pow10(k - 1) }

  lemma NumberLength(n: int)
    requires -0x8000_0000 <= n < 0x8000_0000
    ensures |NumberText(n)| <= 11 && NulFree(NumberText(n))
  {
    var k: nat := if n < 0 then -n else n;
    assert Pow10(10) == 10000000000;
    DigitsLength(k, 10, Pow10(10));
    DigitsNulFree(k);
  }

  lemma {:induction false} EscapedNulFree(s: string)
    requires NulFree(s)
    ensures NulFree(Escaped(s)) && NulFree(StringText(s))
  {
    if s != [] { EscapedNulFree(s[1..]); }
  }

  lemma {:induction false} TabsNulFree(n: int)
    ensures NulFree(Tabs(n))
  {
    if n > 0 { TabsNulFree(n - 1); }
  }

  lemma {:induction false} TextNulFree(j: Json, depth: nat, fmt: bool)
    requires Printable(j)
    ensures NulFree(Text(j, depth, fmt))
  {
    match j
    case Number(m, _) => NumberLength(m);
    case String(s) => EscapedNulFree(s);
    case Array(items) => ItemsNulFree(items, depth + 1, fmt);
    case Object(fields) =>
      FieldsNulFree(fields, depth + 1, fmt);
      TabsNulFree(Closing(fields, depth));
    case _ =>
  }

  lemma {:induction false} ItemsNulFree(items: Items, depth: nat, fmt: bool)
    requires ItemsPrintable(items)
    ensures NulFree(ItemsText(items, depth, fmt))
  {
    if items.Item? {
      TextNulFree(items.value, depth, fmt);
      ItemsNulFree(items.next, depth, fmt);
    }
  }

  lemma {:induction false} FieldsNulFree(fields: Fields, depth: nat, fmt: bool)
    requires FieldsPrintable(fields)
    ensures NulFree(FieldsText(fields, depth, fmt))
  {
    if fields.Field? {
      TabsNulFree(depth);
      EscapedNulFree(fields.name);
      TextNulFree(fields.value, depth, fmt);
      FieldsNulFree(fields.next, depth, fmt);
    }
  }

  // Nodes of a value.
  ghost function Size(j: Json): nat {
    match j
    case Array(items) => 1 + ItemsSize(items)
    case Object(fields) => 1 + FieldsSize(fields)
    case _ => 0
  }

  ghost function ItemsSize(items: Items): nat {
    if items.NoItem? then 0 else 1 + Size(items.value) + ItemsSize(items.next)
  }

  ghost function FieldsSize(fields: Fields): nat {
    if fields.NoField? then 0 else 1 + Size(fields.value) + FieldsSize(fields.next)
  }

  ghost function Entries(items: Items, depth: nat, fmt: bool): seq<string>
    requires ItemsPrintable(items)
  {
    if items.NoItem? then [] else [Text(items.value, depth, fmt)] + Entries(items.next, depth, fmt)
  }

  // An entry with what goes behind it.
  ghost function Piece(entry: string, last: bool, fmt: bool): string {
    entry + if last then "" else "," + Blank(fmt, " ")
  }

  ghost function Joined(entries: seq<string>, fmt: bool): string {
    if entries == [] then "" else Piece(entries[0], |entries| == 1, fmt) + Joined(entries[1..], fmt)
  }

  lemma {:induction false} JoinedIsText(items: Items, depth: nat, fmt: bool)
    requires ItemsPrintable(items)
    ensures Joined(Entries(items, depth, fmt), fmt) == ItemsText(items, depth, fmt)
  {
    if items.Item? {
      var e := Entries(items, depth, fmt);
      JoinedIsText(items.next, depth, fmt);
      assert e[1..] == Entries(items.next, depth, fmt);
      assert items.next.NoItem? <==> |e| == 1;
      var v := Text(items.value, depth, fmt);
      assert v + "" + "" == v;
      assert v + ("," + Blank(fmt, " ")) + ItemsText(items.next, depth, fmt)
             == v + ("," + Blank(fmt, " ") + ItemsText(items.next, depth, fmt));
    }
  }

  // What print_array counts for the entries.
  ghost function Weight(items: Items, depth: nat, fmt: bool): nat
    requires ItemsPrintable(items)
  {
    if items.NoItem? then 0 else
      |Text(items.value, depth, fmt)| + 2 + (if fmt then 1 else 0) + Weight(items.next, depth, fmt)
  }

  lemma {:induction false} WeightIsEnough(items: Items, depth: nat, fmt: bool)
    requires ItemsPrintable(items)
    ensures |ItemsText(items, depth, fmt)| <= Weight(items, depth, fmt)
  {
    if items.Item? { WeightIsEnough(items.next, depth, fmt); }
  }

  method PrintWord(s: string) returns (out: array<char>)
    requires NulFree(s)
    ensures fresh(out) && Holds(out, s)
  {
    out := new char[|s| + 1];
    var at := Write(out, 0, s);
    out[at] := '\0';
  }

  method PrintNumber(j: Json) returns (out: array<char>)
    requires j.Number? && Printable(j)
    ensures fresh(out) && out.Length == 21 && Holds(out, NumberText(j.mantissa))
  {
    NumberLength(j.mantissa);
    out := new char[21];
    var at := Write(out, 0, NumberText(j.mantissa));
    out[at] := '\0';
  }

  method PrintValue(j: Json, depth: nat, fmt: bool) returns (out: array<char>)
    requires Printable(j)
    ensures fresh(out) && Holds(out, Text(j, depth, fmt))
    decreases Size(j), 0
  {
    match j
    case Null => out := PrintWord("null");
    case False => out := PrintWord("false");
    case True => out := PrintWord("true");
    case Number(_, _) => out := PrintNumber(j);
    case String(s) =>
      EscapedNulFree(s);
      out := PrintString(s);
    case Array(items) => out := PrintArray(items, depth, fmt);
    case Object(fields) => out := PrintObject(fields, depth, fmt);
  }

  // The texts of the items, and the length that is counted for the array.
  method CollectItems(items: Items, depth: nat, fmt: bool) returns (entries: seq<string>, len: nat)
    requires ItemsPrintable(items)
    ensures entries == Entries(items, depth, fmt) && len == 5 + Weight(items, depth, fmt)
    decreases ItemsSize(items), 0
  {
    entries, len := [], 5;
    var child := items;
    assert [] + Entries(items, depth, fmt) == Entries(items, depth, fmt);
    while child.Item?
      invariant ItemsPrintable(child) && ItemsSize(child) <= ItemsSize(items)
      invariant entries + Entries(child, depth, fmt) == Entries(items, depth, fmt)
      invariant len + Weight(child, depth, fmt) == 5 + Weight(items, depth, fmt)
      decreases child
    {
      var ret := PrintValue(child.value, depth, fmt);
      var n := StrLen(ret, Text(child.value, depth, fmt));
      ghost var more := Entries(child.next, depth, fmt);
      Assoc(entries, [ret[..n]], more);
      entries := entries + [ret[..n]];
      len := len + n + 2 + (if fmt then 1 else 0);
      child := child.next;
    }
    assert entries + [] == entries;
  }

  method PrintArray(items: Items, depth: nat, fmt: bool) returns (out: array<char>)
    requires ItemsPrintable(items)
    ensures fresh(out) && Holds(out, Text(Array(items), depth, fmt))
    ensures items.Item? ==> out.Length == 5 + Weight(items, depth + 1, fmt)
    decreases ItemsSize(items), 1
  {
    if items.NoItem? {
      out := PrintWord("[]");
      return;
    }
    var entries, len := CollectItems(items, depth + 1, fmt);
    TextNulFree(Array(items), depth, fmt);
    JoinedIsText(items, depth + 1, fmt);
    WeightIsEnough(items, depth + 1, fmt);
    out := ComposeArray(entries, len, fmt);
  }

  method ComposeArray(entries: seq<string>, len: nat, fmt: bool) returns (out: array<char>)
    requires len >= |Joined(entries, fmt)| + 3
    ensures fresh(out) && out.Length == len
    ensures var s := "[" + Joined(entries, fmt) + "]"; out[..|s|] == s && out[|s|] == '\0'
  {
    out := new char[len];
    var at := Write(out, 0, "[");
    Terminate(out, at);
    at := WriteJoined(out, at, entries, fmt);
    at := Write(out, at, "]");
    out[at] := '\0';
  }

  method WritePiece(out: array<char>, start: nat, entry: string, last: bool, fmt: bool) returns (at: nat)
    requires start + |Piece(entry, last, fmt)| < out.Length
    modifies out
    ensures at == start + |Piece(entry, last, fmt)| && out[..at] == old(out[..start]) + Piece(entry, last, fmt)
  {
    at := StrCpy(out, start, entry);
    if !last {
      at := Write(out, at, ",");
      at := WriteBlank(out, at, fmt, " ");
      Terminate(out, at);
    }
  }

  method WriteJoined(out: array<char>, start: nat, entries: seq<string>, fmt: bool) returns (at: nat)
    requires start + |Joined(entries, fmt)| < out.Length
    modifies out
    ensures at == start + |Joined(entries, fmt)| && out[..at] == old(out[..start]) + Joined(entries, fmt)
  {
    at := start;
    for i := 0 to |entries|
      invariant at + |Joined(entries[i..], fmt)| < out.Length
      invariant out[..at] + Joined(entries[i..], fmt) == old(out[..start]) + Joined(entries, fmt)
    {
      ghost var w, rest := out[..at], Joined(entries[i + 1..], fmt);
      ghost var piece := Piece(entries[i], i == |entries| - 1, fmt);
      assert entries[i..][1..] == entries[i + 1..];
      Assoc(w, piece, rest);
      at := WritePiece(out, at, entries[i], i == |entries| - 1, fmt);
    }
    assert Joined(entries[|entries|..], fmt) == "";
    assert out[..at] + "" == out[..at];
  }

  // ------------------------------------------------------------------- objects

  ghost function FieldEntries(fields: Fields, depth: nat, fmt: bool): seq<(string, string)>
    requires FieldsPrintable(fields)
  {
    if fields.NoField? then [] else
      [(StringText(fields.name), Text(fields.value, depth, fmt))] + FieldEntries(fields.next, depth, fmt)
  }

  ghost function FieldPiece(entry: (string, string), last: bool, depth: nat, fmt: bool): string {
    Blank(fmt, Tabs(depth)) + entry.0 + ":" + Blank(fmt, "\t") + entry.1 + Blank(!last, ",") + Blank(fmt, "\n")
  }

  ghost function JoinedFields(entries: seq<(string, string)>, depth: nat, fmt: bool): string {
    if entries == [] then "" else
      FieldPiece(entries[0], |entries| == 1, depth, fmt) + JoinedFields(entries[1..], depth, fmt)
  }

  lemma {:induction false} JoinedFieldsIsText(fields: Fields, depth: nat, fmt: bool)
    requires FieldsPrintable(fields)
    ensures JoinedFields(FieldEntries(fields, depth, fmt), depth, fmt) == FieldsText(fields, depth, fmt)
  {
    if fields.Field? {
      var e := FieldEntries(fields, depth, fmt);
      JoinedFieldsIsText(fields.next, depth, fmt);
      assert e[1..] == FieldEntries(fields.next, depth, fmt);
      assert fields.next.NoField? <==> |e| == 1;
    }
  }

  // What print_object counts for the fields.
  ghost function FieldsWeight(fields: Fields, depth: nat, fmt: bool): nat
    requires FieldsPrintable(fields)
  {
    if fields.NoField? then 0 else
      |Text(fields.value, depth, fmt)| + |StringText(fields.name)| + 2 + (if fmt then 2 + depth else 0)
      + FieldsWeight(fields.next, depth, fmt)
  }

  lemma {:induction false} FieldsWeightIsEnough(fields: Fields, depth: nat, fmt: bool)
    requires FieldsPrintable(fields)
    ensures |FieldsText(fields, depth, fmt)| <= FieldsWeight(fields, depth, fmt)
  {
    if fields.Field? { FieldsWeightIsEnough(fields.next, depth, fmt); }
  }

  method PrintName(name: string) returns (str: string)
    requires NulFree(name)
    ensures str == StringText(name)
  {
    EscapedNulFree(name);
    var out := PrintString(name);
    var k := StrLen(out, StringText(name));
    str := out[..k];
  }

  method CollectFields(fields: Fields, depth: nat, fmt: bool) returns (entries: seq<(string, string)>, len: nat)
    requires FieldsPrintable(fields)
    ensures entries == FieldEntries(fields, depth, fmt)
    ensures len == 7 + (if fmt then depth else 0) + FieldsWeight(fields, depth, fmt)
    decreases FieldsSize(fields), 0
  {
    entries, len := [], 7;
    if fmt {
      len := len + depth;
    }
    var child := fields;
    assert [] + FieldEntries(fields, depth, fmt) == FieldEntries(fields, depth, fmt);
    while child.Field?
      invariant FieldsPrintable(child) && FieldsSize(child) <= FieldsSize(fields)
      invariant entries + FieldEntries(child, depth, fmt) == FieldEntries(fields, depth, fmt)
      invariant len + FieldsWeight(child, depth, fmt)
                == 7 + (if fmt then depth else 0) + FieldsWeight(fields, depth, fmt)
      decreases child
    {
      var str := PrintName(child.name);
      var ret := PrintValue(child.value, depth, fmt);
      var n := StrLen(ret, Text(child.value, depth, fmt));
      ghost var more := FieldEntries(child.next, depth, fmt);
      Assoc(entries, [(str, ret[..n])], more);
      entries := entries + [(str, ret[..n])];
      len := len + n + |str| + 2 + (if fmt then 2 + depth else 0);
      child := child.next;
    }
    assert entries + [] == entries;
  }

  method TabLoop(out: array<char>, start: nat, n: int) returns (at: nat)
    requires start + |Tabs(n)| <= out.Length
    modifies out
    ensures at == start + |Tabs(n)| && out[..at] == old(out[..start]) + Tabs(n)
  {
    at := start;
    var i := 0;
    while i < n
      invariant 0 <= i && (i <= n || i == 0) && at == start + i
      invariant out[..at] + Tabs(n - i) == old(out[..start]) + Tabs(n)
    {
      Assoc(out[..at], "\t", Tabs(n - i - 1));
      at := Write(out, at, "\t");
      i := i + 1;
    }
    assert out[..at] + "" == out[..at];
  }

  method WriteTabs(out: array<char>, start: nat, fmt: bool, n: int) returns (at: nat)
    requires start + |Blank(fmt, Tabs(n))| <= out.Length
    modifies out
    ensures at == start + |Blank(fmt, Tabs(n))| && out[..at] == old(out[..start]) + Blank(fmt, Tabs(n))
  {
    at := start;
    if fmt {
      at := TabLoop(out, at, n);
    }
  }

  method WriteField(out: array<char>, start: nat, entry: (string, string), last: bool, depth: nat, fmt: bool)
    returns (at: nat)
    requires start + |FieldPiece(entry, last, depth, fmt)| < out.Length
    modifies out
    ensures at == start + |FieldPiece(entry, last, depth, fmt)|
    ensures out[..at] == old(out[..start]) + FieldPiece(entry, last, depth, fmt)
  {
    ghost var w, a, b := out[..start], Blank(fmt, Tabs(depth)), Blank(fmt, "\t");
    ghost var c, d := Blank(!last, ","), Blank(fmt, "\n");
    PieceSplit(w, a, entry.0, b, entry.1, c, d);
    at := WriteTabs(out, start, fmt, depth);
    at := StrCpy(out, at, entry.0);
    at := Write(out, at, ":");
    at := WriteBlank(out, at, fmt, "\t");
    at := StrCpy(out, at, entry.1);
    at := WriteBlank(out, at, !last, ",");
    at := WriteBlank(out, at, fmt, "\n");
    Terminate(out, at);
  }

  lemma PieceSplit(w: string, a: string, n: string, b: string, v: string, c: string, d: string)
    ensures |a + n + ":" + b + v + c + d| == |a| + |n| + 1 + |b| + |v| + |c| + |d|
    ensures w + a + n + ":" + b + v + c + d == w + (a + n + ":" + b + v + c + d)
  {
    assert w + (a + n + ":" + b + v) == w + a + n + ":" + b + v by {
      Join5(w, a, n, ":", b, v);
      Join5("", a, n, ":", b, v);
    }
  }

  method WriteFields(out: array<char>, start: nat, entries: seq<(string, string)>, depth: nat, fmt: bool)
    returns (at: nat)
    requires start + |JoinedFields(entries, depth, fmt)| < out.Length
    modifies out
    ensures at == start + |JoinedFields(entries, depth, fmt)|
            && out[..at] == old(out[..start]) + JoinedFields(entries, depth, fmt)
  {
    at := start;
    for i := 0 to |entries|
      invariant at + |JoinedFields(entries[i..], depth, fmt)| < out.Length
      invariant out[..at] + JoinedFields(entries[i..], depth, fmt)
                == old(out[..start]) + JoinedFields(entries, depth, fmt)
    {
      ghost var w, rest := out[..at], JoinedFields(entries[i + 1..], depth, fmt);
      ghost var piece := FieldPiece(entries[i], i == |entries| - 1, depth, fmt);
      assert entries[i..][1..] == entries[i + 1..];
      Assoc(w, piece, rest);
      at := WriteField(out, at, entries[i], i == |entries| - 1, depth, fmt);
    }
    assert JoinedFields(entries[|entries|..], depth, fmt) == "";
    assert out[..at] + "" == out[..at];
  }

  method PrintEmpty(depth: nat, fmt: bool) returns (out: array<char>)
    ensures fresh(out) && Holds(out, Text(Object(NoField), depth, fmt))
    ensures out.Length == if fmt then depth + 4 else 3
  {
    TextNulFree(Object(NoField), depth, fmt);
    out := new char[if fmt then depth + 4 else 3];
    var at := Write(out, 0, "{");
    at := WriteBlank(out, at, fmt, "\n");
    at := WriteTabs(out, at, fmt, depth - 1);
    at := Write(out, at, "}");
    out[at] := '\0';
  }

  method PrintObject(fields: Fields, depth: nat, fmt: bool) returns (out: array<char>)
    requires FieldsPrintable(fields)
    ensures fresh(out) && Holds(out, Text(Object(fields), depth, fmt))
    ensures fields.NoField? ==> out.Length == if fmt then depth + 4 else 3
    ensures fields.Field? ==> out.Length == 7 + (if fmt then depth + 1 else 0) + FieldsWeight(fields, depth + 1, fmt)
    decreases FieldsSize(fields), 1
  {
    if fields.NoField? {
      out := PrintEmpty(depth, fmt);
      return;
    }
    var entries, len := CollectFields(fields, depth + 1, fmt);
    TextNulFree(Object(fields), depth, fmt);
    JoinedFieldsIsText(fields, depth + 1, fmt);
    FieldsWeightIsEnough(fields, depth + 1, fmt);
    out := ComposeObject(entries, len, depth, fmt);
  }

  method ComposeObject(entries: seq<(string, string)>, len: nat, depth: nat, fmt: bool) returns (out: array<char>)
    requires len >= |JoinedFields(entries, depth + 1, fmt)| + (if fmt then depth + 1 else 0) + 3
    ensures fresh(out) && out.Length == len
    ensures var s := "{" + Blank(fmt, "\n") + JoinedFields(entries, depth + 1, fmt) + Blank(fmt, Tabs(depth)) + "}";
            out[..|s|] == s && out[|s|] == '\0'
  {
    ghost var f, b := JoinedFields(entries, depth + 1, fmt), Blank(fmt, Tabs(depth));
    ghost var s1 := "{" + Blank(fmt, "\n");
    ghost var s2 := s1 + f;
    ghost var s3 := s2 + b;
    assert |s1| == 1 + (if fmt then 1 else 0) && |s2| == |s1| + |f| && |s3| == |s2| + (if fmt then depth else 0);
    out := new char[len];
    var at := Write(out, 0, "{");
    at := WriteBlank(out, at, fmt, "\n");
    Terminate(out, at);
    assert out[..at] == s1;
    at := WriteFields(out, at, entries, depth + 1, fmt);
    assert out[..at] == s2;
    at := WriteTabs(out, at, fmt, depth);
    assert out[..at] == s3;
    at := Write(out, at, "}");
    out[at] := '\0';
  }

  // ------------------------------------------------------------------ minifying

  // From `at` on, the buffer still holds the text t and its terminator.
  ghost predicate Intact(json: array<char>, t: string, at: nat)
    reads json
  {
    at <= |t| < json.Length && json[at..|t| + 1] == t[at..] + "\0" && NulFree(t)
  }

  lemma IntactAt(json: array<char>, t: string, at: nat)
    requires Intact(json, t, at)
    ensures json[at] == C(t[at..])
    ensures at < |t| ==>
              json[at + 1] == C(t[at..][1..]) && Intact(json, t, at + 1) && t[at..][1..] == t[at + 1..]
    ensures json[at] == '\0' <==> at == |t|
  {
    assert json[at] == json[at..|t| + 1][0];
    if at < |t| {
      assert json[at + 1..|t| + 1] == json[at..|t| + 1][1..];
      assert json[at + 1] == json[at + 1..|t| + 1][0];
    }
  }

  method SkipLine(json: array<char>, start: nat, ghost t: string) returns (at: nat)
    requires Intact(json, t, start)
    ensures start <= at && Intact(json, t, at) && t[at..] == LineEnd(t[start..])
  {
    at := start;
    IntactAt(json, t, at);
    while json[at] != '\0' && json[at] != '\n'
      invariant start <= at && Intact(json, t, at) && LineEnd(t[at..]) == LineEnd(t[start..])
      invariant json[at] == C(t[at..]) && (json[at] == '\0' <==> at == |t|)
      decreases |t| - at
    {
      IntactAt(json, t, at);
      at := at + 1;
      IntactAt(json, t, at);
    }
  }

  method SkipBlock(json: array<char>, start: nat, ghost t: string) returns (at: nat)
    requires Intact(json, t, start)
    ensures start <= at && Intact(json, t, at) && t[at..] == BlockEnd(t[start..])
  {
    at := start;
    IntactAt(json, t, at);
    while json[at] != '\0' && !(json[at] == '*' && json[at + 1] == '/')
      invariant start <= at && Intact(json, t, at) && BlockEnd(t[at..]) == BlockEnd(t[start..])
      invariant json[at] == C(t[at..]) && (json[at] == '\0' <==> at == |t|)
      invariant at < |t| ==> json[at + 1] == C(t[at..][1..]) && t[at..][1..] == t[at + 1..]
      decreases |t| - at
    {
      IntactAt(json, t, at);
      at := at + 1;
      IntactAt(json, t, at);
    }
  }

  // One character moves down.
  method Move(json: array<char>, into: nat, at: nat, ghost t: string)
    requires Intact(json, t, at) && into <= at < |t|
    modifies json
    ensures json[..into + 1] == old(json[..into]) + [t[at]] && Intact(json, t, at + 1) && t[at..][1..] == t[at + 1..]
  {
    IntactAt(json, t, at);
    json[into] := json[at];
    assert json[at + 1..|t| + 1] == old(json[at + 1..|t| + 1]);
  }

  // A character of a literal moves down, or a backslash and what follows it.
  method MoveOne(json: array<char>, into0: nat, at0: nat, ghost t: string) returns (into: nat, at: nat)
    requires Intact(json, t, at0) && into0 <= at0 < |t| && t[at0] != '\"' && LiteralClosed(t[at0..])
    modifies json
    ensures at0 < at && into <= at && Intact(json, t, at) && LiteralClosed(t[at..])
    ensures json[..into] + Literal(t[at..]).0 == old(json[..into0]) + Literal(t[at0..]).0
    ensures Literal(t[at..]).1 == Literal(t[at0..]).1
  {
    ghost var w, u := json[..into0], t[at0..];
    into, at := into0, at0;
    IntactAt(json, t, at);
    if json[at] == '\\' {
      Move(json, into, at, t);
      into, at := into + 1, at + 1;
      IntactAt(json, t, at);
    }
    Move(json, into, at, t);
    into, at := into + 1, at + 1;
    assert t[at..] == u[at - at0..] && json[..into] == w + u[..at - at0];
    Assoc(w, u[..at - at0], Literal(t[at..]).0);
  }

  // The inside of a literal moves down.
  method MoveInside(json: array<char>, into0: nat, at0: nat, ghost t: string) returns (into: nat, at: nat)
    requires Intact(json, t, at0) && into0 <= at0 && LiteralClosed(t[at0..])
    modifies json
    ensures at0 <= at && into <= at && Intact(json, t, at)
    ensures json[..into] == old(json[..into0]) + Literal(t[at0..]).0 && t[at..] == Literal(t[at0..]).1
  {
    into, at := into0, at0;
    ghost var all := json[..into] + Literal(t[at..]).0;
    IntactAt(json, t, at);
    while json[at] != '\0' && json[at] != '\"'
      invariant at0 <= at && into <= at && Intact(json, t, at) && LiteralClosed(t[at..])
      invariant json[..into] + Literal(t[at..]).0 == all && Literal(t[at..]).1 == Literal(t[at0..]).1
      invariant json[at] == C(t[at..]) && (json[at] == '\0' <==> at == |t|)
      decreases |t| - at
    {
      into, at := MoveOne(json, into, at, t);
      IntactAt(json, t, at);
    }
    assert json[..into] + "" == json[..into];
  }

  // A literal moves down, quotes included.
  method MoveLiteral(json: array<char>, into0: nat, at0: nat, ghost t: string) returns (into: nat, at: nat)
    requires Intact(json, t, at0) && into0 <= at0 < |t| && t[at0] == '\"'
    requires LiteralClosed(t[at0..][1..]) && C(Literal(t[at0..][1..]).1) == '\"'
    modifies json
    ensures at0 < at && into <= at && Intact(json, t, at)
    ensures var l := Literal(t[at0..][1..]);
            && json[..into] == old(json[..into0]) + ("\"" + l.0 + "\"") && t[at..] == l.1[1..]
  {
    ghost var w, l := json[..into0], Literal(t[at0..][1..]);
    Move(json, into0, at0, t);
    into, at := MoveInside(json, into0 + 1, at0 + 1, t);
    IntactAt(json, t, at);
    Move(json, into, at, t);
    into, at := into + 1, at + 1;
    assert w + "\"" + l.0 + "\"" == w + ("\"" + l.0 + "\"");
  }

  lemma {:induction false} BlockEndStays(t: string)
    requires C(BlockEnd(t)) != '\0'
    ensures |BlockEnd(t)| >= 2
  {
    if C(t) != '\0' && !(t[0] == '*' && C(t[1..]) == '/') { BlockEndStays(t[1..]); }
  }

  // White space and comments: only the reading cursor moves.
  method Discard(json: array<char>, at0: nat, ghost t: string) returns (at: nat)
    requires Intact(json, t, at0) && at0 < |t| && Closed(t[at0..])
    ensures at0 <= at && Intact(json, t, at) && Closed(t[at..]) && Minified(t[at..]) == Minified(t[at0..])
    ensures at == at0 ==> !White(t[at]) && !(t[at] == '/' && C(t[at..][1..]) in {'/', '*'})
  {
    at := at0;
    IntactAt(json, t, at);
    if json[at] == ' ' || json[at] == '\t' || json[at] == '\r' || json[at] == '\n' {
      at := at + 1;
    } else if json[at] == '/' && json[at + 1] == '/' {
      at := SkipLine(json, at, t);
    } else if json[at] == '/' && json[at + 1] == '*' {
      at := SkipBlock(json, at, t);
      BlockEndStays(t[at0..]);
      IntactAt(json, t, at);
      IntactAt(json, t, at + 1);
      assert t[at + 2..] == t[at..][2..];
      at := at + 2;
    }
  }

  lemma MinifiedLiteral(u: string)
    requires Closed(u) && C(u) == '\"'
    ensures var l := Literal(u[1..]);
            && LiteralClosed(u[1..]) && C(l.1) == '\"' && Closed(l.1[1..])
            && Minified(u) == "\"" + l.0 + "\"" + Minified(l.1[1..])
  {
    var l := Literal(u[1..]);
    Assoc("\"" + l.0, "\"", Minified(l.1[1..]));
  }

  // A literal or another character moves down.
  method Keep(json: array<char>, into0: nat, at0: nat, ghost t: string) returns (into: nat, at: nat)
    requires Intact(json, t, at0) && into0 <= at0 < |t| && Closed(t[at0..])
    requires !White(t[at0]) && !(t[at0] == '/' && C(t[at0..][1..]) in {'/', '*'})
    modifies json
    ensures at0 < at && into <= at && Intact(json, t, at) && Closed(t[at..])
    ensures json[..into] + Minified(t[at..]) == old(json[..into0]) + Minified(t[at0..])
  {
    ghost var w, u := json[..into0], t[at0..];
    into, at := into0, at0;
    IntactAt(json, t, at);
    if json[at] == '\"' {
      MinifiedLiteral(u);
      into, at := MoveLiteral(json, into, at, t);
      Assoc(w, "\"" + Literal(u[1..]).0 + "\"", Minified(t[at..]));
    } else {
      Move(json, into, at, t);
      into, at := into + 1, at + 1;
      Assoc(w, [u[0]], Minified(t[at..]));
    }
  }

  // In place; what is left is terminated again.
  method Minify(json: array<char>, ghost t: string) returns (into: nat)
    requires Intact(json, t, 0) && Closed(t)
    modifies json
    ensures into <= |t| && json[..into] == Minified(t) && json[into] == '\0'
  {
    var at := 0;
    into := 0;
    assert t[0..] == t && json[..0] + Minified(t) == Minified(t);
    IntactAt(json, t, 0);
    while json[at] != '\0'
      invariant into <= at && Intact(json, t, at) && Closed(t[at..])
      invariant json[..into] + Minified(t[at..]) == Minified(t)
      invariant json[at] == '\0' <==> at == |t|
      decreases |t| - at
    {
      var at' := Discard(json, at, t);
      if at' == at {
        into, at' := Keep(json, into, at, t);
      }
      at := at';
      IntactAt(json, t, at);
    }
    assert json[..into] + "" == json[..into];
    json[into] := '\0';
  }
}

// The parser as a cursor that moves through a text.
module JsonReader {
  import opened JsonNumber
  import opened JsonParser
  import opened JsonString
  import opened JsonText
  import JsonRoundTrip
  import opened Powers

  // What the cursor points at; the NUL behind the end of the text ends it.
  function At(text: string, at: nat): char { if at < |text| then text[at] else '\0' }

  lemma Tail(text: string, at: nat)
    requires at <= |text|
    ensures C(text[at..]) == At(text, at)
    ensures at < |text| ==> text[at..][1..] == text[at + 1..]
  {
  }

  lemma Ahead(text: string, at: nat, k: nat)
    ensures Drop(Drop(text, at), k) == Drop(text, at + k) && C(Drop(text, at)) == At(text, at)
  {
  }

  // Strays: the program leaves the text or a buffer.
  datatype Verdict = Accepts | Rejects | Strays

  function Told<A>(verdict: Verdict, value: A, rest: string): (r: Result<A>)
    ensures r.Good? <==> verdict.Accepts?
  {
    match verdict
    case Accepts => Good(value, rest)
    case Rejects => Bad
    case Strays => Astray
  }

  method SkipSpace(text: string, start: nat) returns (at: nat)
    requires start <= |text|
    ensures start <= at <= |text| && text[at..] == Skip(text[start..])
  {
    at := start;
    while At(text, at) != '\0' && At(text, at) as int <= 32
      invariant start <= at <= |text| && Skip(text[at..]) == Skip(text[start..])
      decreases |text| - at
    {
      assert text[at..][1..] == text[at + 1..];
      at := at + 1;
    }
  }

  // Where the characters of an escape with digits are, and of the one behind it.
  lemma UnicodeAt(text: string, start: nat)
    ensures var t4 := Drop(Drop(text, start), 4);
            && C(t4) == At(text, start + 4) && C(Drop(t4, 1)) == At(text, start + 5)
            && Drop(t4, 2) == Drop(text, start + 6)
  {
    Ahead(text, start, 4);
    Ahead(text, start + 4, 1);
    Ahead(text, start + 4, 2);
  }

  lemma StepAt(text: string, start: nat)
    requires At(text, start) == '\\' && At(text, start + 1) == 'u'
    ensures Step(Drop(text, start)) ==
            var uc := ParseHex4(Drop(text, start + 2));
            if 0xD800 <= uc <= 0xDBFF && At(text, start + 6) == '\\' && At(text, start + 7) == 'u' then 12 else 6
  {
    var t := Drop(text, start);
    assert C(t) == '\\';
    assert C(Drop(t, 1)) == 'u';
    assert Drop(t, 2) == Drop(text, start + 2);
    UnicodeAt(text, start + 2);
    assert Drop(t, 6) == Drop(Drop(text, start + 2), 4);
  }

  // The characters behind the u of an escape. The cursor is only ever moved on; it
  // may leave the text.
  method ReadUnicode(text: string, start: nat) returns (out: string, at: nat)
    requires start >= 2 && At(text, start - 2) == '\\' && At(text, start - 1) == 'u'
    ensures out == Unicode(Drop(text, start)).0 && at == start - 2 + Step(Drop(text, start - 2))
  {
    StepAt(text, start - 2);
    UnicodeAt(text, start);
    var uc := ParseHex4(Drop(text, start));
    at := start + 4;
    if 0xDC00 <= uc <= 0xDFFF || uc == 0 {
      return "", at;
    }
    if 0xD800 <= uc <= 0xDBFF {
      if At(text, at) != '\\' || At(text, at + 1) != 'u' {
        return "", at;
      }
      var uc2 := ParseHex4(Drop(text, at + 2));
      at := at + 6;
      if uc2 < 0xDC00 || uc2 > 0xDFFF {
        return "", at;
      }
      uc := 0x1_0000 + (uc % 0x400 * 0x400 + uc2 % 0x400);
    }
    out := Utf8(uc);
  }

  method ReadEscape(text: string, start: nat) returns (out: string, at: nat)
    requires start >= 1 && At(text, start - 1) == '\\'
    ensures out == Unescape(Drop(text, start)).0 && at == start - 1 + Step(Drop(text, start - 1))
  {
    Ahead(text, start - 1, 1);
    Ahead(text, start, 1);
    at := start + 1;
    match At(text, start)
    case 'b' => out := [BACKSPACE];
    case 'f' => out := [FORMFEED];
    case 'n' => out := "\n";
    case 'r' => out := "\r";
    case 't' => out := "\t";
    case 'u' => out, at := ReadUnicode(text, at);
    case c => out := [c];
  }

  // One character of a string, or one escape.
  method ReadChar(text: string, start: nat) returns (out: string, at: nat)
    requires !AtEnd(Drop(text, start))
    ensures at == start + Step(Drop(text, start)) && out == Taken(Drop(text, start))
  {
    ghost var t := Drop(text, start);
    assert t[1..] == Drop(text, start + 1);
    if text[start] != '\\' {
      out, at := [text[start]], start + 1;
    } else {
      out, at := ReadEscape(text, start + 1);
    }
  }

  // The first pass over a string, which only counts.
  method CountChars(text: string, start: nat) returns (len: nat, at: nat)
    requires start <= |text|
    ensures len == Counted(text[start..]) && start <= at && at - start == CountReach(text[start..])
  {
    at, len := start, 0;
    assert Drop(text, at) == text[start..];
    while At(text, at) != '\"' && At(text, at) != '\0'
      invariant start <= at && len + Counted(Drop(text, at)) == Counted(text[start..])
      invariant at - start + CountReach(Drop(text, at)) == CountReach(text[start..])
      decreases if at <= |text| then |text| - at else 0
    {
      Ahead(text, at, CountStep(Drop(text, at)));
      len := len + 1;
      at := if text[at] == '\\' then at + 2 else at + 1;
    }
  }

  // What has been unescaped so far, in front of what is still to come.
  predicate Unescaped(all: (string, string), out: string, t: string) {
    all.0 == out + Chars(t).0 && all.1 == Chars(t).1
  }

  lemma UnescapedStep(all: (string, string), out: string, t: string)
    requires Unescaped(all, out, t) && !AtEnd(t)
    ensures Unescaped(all, out + Taken(t), Drop(t, Step(t)))
  {
    CharsStep(t);
    var more := Chars(Drop(t, Step(t))).0;
    assert out + (Taken(t) + more) == out + Taken(t) + more;
  }

  lemma UnescapedAll(all: (string, string), out: string, t: string)
    requires Unescaped(all, out, t) && AtEnd(t)
    ensures all == (out, t)
  {
    assert out + "" == out;
  }

  // The second pass, which unescapes.
  method ReadChars(text: string, start: nat) returns (out: string, at: nat)
    requires start <= |text|
    ensures start <= at && at - start == Reach(text[start..]) && Chars(text[start..]) == (out, Drop(text, at))
  {
    out, at := "", start;
    ghost var t, all := text[start..], Chars(text[start..]);
    assert "" + all.0 == all.0;
    ghost var more := t;
    while At(text, at) != '\"' && At(text, at) != '\0'
      invariant start <= at && more == Drop(text, at) && C(more) == At(text, at)
      invariant at - start + Reach(more) == Reach(t) && Unescaped(all, out, more)
      decreases if at <= |text| then |text| - at else 0
    {
      UnescapedStep(all, out, more);
      ReachStep(more);
      Ahead(text, at, Step(more));
      Ahead(text, at + Step(more), 0);
      var e;
      e, at := ReadChar(text, at);
      out, more := out + e, Drop(more, Step(more));
    }
    UnescapedAll(all, out, more);
  }

  // `len` is the length set aside. The program strays if one of its passes leaves
  // the text, or if the string does not fit.
  method ReadString(text: string, start: nat) returns (verdict: Verdict, out: string, at: nat, len: nat)
    requires start <= |text|
    ensures verdict.Accepts? ==> start < at <= |text| && |out| <= len
    ensures ParseString(text[start..]) == Told(verdict, out, Drop(text, at))
  {
    out, at, len := "", start, 0;
    if At(text, start) != '\"' {
      return Rejects, out, at, len;
    }
    assert text[start..][1..] == text[start + 1..];
    len, at := CountChars(text, start + 1);
    if at > |text| {
      return Strays, out, at, len;
    }
    out, at := ReadChars(text, start + 1);
    if at > |text| || |out| > len {
      return Strays, out, at, len;
    }
    verdict := Accepts;
    if At(text, at) == '\"' {
      assert text[at..][1..] == text[at + 1..];
      at := at + 1;
    }
  }

  method ReadNumberDigits(text: string, start: nat, from: int) returns (n: int, at: nat)
    requires start <= |text|
    ensures start <= at <= |text| && (n, text[at..]) == ReadDigits(from, text[start..])
  {
    n, at := from, start;
    while IsDigit(At(text, at))
      invariant start <= at <= |text| && ReadDigits(n, text[at..]) == ReadDigits(from, text[start..])
      decreases |text| - at
    {
      assert text[at..][1..] == text[at + 1..];
      n := n * 10 + (text[at] as int - '0' as int);
      at := at + 1;
    }
  }

  lemma ToIntSame(x: int, y: int, q: int)
    requires x == y + q * 0x1_0000_0000
    ensures ToInt(x) == ToInt(y)
  {
  }

  // What wraps once may as well wrap later.
  lemma ToIntLater(n: int, d: int)
    ensures ToInt(ToInt(n) * 10 + d) == ToInt(n * 10 + d) && ToInt(-ToInt(n)) == ToInt(-n)
  {
    var q := (n + 0x8000_0000) / 0x1_0000_0000;
    assert ToInt(n) == n - q * 0x1_0000_0000;
    ToIntSame(ToInt(n) * 10 + d, n * 10 + d, -10 * q);
    ToIntSame(-ToInt(n), -n, q);
  }

  // Into an int.
  method ReadExponentDigits(text: string, start: nat) returns (e: int, at: nat)
    requires start <= |text|
    ensures start <= at <= |text|
    ensures var n := ReadDigits(0, text[start..]); e == ToInt(n.0) && text[at..] == n.1
  {
    at, e := start, 0;
    ghost var n := 0;
    while IsDigit(At(text, at))
      invariant start <= at <= |text| && e == ToInt(n) && ReadDigits(n, text[at..]) == ReadDigits(0, text[start..])
      decreases |text| - at
    {
      Tail(text, at);
      var d := text[at] as int - '0' as int;
      ToIntLater(n, d);
      e, n, at := ToInt(e * 10 + d), n * 10 + d, at + 1;
    }
  }

  method ReadExponent(text: string, start: nat) returns (e: int, at: nat)
    requires start <= |text|
    ensures start <= at <= |text| && (e, text[at..]) == ParseExponent(text[start..])
  {
    at := start;
    var minus := false;
    Tail(text, at);
    if At(text, at) == '+' {
      at := at + 1;
    } else if At(text, at) == '-' {
      minus, at := true, at + 1;
    }
    ToIntLater(ReadDigits(0, text[at..]).0, 0);
    e, at := ReadExponentDigits(text, at);
    if minus {
      e := ToInt(-e);
    }
  }

  method ReadInteger(text: string, start: nat) returns (n: int, at: nat)
    requires start <= |text|
    ensures start <= at <= |text| && (n, text[at..]) == ParseInteger(text[start..])
  {
    n, at := 0, start;
    Tail(text, at);
    if At(text, at) == '0' {
      at := at + 1;
    }
    if '1' <= At(text, at) <= '9' {
      n, at := ReadNumberDigits(text, at, 0);
    }
  }

  method ReadFraction(text: string, start: nat, from: int) returns (n: int, scale: int, at: nat)
    requires start <= |text|
    ensures start <= at <= |text| && (n, scale, text[at..]) == ParseFraction(from, text[start..])
  {
    n, scale, at := from, 0, start;
    Tail(text, at);
    if At(text, at) == '.' && IsDigit(C(Drop(text[at..], 1))) {
      n, at := ReadNumberDigits(text, start + 1, n);
      scale := start + 1 - at;
    }
  }

  method ReadNumber(text: string, start: nat) returns (number: Json, at: nat)
    requires start <= |text| && (At(text, start) == '-' || IsDigit(At(text, start)))
    ensures start < at <= |text| && ParseNumber(text[start..]) == Good(number, text[at..])
  {
    at := start;
    var minus, n, scale, exponent := At(text, at) == '-', 0, 0, 0;
    Tail(text, at);
    if minus {
      at := at + 1;
    }
    n, at := ReadInteger(text, at);
    n, scale, at := ReadFraction(text, at, n);
    Tail(text, at);
    if At(text, at) == 'e' || At(text, at) == 'E' {
      exponent, at := ReadExponent(text, at + 1);
    }
    number := Number(if minus then -n else n, scale + exponent);
    assert |ParseNumber(text[start..]).rest| < |text[start..]|;
  }

  // -------------------------------------------------------------------- values

  // The chain of items read so far, in front of the rest.
  function Chain(s: seq<Json>, tail: Items): Items {
    if s == [] then tail else Item(s[0], Chain(s[1..], tail))
  }

  lemma {:induction false} ChainSnoc(s: seq<Json>, x: Json, tail: Items)
    ensures Chain(s + [x], tail) == Chain(s, Item(x, tail))
  {
    if s != [] {
      assert (s + [x])[1..] == s[1..] + [x];
      ChainSnoc(s[1..], x, tail);
    }
  }

  function FieldChain(s: seq<(string, Json)>, tail: Fields): Fields {
    if s == [] then tail else Field(s[0].0, s[0].1, FieldChain(s[1..], tail))
  }

  lemma {:induction false} FieldChainSnoc(s: seq<(string, Json)>, name: string, x: Json, tail: Fields)
    ensures FieldChain(s + [(name, x)], tail) == FieldChain(s, Field(name, x, tail))
  {
    if s != [] {
      assert (s + [(name, x)])[1..] == s[1..] + [(name, x)];
      FieldChainSnoc(s[1..], name, x, tail);
    }
  }

  // What has been read so far, in front of what the rest of the text gives.
  function WithItems(values: seq<Json>, more: Result<Items>): Result<Items> {
    if !more.Good? then Same(more) else Good(Chain(values, more.value), more.rest)
  }

  lemma ItemsStep(t: string, values: seq<Json>)
    requires C(t) == ','
    ensures var p := ParseValue(Skip(t[1..]));
            WithItems(values, MoreItems(t)) ==
            if !p.Good? then Same(p) else WithItems(values + [p.value], MoreItems(Skip(p.rest)))
  {
    var p := ParseValue(Skip(t[1..]));
    if p.Good? {
      var more := MoreItems(Skip(p.rest));
      if more.Good? { ChainSnoc(values, p.value, more.value); }
    }
  }

  lemma ItemsEnd(t: string, values: seq<Json>)
    requires C(t) != ','
    ensures WithItems(values, MoreItems(t)) == if C(t) == ']' then Good(Chain(values, NoItem), t[1..]) else Bad
  {
  }

  function WithFields(values: seq<(string, Json)>, more: Result<Fields>): Result<Fields> {
    if !more.Good? then Same(more) else Good(FieldChain(values, more.value), more.rest)
  }

  lemma FirstItem(value: Json, more: Result<Items>)
    ensures WithItems([value], more) == if !more.Good? then Same(more) else Good(Item(value, more.value), more.rest)
  {
    if more.Good? { assert [value][1..] == [] && Chain([], more.value) == more.value; }
  }

  // A field in front of what the rest of the text gives.
  function WithField(name: string, value: Json, more: Result<Fields>): Result<Fields> {
    if !more.Good? then Same(more) else Good(Field(name, value, more.value), more.rest)
  }

  lemma FirstField(name: string, value: Json, more: Result<Fields>)
    ensures WithFields([(name, value)], more) == WithField(name, value, more)
  {
    if more.Good? { assert [(name, value)][1..] == [] && FieldChain([], more.value) == more.value; }
  }

  lemma FieldsStep(t: string, values: seq<(string, Json)>)
    requires C(t) == ','
    ensures WithFields(values, MoreFields(t)) == WithFields(values, ParseField(Skip(t[1..])))
  {
  }

  lemma FieldsEnd(t: string, values: seq<(string, Json)>)
    requires C(t) != ','
    ensures WithFields(values, MoreFields(t)) == if C(t) == '}' then Good(FieldChain(values, NoField), t[1..]) else Bad
  {
  }

  lemma WithFieldStep(values: seq<(string, Json)>, name: string, value: Json, more: Result<Fields>)
    ensures WithFields(values, WithField(name, value, more)) == WithFields(values + [(name, value)], more)
  {
    if more.Good? { FieldChainSnoc(values, name, value, more.value); }
  }

  method ReadValue(text: string, start: nat) returns (verdict: Verdict, item: Json, at: nat)
    requires start <= |text|
    ensures verdict.Accepts? ==> start < at <= |text|
    ensures ParseValue(text[start..]) == Told(verdict, item, Drop(text, at))
    decreases |text| - start, 1
  {
    item, at := Null, start;
    ghost var t := text[start..];
    if Starts(text[start..], "null") {
      assert text[start + 4..] == t[4..];
      return Accepts, Null, start + 4;
    }
    if Starts(text[start..], "false") {
      assert text[start + 5..] == t[5..];
      return Accepts, False, start + 5;
    }
    if Starts(text[start..], "true") {
      assert text[start + 4..] == t[4..];
      return Accepts, True, start + 4;
    }
    if At(text, start) == '\"' {
      var s: string;
      var len;
      verdict, s, at, len := ReadString(text, start);
      return verdict, String(s), at;
    }
    if At(text, start) == '-' || IsDigit(At(text, start)) {
      item, at := ReadNumber(text, start);
      return Accepts, item, at;
    }
    if At(text, start) == '[' {
      verdict, item, at := ReadArray(text, start);
      return;
    }
    if At(text, start) == '{' {
      verdict, item, at := ReadObject(text, start);
      return;
    }
    verdict := Rejects;
  }

  method ReadArray(text: string, start: nat) returns (verdict: Verdict, item: Json, at: nat)
    requires start <= |text| && At(text, start) == '['
    ensures verdict.Accepts? ==> start < at <= |text|
    ensures ParseArray(text[start..]) == Told(verdict, item, Drop(text, at))
    decreases |text| - start, 0
  {
    Tail(text, start);
    at := SkipSpace(text, start + 1);
    Tail(text, at);
    if At(text, at) == ']' {
      return Accepts, Array(NoItem), at + 1;
    }
    at := SkipSpace(text, at);
    var items: Items;
    verdict, items, at := ReadItems(text, at);
    item := Array(items);
  }

  // The items of an array up to the bracket.
  method ReadItems(text: string, start: nat) returns (verdict: Verdict, items: Items, at: nat)
    requires start <= |text|
    ensures verdict.Accepts? ==> start < at <= |text|
    ensures ParseItem(text[start..]) == Told(verdict, items, Drop(text, at))
    decreases |text| - start, 3
  {
    items := NoItem;
    var v: Json;
    verdict, v, at := ReadValue(text, start);
    if !verdict.Accepts? {
      return;
    }
    at := SkipSpace(text, at);
    FirstItem(v, MoreItems(text[at..]));
    verdict, items, at := ReadMoreItems(text, at, v);
  }

  method ReadMoreItems(text: string, start: nat, first: Json) returns (verdict: Verdict, items: Items, at: nat)
    requires start <= |text|
    ensures verdict.Accepts? ==> start < at <= |text|
    ensures WithItems([first], MoreItems(text[start..])) == Told(verdict, items, Drop(text, at))
    decreases |text| - start, 2
  {
    items, at := NoItem, start;
    var values := [first];
    ghost var all := WithItems(values, MoreItems(text[at..]));
    while At(text, at) == ','
      invariant start <= at <= |text| && all == WithItems(values, MoreItems(text[at..]))
      decreases |text| - at
    {
      Tail(text, at);
      ItemsStep(text[at..], values);
      at := SkipSpace(text, at + 1);
      var v: Json;
      verdict, v, at := ReadValue(text, at);
      if !verdict.Accepts? {
        return;
      }
      at := SkipSpace(text, at);
      values := values + [v];
    }
    Tail(text, at);
    ItemsEnd(text[at..], values);
    if At(text, at) == ']' {
      return Accepts, Chain(values, NoItem), at + 1;
    }
    verdict := Rejects;
  }

  lemma WithoutName(t: string, verdict: Verdict, name: string, rest: string)
    requires ParseString(t) == Told(verdict, name, rest)
    ensures !verdict.Accepts? ==> ParseField(t) == Told(verdict, NoField, "")
    ensures verdict.Accepts? && C(Skip(rest)) != ':' ==> ParseField(t).Bad?
  {
  }

  // A name and a colon.
  method ReadName(text: string, start: nat) returns (verdict: Verdict, name: string, at: nat)
    requires start <= |text|
    ensures verdict.Accepts? ==> start < at <= |text|
    ensures verdict.Accepts? ==> var p := ParseString(text[start..]);
                   p.Good? && p.value == name && C(Skip(p.rest)) == ':' && text[at..] == Skip(Skip(p.rest)[1..])
    ensures !verdict.Accepts? ==> ParseField(text[start..]) == Told(verdict, NoField, "")
  {
    var len;
    verdict, name, at, len := ReadString(text, start);
    WithoutName(text[start..], verdict, name, Drop(text, at));
    if !verdict.Accepts? {
      return;
    }
    at := SkipSpace(text, at);
    Tail(text, at);
    if At(text, at) != ':' {
      return Rejects, name, at;
    }
    at := SkipSpace(text, at + 1);
  }

  // A name, a colon and a value.
  method ReadField(text: string, start: nat) returns (verdict: Verdict, name: string, item: Json, at: nat)
    requires start <= |text|
    ensures verdict.Accepts? ==> start < at <= |text|
    ensures ParseField(text[start..]) ==
            if verdict.Accepts? then WithField(name, item, MoreFields(text[at..])) else Told(verdict, NoField, "")
    decreases |text| - start, 2
  {
    item := Null;
    verdict, name, at := ReadName(text, start);
    if !verdict.Accepts? {
      return;
    }
    verdict, item, at := ReadValue(text, at);
    if !verdict.Accepts? {
      return;
    }
    at := SkipSpace(text, at);
  }

  method ReadObject(text: string, start: nat) returns (verdict: Verdict, item: Json, at: nat)
    requires start <= |text| && At(text, start) == '{'
    ensures verdict.Accepts? ==> start < at <= |text|
    ensures ParseObject(text[start..]) == Told(verdict, item, Drop(text, at))
    decreases |text| - start, 0
  {
    Tail(text, start);
    at := SkipSpace(text, start + 1);
    Tail(text, at);
    if At(text, at) == '}' {
      return Accepts, Object(NoField), at + 1;
    }
    at := SkipSpace(text, at);
    var fields: Fields;
    verdict, fields, at := ReadFields(text, at);
    item := Object(fields);
  }

  // The fields of an object up to the bracket.
  method ReadFields(text: string, start: nat) returns (verdict: Verdict, fields: Fields, at: nat)
    requires start <= |text|
    ensures verdict.Accepts? ==> start < at <= |text|
    ensures ParseField(text[start..]) == Told(verdict, fields, Drop(text, at))
    decreases |text| - start, 4
  {
    fields := NoField;
    var name: string, v: Json;
    verdict, name, v, at := ReadField(text, start);
    if !verdict.Accepts? {
      return;
    }
    FirstField(name, v, MoreFields(text[at..]));
    verdict, fields, at := ReadMoreFields(text, at, name, v);
  }

  method ReadMoreFields(text: string, start: nat, first: string, value: Json)
    returns (verdict: Verdict, fields: Fields, at: nat)
    requires start <= |text|
    ensures verdict.Accepts? ==> start < at <= |text|
    ensures WithFields([(first, value)], MoreFields(text[start..])) == Told(verdict, fields, Drop(text, at))
    decreases |text| - start, 3
  {
    fields, at := NoField, start;
    var values := [(first, value)];
    ghost var all := WithFields(values, MoreFields(text[at..]));
    while At(text, at) == ','
      invariant start <= at <= |text| && all == WithFields(values, MoreFields(text[at..]))
      decreases |text| - at
    {
      Tail(text, at);
      FieldsStep(text[at..], values);
      at := SkipSpace(text, at + 1);
      var name: string, v: Json;
      verdict, name, v, at := ReadField(text, at);
      if !verdict.Accepts? {
        return;
      }
      WithFieldStep(values, name, v, MoreFields(text[at..]));
      values := values + [(name, v)];
    }
    Tail(text, at);
    FieldsEnd(text[at..], values);
    if At(text, at) == '}' {
      return Accepts, FieldChain(values, NoField), at + 1;
    }
    verdict := Rejects;
  }

  method Parse(text: string) returns (verdict: Verdict, item: Json, at: nat)
    ensures verdict.Accepts? ==> at <= |text|
    ensures JsonRoundTrip.Parse(text) == Told(verdict, item, Drop(text, at))
  {
    assert text[0..] == text;
    at := SkipSpace(text, 0);
    verdict, item, at := ReadValue(text, at);
  }
}

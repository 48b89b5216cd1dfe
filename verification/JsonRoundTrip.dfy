// Parsing what was printed gives back the value.
module JsonRoundTrip {
  import opened JsonParser
  import opened JsonString
  import opened JsonText

  // ------------------------------------------------------------------- strings

  lemma Cons(c: char, t: string)
    ensures ([c] + t)[0] == c && ([c] + t)[1..] == t
  {
  }

  lemma HexValueOf(n: int)
    requires 0 <= n < 16
    ensures HexValue(Hex(n)) == n
  {
  }

  lemma ParseHex4Of(n: int, r: string)
    requires 0 <= n < 32
    ensures ParseHex4(Hex4(n) + r) == n
  {
    var t := Hex4(n) + r;
    HexValueOf(n / 16);
    HexValueOf(n % 16);
    assert t[0] == t[1] == Hex(0);
    assert Drop(t, 1)[0] == t[1] && Drop(t, 2)[0] == t[2] && Drop(t, 3)[0] == t[3];
  }

  lemma UnescapeOf(c: char, r: string)
    requires c != '\0' && !Plain(c)
    ensures Unescape(Escape(c)[1..] + r) == ([c], r)
  {
    var e := Escape(c)[1..];
    assert (e + r)[0] == e[0];
    assert Drop(e + r, 1) == e[1..] + r;
    if e[0] == 'u' {
      var n := c as int;
      assert e[1..] == Hex4(n);
      ParseHex4Of(n, r);
      assert Drop(Hex4(n) + r, 4) == r;
    }
  }

  lemma CharsOfEscape(c: char, r: string)
    requires c != '\0'
    ensures Chars(Escape(c) + r) == ([c] + Chars(r).0, Chars(r).1)
  {
    if Plain(c) {
      Cons(c, r);
    } else {
      var e := Escape(c)[1..];
      assert Escape(c) + r == "\\" + (e + r);
      Cons('\\', e + r);
      UnescapeOf(c, r);
    }
  }

  lemma {:induction false} CharsOf(s: string, r: string)
    requires NulFree(s)
    ensures Chars(Escaped(s) + ("\"" + r)) == (s, "\"" + r)
  {
    if s != [] {
      var t := Escaped(s[1..]) + ("\"" + r);
      assert Escaped(s) + ("\"" + r) == Escape(s[0]) + t;
      CharsOfEscape(s[0], t);
      CharsOf(s[1..], r);
      assert s == [s[0]] + s[1..];
    } else {
      assert Escaped(s) + ("\"" + r) == "\"" + r;
    }
  }

  lemma EscapeOk(c: char, r: string)
    requires c != '\0' && EscapesOk(r)
    ensures EscapesOk(Escape(c) + r)
  {
    var e, t := Escape(c), Escape(c) + r;
    if Plain(c) {
      Cons(c, r);
    } else if |e| == 2 {
      assert t[0] == '\\' && t[1] == e[1] == Drop(t, 1)[0] && t[2..] == r;
    } else {
      var n := c as int;
      assert t[0] == '\\' && t[1] == 'u' == Drop(t, 1)[0] && t[6..] == r;
      assert t[2..] == Hex4(n) + r && FourDigits(t[2..]);
    }
  }

  lemma {:induction false} EscapedOk(s: string, r: string)
    requires NulFree(s)
    ensures EscapesOk(Escaped(s) + ("\"" + r))
  {
    if s == [] {
      assert Escaped(s) + ("\"" + r) == "\"" + r;
    } else {
      var t := Escaped(s[1..]) + ("\"" + r);
      EscapedOk(s[1..], r);
      EscapeOk(s[0], t);
      assert Escaped(s) + ("\"" + r) == Escape(s[0]) + t;
    }
  }

  lemma ParseStringOf(s: string, r: string)
    requires NulFree(s)
    ensures ParseString(StringText(s) + r) == Good(s, r)
  {
    var t := StringText(s) + r;
    assert t[1..] == Escaped(s) + ("\"" + r);
    CharsOf(s, r);
    EscapedOk(s, r);
    UnescapedFits(t[1..]);
    assert ("\"" + r)[1..] == r;
  }

  // ------------------------------------------------------------------- numbers

  // Behind a number, what does not continue it.
  predicate Stops(r: string) {
    !IsDigit(C(r)) && C(r) !in {'.', 'e', 'E'}
  }

  lemma {:induction false} ReadDigitsOf(n: nat, r: string)
    ensures ReadDigits(0, Digits(n) + r) == ReadDigits(n, r)
    decreases n
  {
    if n < 10 {
      assert (Digits(n) + r)[1..] == r;
    } else {
      var t := [Digit(n % 10)] + r;
      assert Digits(n) + r == Digits(n / 10) + t;
      ReadDigitsOf(n / 10, t);
      assert t[1..] == r;
    }
  }

  lemma {:induction false} FirstDigit(n: nat)
    ensures IsDigit(Digits(n)[0]) && (Digits(n)[0] == '0' <==> n == 0)
    decreases n
  {
    if n >= 10 { FirstDigit(n / 10); }
  }

  lemma ParseNumberOf(n: int, r: string)
    requires Stops(r)
    ensures C(NumberText(n) + r) == '-' || IsDigit(C(NumberText(n) + r))
    ensures ParseNumber(NumberText(n) + r) == Good(Number(n, 0), r)
  {
    var k: nat := if n < 0 then -n else n;
    var t := NumberText(n) + r;
    var t1 := if C(t) == '-' then t[1..] else t;
    FirstDigit(k);
    assert t[0] == NumberText(n)[0];
    assert t1 == Digits(k) + r by { if n < 0 { Cons('-', Digits(k) + r); assert t == "-" + (Digits(k) + r); } }
    assert t1[0] == Digits(k)[0];
    ReadDigitsOf(k, r);
    if k == 0 {
      assert t1[1..] == r;
    }
  }

  // -------------------------------------------------------------------- values

  lemma {:induction false} SkipTabs(n: int, r: string)
    ensures Skip(Tabs(n) + r) == Skip(r)
    decreases n
  {
    if n > 0 {
      var t := Tabs(n) + r;
      assert t[0] == '\t' && t[1..] == Tabs(n - 1) + r;
      SkipTabs(n - 1, r);
    } else {
      assert Tabs(n) + r == r;
    }
  }

  lemma SkipBlank(fmt: bool, r: string)
    ensures Skip(Blank(fmt, "\n") + r) == Skip(Blank(fmt, "\t") + r) == Skip(Blank(fmt, " ") + r) == Skip(r)
  {
    assert ("\n" + r)[1..] == ("\t" + r)[1..] == (" " + r)[1..] == r;
    assert "" + r == r;
  }

  lemma SkipIndent(fmt: bool, n: int, r: string)
    ensures Skip(Blank(fmt, Tabs(n)) + r) == Skip(r)
  {
    SkipTabs(n, r);
    assert "" + r == r;
  }

  // No text of a value starts with white space or a bracket that closes.
  predicate StartsValue(t: string) {
    C(t) as int > 32 && C(t) != ']' && C(t) != '}'
  }

  lemma PutStarts(j: Json, depth: nat, fmt: bool, r: string)
    requires Printable(j)
    ensures StartsValue(Put(j, depth, fmt, r)) && Skip(Put(j, depth, fmt, r)) == Put(j, depth, fmt, r)
  {
    var t := Text(j, depth, fmt);
    PutIsText(j, depth, fmt, r);
    if j.Number? { FirstDigit(if j.mantissa < 0 then -j.mantissa else j.mantissa); }
    assert |t| > 0 && (t + r)[0] == t[0];
  }

  lemma ParseWord(r: string)
    ensures ParseValue("null" + r) == Good(Null, r) && ParseValue("false" + r) == Good(False, r)
            && ParseValue("true" + r) == Good(True, r)
  {
    assert ("null" + r)[4..] == r && ("false" + r)[5..] == r && ("true" + r)[4..] == r;
    assert ("false" + r)[0] == 'f' && ("true" + r)[0] == 't';
  }

  lemma ParseScalar(j: Json, r: string)
    requires Printable(j) && Stops(r) && (j.Number? || j.String?)
    ensures ParseValue((if j.Number? then NumberText(j.mantissa) else StringText(j.s)) + r) == Good(j, r)
  {
    if j.Number? {
      ParseNumberOf(j.mantissa, r);
    } else {
      ParseStringOf(j.s, r);
      assert (StringText(j.s) + r)[0] == '\"';
    }
  }

  lemma {:induction false} ParsePut(j: Json, depth: nat, fmt: bool, r: string)
    requires Printable(j) && Stops(r)
    ensures ParseValue(Put(j, depth, fmt, r)) == Good(j, r)
    decreases j, 0
  {
    match j
    case Null => ParseWord(r);
    case False => ParseWord(r);
    case True => ParseWord(r);
    case Number(m, _) => ParseScalar(j, r);
    case String(s) => ParseScalar(j, r);
    case Array(items) => ParseArrayOf(items, depth, fmt, r);
    case Object(fields) =>
      ParseObjectOf(fields, depth, fmt, r);
      ValueIsObject(Put(j, depth, fmt, r));
  }

  lemma {:induction false} ParseArrayOf(items: Items, depth: nat, fmt: bool, r: string)
    requires ItemsPrintable(items)
    ensures ParseValue(Put(Array(items), depth, fmt, r)) == Good(Array(items), r)
    decreases items, 1
  {
    var t1 := PutItems(items, depth + 1, fmt, "]" + r);
    Cons('[', t1);
    Cons(']', r);
    if items.Item? {
      ItemsStart(items, depth + 1, fmt, "]" + r);
      ParseItemOf(items, depth + 1, fmt, r);
    }
  }

  lemma ItemsStart(items: Items, depth: nat, fmt: bool, r: string)
    requires ItemsPrintable(items) && items.Item?
    ensures var t := PutItems(items, depth, fmt, r); StartsValue(t) && Skip(t) == t
  {
    var more := if items.next.NoItem? then r else "," + (Blank(fmt, " ") + PutItems(items.next, depth, fmt, r));
    PutStarts(items.value, depth, fmt, more);
  }

  lemma {:induction false} ParseItemOf(items: Items, depth: nat, fmt: bool, r: string)
    requires ItemsPrintable(items) && items.Item?
    ensures ParseItem(PutItems(items, depth, fmt, "]" + r)) == Good(items, r)
    decreases items, 0
  {
    var next := items.next;
    Cons(']', r);
    if next.NoItem? {
      ParsePut(items.value, depth, fmt, "]" + r);
    } else {
      var t2 := PutItems(next, depth, fmt, "]" + r);
      Cons(',', Blank(fmt, " ") + t2);
      ParsePut(items.value, depth, fmt, "," + (Blank(fmt, " ") + t2));
      SkipBlank(fmt, t2);
      ItemsStart(next, depth, fmt, "]" + r);
      ParseItemOf(next, depth, fmt, r);
    }
  }

  // What follows the last field: white space, then the bracket.
  predicate Closes(close: string, r: string) {
    Skip(close) == "}" + r && Stops(close)
  }

  lemma CloseCloses(fmt: bool, n: int, r: string)
    ensures Closes(Blank(fmt, Tabs(n)) + ("}" + r), r)
  {
    var close := Blank(fmt, Tabs(n)) + ("}" + r);
    Cons('}', r);
    SkipIndent(fmt, n, "}" + r);
    assert close[0] == if fmt && n > 0 then '\t' else '}';
  }

  lemma ParseBrace(t: string, fields: Fields, r: string)
    requires if fields.NoField? then Skip(t) == "}" + r
             else C(Skip(t)) == '\"' && Skip(Skip(t)) == Skip(t) && ParseField(Skip(t)) == Good(fields, r)
    ensures C("{" + t) == '{' && ParseObject("{" + t) == Good(Object(fields), r)
  {
    Cons('{', t);
    Cons('}', r);
  }

  lemma ValueIsObject(t: string)
    requires C(t) == '{'
    ensures ParseValue(t) == ParseObject(t)
  {
  }

  lemma {:induction false} ParseObjectOf(fields: Fields, depth: nat, fmt: bool, r: string)
    requires FieldsPrintable(fields)
    ensures var close := Blank(fmt, Tabs(Closing(fields, depth))) + ("}" + r);
            var t := "{" + (Blank(fmt, "\n") + PutFields(fields, depth + 1, fmt, close));
            C(t) == '{' && ParseObject(t) == Good(Object(fields), r)
    decreases fields, 1
  {
    var close := Blank(fmt, Tabs(Closing(fields, depth))) + ("}" + r);
    var t1 := PutFields(fields, depth + 1, fmt, close);
    SkipBlank(fmt, t1);
    CloseCloses(fmt, Closing(fields, depth), r);
    if fields.Field? {
      FieldsStart(fields, depth + 1, fmt, close);
      ParseFieldOf(fields, depth + 1, fmt, close, r);
    }
    ParseBrace(Blank(fmt, "\n") + t1, fields, r);
  }

  // A field starts with its name, once white space is skipped.
  lemma FieldsStart(fields: Fields, depth: nat, fmt: bool, close: string)
    requires FieldsPrintable(fields) && fields.Field?
    ensures var t, next := Skip(PutFields(fields, depth, fmt, close)), fields.next;
            && Skip(t) == t && C(t) == '\"'
            && t == StringText(fields.name) + (":" + (Blank(fmt, "\t") +
                Put(fields.value, depth, fmt, Comma(next) + (Blank(fmt, "\n") + PutFields(next, depth, fmt, close)))))
  {
    var next := fields.next;
    var t := StringText(fields.name) + (":" + (Blank(fmt, "\t") +
               Put(fields.value, depth, fmt, Comma(next) + (Blank(fmt, "\n") + PutFields(next, depth, fmt, close)))));
    SkipIndent(fmt, depth, t);
    assert t[0] == '\"';
  }

  lemma {:induction false} ParseFieldOf(fields: Fields, depth: nat, fmt: bool, close: string, r: string)
    requires FieldsPrintable(fields) && fields.Field? && Closes(close, r)
    ensures ParseField(Skip(PutFields(fields, depth, fmt, close))) == Good(fields, r)
    decreases fields, 0
  {
    var next := fields.next;
    var t3 := Comma(next) + (Blank(fmt, "\n") + PutFields(next, depth, fmt, close));
    var t2 := Put(fields.value, depth, fmt, t3);
    FieldsStart(fields, depth, fmt, close);
    ParseStringOf(fields.name, ":" + (Blank(fmt, "\t") + t2));
    Cons(':', Blank(fmt, "\t") + t2);
    SkipBlank(fmt, t2);
    PutStarts(fields.value, depth, fmt, t3);
    FieldsGoOn(next, depth, fmt, close, r);
    ParsePut(fields.value, depth, fmt, t3);
  }

  lemma {:induction false} FieldsGoOn(next: Fields, depth: nat, fmt: bool, close: string, r: string)
    requires FieldsPrintable(next) && Closes(close, r)
    ensures var t := Comma(next) + (Blank(fmt, "\n") + PutFields(next, depth, fmt, close));
            Stops(t) && MoreFields(Skip(t)) == Good(next, r)
    decreases next, 1
  {
    var t1 := PutFields(next, depth, fmt, close);
    SkipBlank(fmt, t1);
    Cons('}', r);
    if next.NoField? {
      assert "" + (Blank(fmt, "\n") + t1) == Blank(fmt, "\n") + t1 == if fmt then "\n" + close else close;
    } else {
      Cons(',', Blank(fmt, "\n") + t1);
      ParseFieldOf(next, depth, fmt, close, r);
    }
  }

  function Parse(text: string): Result<Json> { ParseValue(Skip(text)) }

  function Print(j: Json): string
    requires Printable(j)
  {
    Text(j, 0, true)
  }

  function PrintUnformatted(j: Json): string
    requires Printable(j)
  {
    Text(j, 0, false)
  }

  // Either print of a value parses back to it, to the end of the text.
  lemma RoundTrip(j: Json)
    requires Printable(j)
    ensures Parse(Print(j)) == Good(j, "") && Parse(PrintUnformatted(j)) == Good(j, "")
  {
    forall fmt: bool
      ensures Parse(Text(j, 0, fmt)) == Good(j, "")
    {
      PutIsText(j, 0, fmt, "");
      assert Text(j, 0, fmt) + "" == Text(j, 0, fmt);
      PutStarts(j, 0, fmt, "");
      ParsePut(j, 0, fmt, "");
    }
  }
}

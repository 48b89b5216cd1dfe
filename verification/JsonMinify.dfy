// White space and comments taken out of a JSON text.
module JsonMinify {
  import opened JsonText
  import opened JsonParser
  import opened JsonRoundTrip

  predicate White(c: char) { c == ' ' || c == '\t' || c == '\r' || c == '\n' }

  // To the end of the line.
  function LineEnd(t: string): (r: string)
    ensures |r| <= |t|
  {
    if C(t) == '\0' || t[0] == '\n' then t else LineEnd(t[1..])
  }

  // To the star and slash that end a comment.
  function BlockEnd(t: string): (r: string)
    ensures |r| <= |t|
  {
    if C(t) == '\0' || (t[0] == '*' && C(t[1..]) == '/') then t else BlockEnd(t[1..])
  }

  // A string literal behind its first quote, up to its last.
  function Literal(t: string): (r: (string, string))
    ensures |r.1| <= |t|
    decreases |t|
  {
    if C(t) == '\0' || C(t) == '\"' then ("", t)
    else
      var n := if t[0] == '\\' && |t| > 1 then 2 else 1;
      var (s, r) := Literal(t[n..]);
      (t[..n] + s, r)
  }

  function Minified(t: string): string
    decreases |t|
  {
    if C(t) == '\0' then ""
    else if White(t[0]) then Minified(t[1..])
    else if t[0] == '/' && C(t[1..]) == '/' then Minified(LineEnd(t[1..]))
    else if t[0] == '/' && C(t[1..]) == '*' then Minified(Drop(BlockEnd(t), 2))
    else if t[0] == '\"' then
      var (s, r) := Literal(t[1..]);
      "\"" + s + (if r == [] then "" else [r[0]] + Minified(r[1..]))
    else [t[0]] + Minified(t[1..])
  }

  // A literal whose last character is not a lone backslash.
  predicate LiteralClosed(t: string)
    decreases |t|
  {
    C(t) == '\"' ||
    (C(t) != '\0' && (t[0] == '\\' ==> C(t[1..]) != '\0') && LiteralClosed(t[if t[0] == '\\' then 2 else 1..]))
  }

  // Every literal and comment ends before the text does.
  predicate Closed(t: string)
    decreases |t|
  {
    if C(t) == '\0' then true
    else if White(t[0]) then Closed(t[1..])
    else if t[0] == '/' && C(t[1..]) == '/' then Closed(LineEnd(t[1..]))
    else if t[0] == '/' && C(t[1..]) == '*' then C(BlockEnd(t)) != '\0' && Closed(Drop(BlockEnd(t), 2))
    else if t[0] == '\"' then LiteralClosed(t[1..]) && C(Literal(t[1..]).1) == '\"' && Closed(Literal(t[1..]).1[1..])
    else Closed(t[1..])
  }

  // ---------------------------------------------------------- pieces of a print

  // How far the scan of a literal gets; behind a lone backslash it takes the
  // terminator for the character that is escaped.
  function LiteralReach(t: string): nat
    decreases |t|
  {
    if C(t) == '\"' || C(t) == '\0' then 0
    else if t[0] != '\\' then 1 + LiteralReach(t[1..])
    else if C(t[1..]) == '\0' then 2
    else 2 + LiteralReach(t[2..])
  }

  // How far the cursor gets: past the end of the text once it has passed the
  // terminator. What it takes for the end of a literal may be the terminator, and a
  // block comment is left two characters behind the place where its scan ends.
  function Reach(t: string): nat
    decreases |t|
  {
    if C(t) == '\0' then 0
    else if White(t[0]) then 1 + Reach(t[1..])
    else if t[0] == '/' && C(t[1..]) == '/' then |t| - |LineEnd(t[1..])| + Reach(LineEnd(t[1..]))
    else if t[0] == '/' && C(t[1..]) == '*' then
      var k := |t| - |BlockEnd(t)| + 2;
      k + Reach(Drop(BlockEnd(t), 2))
    else if t[0] == '\"' then
      var k := LiteralReach(t[1..]) + 2;
      if k <= |t| then k + Reach(t[k..]) else k
    else 1 + Reach(t[1..])
  }

  lemma {:induction false} LiteralReaches(t: string)
    requires NulFree(t)
    ensures LiteralClosed(t) <==> LiteralReach(t) < |t|
    ensures LiteralClosed(t) ==> Literal(t).1 == t[LiteralReach(t)..] && C(Literal(t).1) == '\"'
    decreases |t|
  {
    if C(t) != '\"' && C(t) != '\0' {
      if t[0] != '\\' {
        LiteralReaches(t[1..]);
      } else if C(t[1..]) != '\0' {
        LiteralReaches(t[2..]);
      }
    }
  }

  lemma {:induction false} LineEndFree(t: string)
    requires NulFree(t)
    ensures NulFree(LineEnd(t))
  {
    if C(t) != '\0' { LineEndFree(t[1..]); }
  }

  lemma {:induction false} BlockEndFree(t: string)
    requires NulFree(t)
    ensures NulFree(BlockEnd(t)) && (BlockEnd(t) == [] || |BlockEnd(t)| >= 2)
  {
    if C(t) != '\0' { BlockEndFree(t[1..]); }
  }

  // The cursor stays in the text just when every literal and comment is closed.
  lemma {:induction false} ClosedReach(t: string)
    requires NulFree(t)
    ensures Closed(t) <==> Reach(t) <= |t|
    decreases |t|
  {
    if C(t) != '\0' {
      if White(t[0]) {
        ClosedReach(t[1..]);
      } else if t[0] == '/' && C(t[1..]) == '/' {
        LineEndFree(t[1..]);
        ClosedReach(LineEnd(t[1..]));
      } else if t[0] == '/' && C(t[1..]) == '*' {
        BlockEndFree(t);
        ClosedReach(Drop(BlockEnd(t), 2));
      } else if t[0] == '\"' {
        var k := LiteralReach(t[1..]) + 2;
        LiteralReaches(t[1..]);
        if k <= |t| {
          assert t[1..][k - 2..][1..] == t[k..];
          ClosedReach(t[k..]);
        }
      } else {
        ClosedReach(t[1..]);
      }
    }
  }

  // Behind a lone quote the cursor passes the terminator.
  lemma LoneQuoteLeaves()
    ensures !Closed("\"") && Reach("\"") == |"\""| + 1
  {
    assert "\""[1..] == "" && !LiteralClosed("") && LiteralReach("") == 0;
  }

  predicate Solid(c: char) { c != '\0' && !White(c) && c != '/' && c != '\"' }

  lemma {:induction false} MinifySolid(w: string, r: string)
    requires forall i :: 0 <= i < |w| ==> Solid(w[i])
    ensures Minified(w + r) == w + Minified(r) && (Closed(w + r) <==> Closed(r))
  {
    if w == [] {
      assert w + r == r;
    } else {
      assert w + r == [w[0]] + (w[1..] + r);
      Cons(w[0], w[1..] + r);
      MinifySolid(w[1..], r);
    }
  }

  lemma {:induction false} MinifyWhite(w: string, r: string)
    requires forall i :: 0 <= i < |w| ==> White(w[i])
    ensures Minified(w + r) == Minified(r) && (Closed(w + r) <==> Closed(r))
  {
    if w == [] {
      assert w + r == r;
    } else {
      assert w + r == [w[0]] + (w[1..] + r);
      Cons(w[0], w[1..] + r);
      MinifyWhite(w[1..], r);
    }
  }

  lemma {:induction false} TabsWhite(n: int)
    ensures forall i :: 0 <= i < |Tabs(n)| ==> White(Tabs(n)[i])
  {
    if n > 0 { TabsWhite(n - 1); }
  }

  lemma {:induction false} DigitsSolid(n: nat)
    ensures forall i :: 0 <= i < |Digits(n)| ==> Solid(Digits(n)[i])
  {
    if n >= 10 { DigitsSolid(n / 10); }
  }

  lemma LiteralOfOne(c: char, r: string)
    requires c != '\0' && c != '\"' && c != '\\'
    ensures Literal([c] + r) == ([c] + Literal(r).0, Literal(r).1) && (LiteralClosed([c] + r) <==> LiteralClosed(r))
  {
    Cons(c, r);
    assert ([c] + r)[..1] == [c];
  }

  lemma LiteralOfTwo(c: char, r: string)
    requires c != '\0'
    ensures Literal("\\" + ([c] + r)) == ("\\" + [c] + Literal(r).0, Literal(r).1)
    ensures LiteralClosed("\\" + ([c] + r)) <==> LiteralClosed(r)
  {
    var t := "\\" + ([c] + r);
    assert t[0] == '\\' && t[..2] == "\\" + [c] && t[2..] == r && t[1..] == [c] + r;
    Cons(c, r);
  }

  lemma LiteralOfHex(h: string, r: string)
    requires |h| == 4 && forall i :: 0 <= i < 4 ==> h[i] != '\0' && h[i] != '\"' && h[i] != '\\'
    ensures Literal(h + r) == (h + Literal(r).0, Literal(r).1) && (LiteralClosed(h + r) <==> LiteralClosed(r))
  {
    var r3 := [h[3]] + r;
    var r2 := [h[2]] + r3;
    var r1 := [h[1]] + r2;
    LiteralOfOne(h[0], r1);
    LiteralOfOne(h[1], r2);
    LiteralOfOne(h[2], r3);
    LiteralOfOne(h[3], r);
    assert h + r == [h[0]] + r1;
    assert [h[0]] + ([h[1]] + ([h[2]] + ([h[3]] + Literal(r).0))) == h + Literal(r).0;
  }

  lemma EscapeShape(c: char)
    requires c != '\0' && !Plain(c)
    ensures var e := Escape(c);
            && |e| >= 2 && e[0] == '\\' && e[1] != '\0' && e == "\\" + [e[1]] + e[2..]
            && (|e| == 2 || |e| == 6) && forall i :: 2 <= i < |e| ==> e[i] != '\0' && e[i] != '\"' && e[i] != '\\'
  {
  }

  lemma LiteralOfPair(e: string, r: string)
    requires |e| == 2 || (|e| == 6 && forall i :: 2 <= i < 6 ==> e[i] != '\0' && e[i] != '\"' && e[i] != '\\')
    requires e[0] == '\\' && e[1] != '\0'
    ensures Literal(e + r) == (e + Literal(r).0, Literal(r).1)
    ensures LiteralClosed(e + r) <==> LiteralClosed(r)
  {
    var h := e[2..];
    assert e + r == "\\" + ([e[1]] + (h + r));
    LiteralOfTwo(e[1], h + r);
    if |e| == 2 {
      assert h + r == r && "\\" + [e[1]] + Literal(r).0 == e + Literal(r).0;
    } else {
      LiteralOfHex(h, r);
      assert "\\" + [e[1]] + (h + Literal(r).0) == e + Literal(r).0;
    }
  }

  lemma LiteralOfEscape(c: char, r: string)
    requires c != '\0'
    ensures Literal(Escape(c) + r) == (Escape(c) + Literal(r).0, Literal(r).1)
    ensures LiteralClosed(Escape(c) + r) <==> LiteralClosed(r)
  {
    if Plain(c) {
      LiteralOfOne(c, r);
    } else {
      EscapeShape(c);
      LiteralOfPair(Escape(c), r);
    }
  }

  lemma {:induction false} LiteralOfEscaped(s: string, r: string)
    requires NulFree(s)
    ensures Literal(Escaped(s) + ("\"" + r)) == (Escaped(s), "\"" + r) && LiteralClosed(Escaped(s) + ("\"" + r))
  {
    if s == [] {
      assert Escaped(s) + ("\"" + r) == "\"" + r;
    } else {
      var t := Escaped(s[1..]) + ("\"" + r);
      assert Escaped(s) + ("\"" + r) == Escape(s[0]) + t;
      LiteralOfEscape(s[0], t);
      LiteralOfEscaped(s[1..], r);
    }
  }

  lemma MinifyQuoted(t: string, e: string, r: string)
    requires Literal(t) == (e, "\"" + r) && LiteralClosed(t)
    ensures Minified("\"" + t) == "\"" + e + ("\"" + Minified(r)) && (Closed("\"" + t) <==> Closed(r))
  {
    Cons('\"', t);
    Cons('\"', r);
  }

  lemma MinifyString(s: string, r: string)
    requires NulFree(s)
    ensures Minified(StringText(s) + r) == StringText(s) + Minified(r) && (Closed(StringText(s) + r) <==> Closed(r))
  {
    var t := Escaped(s) + ("\"" + r);
    assert StringText(s) + r == "\"" + t;
    LiteralOfEscaped(s, r);
    MinifyQuoted(t, Escaped(s), r);
    assert "\"" + Escaped(s) + ("\"" + Minified(r)) == StringText(s) + Minified(r);
  }

  lemma MinifyBlank(fmt: bool, w: string, r: string)
    requires forall i :: 0 <= i < |w| ==> White(w[i])
    ensures Minified(Blank(fmt, w) + r) == Minified(r) && (Closed(Blank(fmt, w) + r) <==> Closed(r))
  {
    MinifyWhite(Blank(fmt, w), r);
  }

  // ---------------------------------------------------------------- whole values

  lemma {:induction false} MinifyPut(j: Json, d: nat, e: nat, fmt: bool, r: string)
    requires Printable(j)
    ensures Minified(Put(j, d, fmt, r)) == Put(j, e, false, Minified(r)) && (Closed(Put(j, d, fmt, r)) <==> Closed(r))
    decreases j, 0
  {
    match j
    case Array(items) =>
      MinifySolid("[", PutItems(items, d + 1, fmt, "]" + r));
      MinifyItems(items, d + 1, e + 1, fmt, "]" + r);
      MinifySolid("]", r);
    case Object(fields) => MinifyObject(fields, d, e, fmt, r);
    case String(s) => MinifyString(s, r);
    case Number(m, _) =>
      DigitsSolid(if m < 0 then -m else m);
      MinifySolid(NumberText(m), r);
    case _ => MinifySolid(Text(j, d, fmt), r);
  }

  lemma {:induction false} MinifyItems(items: Items, d: nat, e: nat, fmt: bool, r: string)
    requires ItemsPrintable(items)
    ensures Minified(PutItems(items, d, fmt, r)) == PutItems(items, e, false, Minified(r))
    ensures Closed(PutItems(items, d, fmt, r)) <==> Closed(r)
    decreases items, 0
  {
    if items.Item? {
      var next := items.next;
      var t := PutItems(next, d, fmt, r);
      MinifyPut(items.value, d, e, fmt, if next.NoItem? then r else "," + (Blank(fmt, " ") + t));
      if next.Item? {
        MinifySolid(",", Blank(fmt, " ") + t);
        MinifyBlank(fmt, " ", t);
        MinifyItems(next, d, e, fmt, r);
      }
      assert "" + PutItems(next, e, false, Minified(r)) == PutItems(next, e, false, Minified(r));
    }
  }

  lemma {:induction false} MinifyObject(fields: Fields, d: nat, e: nat, fmt: bool, r: string)
    requires FieldsPrintable(fields)
    ensures Minified(Put(Object(fields), d, fmt, r)) == Put(Object(fields), e, false, Minified(r))
    ensures Closed(Put(Object(fields), d, fmt, r)) <==> Closed(r)
    decreases fields, 1
  {
    var close := Blank(fmt, Tabs(Closing(fields, d))) + ("}" + r);
    var t := PutFields(fields, d + 1, fmt, close);
    MinifySolid("{", Blank(fmt, "\n") + t);
    MinifyBlank(fmt, "\n", t);
    MinifyFields(fields, d + 1, e + 1, fmt, close);
    TabsWhite(Closing(fields, d));
    MinifyBlank(fmt, Tabs(Closing(fields, d)), "}" + r);
    MinifySolid("}", r);
    var t' := PutFields(fields, e + 1, false, "}" + Minified(r));
    assert "" + ("}" + Minified(r)) == "}" + Minified(r) && "" + t' == t';
  }

  lemma {:induction false} MinifyFields(fields: Fields, d: nat, e: nat, fmt: bool, r: string)
    requires FieldsPrintable(fields)
    ensures Minified(PutFields(fields, d, fmt, r)) == PutFields(fields, e, false, Minified(r))
    ensures Closed(PutFields(fields, d, fmt, r)) <==> Closed(r)
    decreases fields, 0
  {
    if fields.Field? {
      var next := fields.next;
      var t4 := PutFields(next, d, fmt, r);
      var t3 := Comma(next) + (Blank(fmt, "\n") + t4);
      var t2 := Put(fields.value, d, fmt, t3);
      var t1 := ":" + (Blank(fmt, "\t") + t2);
      TabsWhite(d);
      MinifyBlank(fmt, Tabs(d), StringText(fields.name) + t1);
      MinifyString(fields.name, t1);
      MinifySolid(":", Blank(fmt, "\t") + t2);
      MinifyBlank(fmt, "\t", t2);
      MinifyPut(fields.value, d, e, fmt, t3);
      MinifySolid(Comma(next), Blank(fmt, "\n") + t4);
      MinifyBlank(fmt, "\n", t4);
      MinifyFields(next, d, e, fmt, r);
      NoBlank(Comma(next), fields, e, Minified(r));
    }
  }

  lemma NoBlank(c: string, fields: Fields, e: nat, r: string)
    requires FieldsPrintable(fields) && fields.Field? && c == Comma(fields.next)
    ensures PutFields(fields, e, false, r)
         == StringText(fields.name) + (":" + Put(fields.value, e, false, c + PutFields(fields.next, e, false, r)))
  {
    var t4 := PutFields(fields.next, e, false, r);
    var t2 := Put(fields.value, e, false, c + t4);
    assert "" + t4 == t4 && "" + t2 == t2;
    var t := StringText(fields.name) + (":" + t2);
    assert "" + t == t;
  }

  // Minifying the formatted print gives the unformatted one.
  lemma MinifyPrint(j: Json)
    requires Printable(j)
    ensures Minified(Print(j)) == PrintUnformatted(j) && Closed(Print(j))
  {
    PutIsText(j, 0, true, "");
    PutIsText(j, 0, false, "");
    assert Text(j, 0, true) + "" == Text(j, 0, true) && Text(j, 0, false) + "" == Text(j, 0, false);
    MinifyPut(j, 0, 0, true, "");
  }

  // A minified print is minified for good.
  lemma MinifyTwice(j: Json)
    requires Printable(j)
    ensures Minified(PrintUnformatted(j)) == PrintUnformatted(j)
  {
    PutIsText(j, 0, false, "");
    assert Text(j, 0, false) + "" == Text(j, 0, false);
    MinifyPut(j, 0, 0, false, "");
  }
}

// Minifying takes out just the white space and comments between the tokens.
module JsonComments {
  import opened JsonGrammar
  import opened JsonMinify
  import opened JsonNumber
  import opened JsonParser
  import opened JsonRoundTrip
  import opened JsonText
  import opened JsonUnicode

  // ------------------------------------------------------------------------ gaps

  lemma {:induction false} LineEndOf(s: string, r: string)
    requires forall i :: 0 <= i < |s| ==> s[i] != '\n' && s[i] != '\0'
    ensures LineEnd(s + ("\n" + r)) == "\n" + r
  {
    if s == [] {
      assert s + ("\n" + r) == "\n" + r;
    } else {
      assert s + ("\n" + r) == [s[0]] + (s[1..] + ("\n" + r));
      Cons(s[0], s[1..] + ("\n" + r));
      LineEndOf(s[1..], r);
    }
  }

  lemma {:induction false} BlockEndOf(s: string, r: string)
    requires NulFree(s) && Unended(s)
    ensures BlockEnd(s + ("*/" + r)) == "*/" + r
  {
    var t := s + ("*/" + r);
    if s == [] {
      assert t == "*/" + r;
    } else {
      assert t == [s[0]] + (s[1..] + ("*/" + r));
      Cons(s[0], s[1..] + ("*/" + r));
      assert |s| > 1 ==> t[1..][0] == s[1];
      BlockEndOf(s[1..], r);
    }
  }

  lemma MinifyLine(s: string, r: string)
    requires GapOk(Line(s), true)
    ensures var t := GapText(Line(s), r); Minified(t) == Minified(r) && (Closed(t) <==> Closed(r))
  {
    var t := GapText(Line(s), r);
    assert t[1..] == ("/" + s) + ("\n" + r);
    LineEndOf("/" + s, r);
    Cons('\n', r);
  }

  lemma MinifyBlock(s: string, r: string)
    requires GapOk(Block(s), true)
    ensures var t := GapText(Block(s), r); Minified(t) == Minified(r) && (Closed(t) <==> Closed(r))
  {
    var t := GapText(Block(s), r);
    assert t == ("/*" + s) + ("*/" + r) && t[1..][0] == '*';
    assert forall i :: 0 < i < |"/*" + s| ==> ("/*" + s)[i] == ("*" + s)[i - 1];
    BlockEndOf("/*" + s, r);
    assert Drop("*/" + r, 2) == r;
  }

  // But a slash right behind the star that opens a comment ends it.
  lemma SlashEndsBlock()
    ensures Minified("/*/1*/") == "1*/"
  {
    var t := "/*/1*/";
    assert t[1..] == "*/1*/" && "*/1*/"[1..] == "/1*/" && BlockEnd("*/1*/") == "*/1*/" && BlockEnd(t) == "*/1*/";
    assert Drop("*/1*/", 2) == "1*/" && "1*/"[1..] == "*/" && "*/"[1..] == "/" && "/"[1..] == "";
    assert Minified("/") == "/" && Minified("*/") == "*/";
  }

  lemma {:induction false} MinifyGaps(gs: seq<Gap>, r: string)
    requires GapsOk(gs, true)
    ensures Minified(Gaps(gs, r)) == Minified(r) && (Closed(Gaps(gs, r)) <==> Closed(r))
  {
    if gs != [] {
      var t := Gaps(gs[1..], r);
      MinifyGaps(gs[1..], r);
      assert GapOk(gs[0], true);
      match gs[0]
      case Blank(c) => Cons(c, t);
      case Line(s) => MinifyLine(s, t);
      case Block(s) => MinifyBlock(s, t);
    }
  }

  // --------------------------------------------------------------------- strings

  // A piece of a literal is taken as it is.
  ghost predicate Copied(p: Piece, r: string)
    requires PieceOk(p)
  {
    Literal(PieceIn(p, r)) == (PieceIn(p, "") + Literal(r).0, Literal(r).1)
    && (LiteralClosed(PieceIn(p, r)) <==> LiteralClosed(r))
  }

  lemma CodeCopied(n: int, up: seq<bool>, r: string)
    requires 0 <= n < 0x1_0000 && |up| == 4
    ensures Literal(CodeIn(n, up, r)) == (CodeIn(n, up, "") + Literal(r).0, Literal(r).1)
    ensures LiteralClosed(CodeIn(n, up, r)) <==> LiteralClosed(r)
  {
    var e := "\\u" + HexText(n, up);
    HexExactly(HexText(n, up)[0], n / 0x1000);
    HexExactly(HexText(n, up)[1], n / 0x100 % 16);
    HexExactly(HexText(n, up)[2], n / 16 % 16);
    HexExactly(HexText(n, up)[3], n % 16);
    assert CodeIn(n, up, r) == e + r && CodeIn(n, up, "") == e;
    LiteralOfPair(e, r);
  }

  lemma ShortCopied(c: char, r: string)
    requires PieceOk(Short(c))
    ensures Copied(Short(c), r)
  {
    LiteralOfTwo(c, r);
    assert [c] + "" == [c];
  }

  lemma PairCopied(p: Piece, r: string)
    requires PieceOk(p) && p.Pair?
    ensures Copied(p, r)
  {
    var t := CodeIn(p.low, p.up', r);
    CodeCopied(p.low, p.up', r);
    CodeCopied(p.high, p.up, t);
    var a, b := CodeIn(p.high, p.up, ""), CodeIn(p.low, p.up', "");
    assert CodeIn(p.high, p.up, b) == a + b;
    assert a + (b + Literal(r).0) == a + b + Literal(r).0;
  }

  lemma PieceCopied(p: Piece, r: string)
    requires PieceOk(p)
    ensures Copied(p, r)
  {
    match p
    case Raw(c) =>
      LiteralOfOne(c, r);
      assert [c] + "" == [c];
    case Short(c) => ShortCopied(c, r);
    case Code(n, up) => CodeCopied(n, up, r);
    case Pair(_, _, _, _) => PairCopied(p, r);
  }

  lemma CodeInIs(n: int, up: seq<bool>, r: string)
    requires 0 <= n < 0x1_0000 && |up| == 4
    ensures CodeIn(n, up, r) == CodeIn(n, up, "") + r
  {
  }

  lemma PairInIs(p: Piece, r: string)
    requires PieceOk(p) && p.Pair?
    ensures PieceIn(p, r) == PieceIn(p, "") + r
  {
    var a, b := CodeIn(p.high, p.up, ""), CodeIn(p.low, p.up', "");
    CodeInIs(p.low, p.up', r);
    CodeInIs(p.high, p.up, b + r);
    CodeInIs(p.high, p.up, b);
    assert a + (b + r) == a + b + r;
  }

  lemma PieceInIs(p: Piece, r: string)
    requires PieceOk(p)
    ensures PieceIn(p, r) == PieceIn(p, "") + r
  {
    match p
    case Raw(c) => assert [c] + r == [c] + "" + r;
    case Short(c) => assert "\\" + ([c] + r) == "\\" + ([c] + "") + r;
    case Code(n, up) => CodeInIs(n, up, r);
    case Pair(_, _, _, _) => PairInIs(p, r);
  }

  lemma {:induction false} PiecesInIs(ps: seq<Piece>, r: string)
    requires PiecesOk(ps)
    ensures PiecesIn(ps, r) == PiecesIn(ps, "") + r
  {
    if ps != [] {
      PiecesInIs(ps[1..], r);
      PieceInIs(ps[0], PiecesIn(ps[1..], r));
      PieceInIs(ps[0], PiecesIn(ps[1..], ""));
    }
  }

  lemma {:induction false} PiecesCopied(ps: seq<Piece>, r: string)
    requires PiecesOk(ps)
    ensures var t := PiecesIn(ps, "\"" + r); Literal(t) == (PiecesIn(ps, ""), "\"" + r) && LiteralClosed(t)
  {
    if ps == [] {
      Cons('\"', r);
    } else {
      PiecesCopied(ps[1..], r);
      PieceCopied(ps[0], PiecesIn(ps[1..], "\"" + r));
      PieceInIs(ps[0], PiecesIn(ps[1..], ""));
    }
  }

  lemma MinifyQuote(ps: seq<Piece>, r: string)
    requires PiecesOk(ps)
    ensures Minified(Quote(ps, r)) == Quote(ps, Minified(r)) && (Closed(Quote(ps, r)) <==> Closed(r))
  {
    PiecesCopied(ps, r);
    MinifyQuoted(PiecesIn(ps, "\"" + r), PiecesIn(ps, ""), r);
    PiecesInIs(ps, "\"" + Minified(r));
    assert "\"" + PiecesIn(ps, "") + ("\"" + Minified(r)) == "\"" + (PiecesIn(ps, "") + ("\"" + Minified(r)));
  }

  // ---------------------------------------------------------------------- values

  lemma SolidDigits(ds: string)
    requires AllDigits(ds)
    ensures forall i :: 0 <= i < |ds| ==> Solid(ds[i])
  {
  }

  lemma MinifyNumeral(d: Decimal, r: string)
    requires DecimalOk(d)
    ensures Minified(DecimalText(d, r)) == DecimalText(d, Minified(r)) && (Closed(DecimalText(d, r)) <==> Closed(r))
  {
    var e, t := ExponentText(d.es, d.e, d.sign), ExponentText(d.es, d.e, d.sign) + r;
    MinifySolid(e, r);
    MinifySolid(FractionText(d.fs), t);
    MinifySolid(d.ds, Behind(d, r));
    if d.minus { MinifySolid("-", Unsigned(d, r)); }
  }

  // Without any gaps.
  function Stripped(doc: Doc): (bare: Doc)
    ensures forall c: bool :: DocOk(doc, true) ==> DocOk(bare, c)
  {
    match doc
    case ArrayDoc(_, items) => ArrayDoc([], StrippedItems(items))
    case ObjectDoc(_, fields) => ObjectDoc([], StrippedFields(fields))
    case _ => doc
  }

  function StrippedItems(items: ItemDocs): (bare: ItemDocs)
    ensures forall c: bool :: ItemDocsOk(items, true) ==> ItemDocsOk(bare, c)
    ensures bare.NoItemDoc? <==> items.NoItemDoc?
  {
    match items
    case NoItemDoc => NoItemDoc
    case ItemDoc(value, _, _, next) => ItemDoc(Stripped(value), [], [], StrippedItems(next))
  }

  function StrippedFields(fields: FieldDocs): (bare: FieldDocs)
    ensures forall c: bool :: FieldDocsOk(fields, true) ==> FieldDocsOk(bare, c)
    ensures bare.NoFieldDoc? <==> fields.NoFieldDoc?
  {
    match fields
    case NoFieldDoc => NoFieldDoc
    case FieldDoc(name, _, _, value, _, _, next) =>
      FieldDoc(name, [], [], Stripped(value), [], [], StrippedFields(next))
  }

  // Minifying any spelling of a value, with comments and white space anywhere between
  // its tokens, gives the same tokens with nothing in between.
  lemma {:induction false} MinifySpell(doc: Doc, r: string)
    requires DocOk(doc, true)
    ensures Minified(Spell(doc, true, r)) == Spell(Stripped(doc), false, Minified(r))
    ensures Closed(Spell(doc, true, r)) <==> Closed(r)
    decreases doc, 0
  {
    match doc
    case Keyword(word) => MinifySolid(if word.Null? then "null" else if word.False? then "false" else "true", r);
    case Numeral(d) => MinifyNumeral(d, r);
    case Quoted(ps) => MinifyQuote(ps, r);
    case ArrayDoc(open, items) =>
      MinifySolid("[", Gaps(open, SpellItems(items, true, "]" + r)));
      MinifyGaps(open, SpellItems(items, true, "]" + r));
      MinifySpellItems(items, "]" + r);
      MinifySolid("]", r);
    case ObjectDoc(open, fields) =>
      MinifySolid("{", Gaps(open, SpellFields(fields, true, "}" + r)));
      MinifyGaps(open, SpellFields(fields, true, "}" + r));
      MinifySpellFields(fields, "}" + r);
      MinifySolid("}", r);
  }

  lemma {:induction false} MinifySpellItems(items: ItemDocs, r: string)
    requires ItemDocsOk(items, true)
    ensures Minified(SpellItems(items, true, r)) == SpellItems(StrippedItems(items), false, Minified(r))
    ensures Closed(SpellItems(items, true, r)) <==> Closed(r)
    decreases items, 0
  {
    if items.ItemDoc? {
      var more := MoreItemDocs(items.before, items.next, true, r);
      MinifySpell(items.value, Gaps(items.after, more));
      MinifyGaps(items.after, more);
      if items.next.ItemDoc? {
        MinifySolid(",", Gaps(items.before, SpellItems(items.next, true, r)));
        MinifyGaps(items.before, SpellItems(items.next, true, r));
        MinifySpellItems(items.next, r);
      }
    }
  }

  lemma {:induction false} MinifySpellFields(fields: FieldDocs, r: string)
    requires FieldDocsOk(fields, true)
    ensures Minified(SpellFields(fields, true, r)) == SpellFields(StrippedFields(fields), false, Minified(r))
    ensures Closed(SpellFields(fields, true, r)) <==> Closed(r)
    decreases fields, 0
  {
    if fields.FieldDoc? {
      var more := MoreFieldDocs(fields.before, fields.next, true, r);
      var t2 := Spell(fields.value, true, Gaps(fields.after, more));
      MinifyQuote(fields.name, Gaps(fields.colon, ":" + Gaps(fields.behind, t2)));
      MinifyGaps(fields.colon, ":" + Gaps(fields.behind, t2));
      MinifySolid(":", Gaps(fields.behind, t2));
      MinifyGaps(fields.behind, t2);
      MinifySpell(fields.value, Gaps(fields.after, more));
      MinifyGaps(fields.after, more);
      if fields.next.FieldDoc? {
        MinifySolid(",", Gaps(fields.before, SpellFields(fields.next, true, r)));
        MinifyGaps(fields.before, SpellFields(fields.next, true, r));
        MinifySpellFields(fields.next, r);
      }
    }
  }

  // The value stays the same.
  lemma {:induction false} StrippedMeans(doc: Doc)
    requires DocOk(doc, true)
    ensures Meaning(Stripped(doc), false) == Meaning(doc, true)
  {
    match doc
    case ArrayDoc(_, items) => StrippedItemsMean(items);
    case ObjectDoc(_, fields) => StrippedFieldsMean(fields);
    case _ =>
  }

  lemma {:induction false} StrippedItemsMean(items: ItemDocs)
    requires ItemDocsOk(items, true)
    ensures ItemsMeaning(StrippedItems(items), false) == ItemsMeaning(items, true)
  {
    if items.ItemDoc? {
      StrippedMeans(items.value);
      StrippedItemsMean(items.next);
    }
  }

  lemma {:induction false} StrippedFieldsMean(fields: FieldDocs)
    requires FieldDocsOk(fields, true)
    ensures FieldsMeaning(StrippedFields(fields), false) == FieldsMeaning(fields, true)
  {
    if fields.FieldDoc? {
      StrippedMeans(fields.value);
      StrippedFieldsMean(fields.next);
    }
  }

  // So a text with comments can be parsed once it is minified.
  lemma ParseMinified(front: seq<Gap>, doc: Doc, back: seq<Gap>)
    requires GapsOk(front, true) && DocOk(doc, true) && GapsOk(back, true)
    ensures var t := Gaps(front, Spell(doc, true, Gaps(back, "")));
            && Closed(t) && Minified(t) == Spell(Stripped(doc), false, "")
            && Parse(Minified(t)) == Good(Meaning(doc, true), "")
  {
    MinifyGaps(back, "");
    MinifySpell(doc, Gaps(back, ""));
    MinifyGaps(front, Spell(doc, true, Gaps(back, "")));
    StrippedMeans(doc);
    ParseText([], Stripped(doc), []);
  }
}

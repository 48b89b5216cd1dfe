// Every way to spell a JSON value (sections 2 to 7 of RFC 8259), and that each is
// parsed to the value it spells.
module JsonGrammar {
  import opened JsonNumber
  import opened JsonParser
  import opened JsonRoundTrip
  import opened JsonString
  import opened JsonText
  import opened JsonUnicode
  import opened Powers

  // ------------------------------------------------------------------- strings

  // A character as it is; one behind a backslash; a code point in digits; two halves
  // of a pair.
  datatype Piece =
    | Raw(c: char)
    | Short(c: char)
    | Code(n: int, up: seq<bool>)
    | Pair(high: int, low: int, up: seq<bool>, up': seq<bool>)

  predicate PieceOk(p: Piece) {
    match p
    case Raw(c) => c != '\"' && c != '\\' && c != '\0'
    case Short(c) => c in "\"\\/bfnrt"
    case Code(n, up) => 0 < n < 0x1_0000 && !High(n) && !Low(n) && |up| == 4
    case Pair(high, low, up, up') => High(high) && Low(low) && |up| == |up'| == 4
  }

  // In front of a text r.
  function PieceIn(p: Piece, r: string): string
    requires PieceOk(p)
  {
    match p
    case Raw(c) => [c] + r
    case Short(c) => "\\" + ([c] + r)
    case Code(n, up) => CodeIn(n, up, r)
    case Pair(high, low, up, up') => CodeIn(high, up, CodeIn(low, up', r))
  }

  function CodeIn(n: int, up: seq<bool>, r: string): string
    requires 0 <= n < 0x1_0000 && |up| == 4
  {
    "\\u" + (HexText(n, up) + r)
  }

  function PieceValue(p: Piece): string
    requires PieceOk(p)
  {
    match p
    case Raw(c) => [c]
    case Short(c) =>
      [if c == 'b' then 8 as char else if c == 'f' then 12 as char else if c == 'n' then 10 as char
       else if c == 'r' then 13 as char else if c == 't' then 9 as char else c]
    case Code(n, _) => Utf8(n)
    case Pair(high, low, _, _) => Utf8(PairCode(high, low))
  }

  predicate PiecesOk(ps: seq<Piece>) { forall i :: 0 <= i < |ps| ==> PieceOk(ps[i]) }

  function PiecesIn(ps: seq<Piece>, r: string): string
    requires PiecesOk(ps)
  {
    if ps == [] then r else PieceIn(ps[0], PiecesIn(ps[1..], r))
  }

  function PiecesValue(ps: seq<Piece>): string
    requires PiecesOk(ps)
  {
    if ps == [] then "" else PieceValue(ps[0]) + PiecesValue(ps[1..])
  }

  // Quoted.
  function Quote(ps: seq<Piece>, r: string): string
    requires PiecesOk(ps)
  {
    "\"" + PiecesIn(ps, "\"" + r)
  }

  lemma HexTextDigits(n: int, up: seq<bool>, r: string)
    requires 0 <= n < 0x1_0000 && |up| == 4
    ensures FourDigits(HexText(n, up) + r)
  {
    HexExactly(HexText(n, up)[0], n / 0x1000);
    HexExactly(HexText(n, up)[1], n / 0x100 % 16);
    HexExactly(HexText(n, up)[2], n / 16 % 16);
    HexExactly(HexText(n, up)[3], n % 16);
  }

  lemma CodeSplit(n: int, up: seq<bool>, r: string)
    requires 0 <= n < 0x1_0000 && |up| == 4
    ensures var t := CodeIn(n, up, r);
            && t[0] == '\\' && t[1] == 'u' == C(Drop(t, 1)) && t[1..][0] == 'u' && t[6..] == r
            && t[2..] == HexText(n, up) + r == Drop(t[1..], 1)
  {
    var t := CodeIn(n, up, r);
    assert t[1..] == "u" + (HexText(n, up) + r);
  }

  lemma CodeEscapes(n: int, up: seq<bool>, r: string)
    requires 0 <= n < 0x1_0000 && |up| == 4 && EscapesOk(r)
    ensures EscapesOk(CodeIn(n, up, r))
  {
    CodeSplit(n, up, r);
    HexTextDigits(n, up, r);
  }

  // What is unescaped to u comes in front of the characters behind it.
  lemma CharsBehind(t: string, t1: string, u: (string, string), value: string, r: string)
    requires C(t) == '\\' && t[1..] == t1 && Unescape(t1) == u == (value, r)
    ensures Chars(t) == (value + Chars(r).0, Chars(r).1)
  {
  }

  lemma UnescapeCode(t1: string, t2: string)
    requires C(t1) == 'u' && Drop(t1, 1) == t2
    ensures Unescape(t1) == Unicode(t2)
  {
  }

  // What an escape with digits is unescaped to.
  lemma CodeChars(n: int, up: seq<bool>, r: string, value: string, r': string)
    requires 0 <= n < 0x1_0000 && |up| == 4 && Unicode(HexText(n, up) + r) == (value, r')
    ensures Chars(CodeIn(n, up, r)) == (value + Chars(r').0, Chars(r').1)
  {
    CodeSplit(n, up, r);
    var t := CodeIn(n, up, r);
    UnescapeCode(t[1..], HexText(n, up) + r);
    CharsBehind(t, t[1..], Unescape(t[1..]), value, r');
  }

  // A piece is unescaped to its value, in front of what comes of the text behind it.
  predicate Unescapes(p: Piece, r: string)
    requires PieceOk(p)
  {
    Chars(PieceIn(p, r)) == (PieceValue(p) + Chars(r).0, Chars(r).1)
  }

  lemma ShortChars(c: char, r: string)
    requires PieceOk(Short(c))
    ensures Unescapes(Short(c), r) && (EscapesOk(r) ==> EscapesOk("\\" + ([c] + r)))
  {
    var t := "\\" + ([c] + r);
    assert t[1..] == [c] + r && Drop(t[1..], 1) == r == t[2..] && Drop(t, 1)[0] == c;
    CharsBehind(t, t[1..], Unescape(t[1..]), PieceValue(Short(c)), r);
  }

  // Any two escapes that together unescape to a value.
  lemma TwoCodes(high: int, low: int, up: seq<bool>, up': seq<bool>, r: string, value: string)
    requires 0 <= high < 0x1_0000 && 0 <= low < 0x1_0000 && |up| == |up'| == 4
    requires Unicode(HexText(high, up) + ("\\u" + (HexText(low, up') + r))) == (value, r)
    ensures Chars(CodeIn(high, up, CodeIn(low, up', r))) == (value + Chars(r).0, Chars(r).1)
  {
    CodeChars(high, up, CodeIn(low, up', r), value, r);
  }

  lemma PairChars(high: int, low: int, up: seq<bool>, up': seq<bool>, r: string)
    requires PieceOk(Pair(high, low, up, up'))
    ensures Unescapes(Pair(high, low, up, up'), r)
  {
    var value := PieceValue(Pair(high, low, up, up'));
    UnicodePair(high, low, up, up', r);
    TwoCodes(high, low, up, up', r, value);
  }

  lemma RawChars(c: char, r: string)
    requires PieceOk(Raw(c))
    ensures Unescapes(Raw(c), r) && (EscapesOk(r) ==> EscapesOk([c] + r))
  {
    Cons(c, r);
  }

  lemma AloneChars(n: int, up: seq<bool>, r: string)
    requires PieceOk(Code(n, up))
    ensures Unescapes(Code(n, up), r)
  {
    UnicodeAlone(n, up, r);
    CodeChars(n, up, r, Utf8(n), r);
  }

  lemma PieceChars(p: Piece, r: string)
    requires PieceOk(p)
    ensures Unescapes(p, r)
  {
    match p
    case Raw(c) => RawChars(c, r);
    case Short(c) => ShortChars(c, r);
    case Code(n, up) => AloneChars(n, up, r);
    case Pair(high, low, up, up') => PairChars(high, low, up, up', r);
  }

  lemma PieceEscapes(p: Piece, r: string)
    requires PieceOk(p) && EscapesOk(r)
    ensures EscapesOk(PieceIn(p, r))
  {
    match p
    case Raw(c) => RawChars(c, r);
    case Short(c) => ShortChars(c, r);
    case Code(n, up) => CodeEscapes(n, up, r);
    case Pair(high, low, up, up') =>
      CodeEscapes(low, up', r);
      CodeEscapes(high, up, CodeIn(low, up', r));
  }

  lemma {:induction false} PiecesChars(ps: seq<Piece>, r: string)
    requires PiecesOk(ps)
    ensures var t := PiecesIn(ps, "\"" + r); Chars(t) == (PiecesValue(ps), "\"" + r) && EscapesOk(t)
  {
    if ps != [] {
      PiecesChars(ps[1..], r);
      PieceChars(ps[0], PiecesIn(ps[1..], "\"" + r));
      PieceEscapes(ps[0], PiecesIn(ps[1..], "\"" + r));
    }
  }

  // Any spelling of a string is parsed to what it spells, without leaving text or
  // buffer.
  lemma ParseQuote(ps: seq<Piece>, r: string)
    requires PiecesOk(ps)
    ensures ParseString(Quote(ps, r)) == Good(PiecesValue(ps), r) && C(Quote(ps, r)) == '\"'
  {
    var t := PiecesIn(ps, "\"" + r);
    Cons('\"', t);
    Cons('\"', r);
    PiecesChars(ps, r);
    UnescapedFits(t);
  }

  // ----------------------------------------------------------------------- gaps

  // What may be between tokens: white space, and for the minifier comments.
  datatype Gap = Blank(c: char) | Line(s: string) | Block(s: string)

  // The parser skips control characters, too.
  predicate GapOk(g: Gap, comments: bool) {
    match g
    case Blank(c) => if comments then c in " \t\r\n" else 0 < c as int <= 32
    case Line(s) => comments && forall i :: 0 <= i < |s| ==> s[i] != '\n' && s[i] != '\0'
    case Block(s) => comments && NulFree(s) && Unended("*" + s)
  }

  // No star is followed by a slash.
  predicate Unended(s: string) { forall i :: 0 <= i < |s| - 1 ==> !(s[i] == '*' && s[i + 1] == '/') }

  function GapText(g: Gap, r: string): string {
    match g
    case Blank(c) => [c] + r
    case Line(s) => "//" + (s + ("\n" + r))
    case Block(s) => "/*" + (s + ("*/" + r))
  }

  predicate GapsOk(gs: seq<Gap>, comments: bool) { forall i :: 0 <= i < |gs| ==> GapOk(gs[i], comments) }

  // In front of a text r.
  function Gaps(gs: seq<Gap>, r: string): string { if gs == [] then r else GapText(gs[0], Gaps(gs[1..], r)) }

  // The parser skips just the characters from 1 to 32.
  lemma {:induction false} SkipExactly(t: string)
    ensures var k := |t| - |Skip(t)|;
            && k >= 0 && Skip(t) == t[k..] && (forall i :: 0 <= i < k ==> 0 < t[i] as int <= 32)
            && (k < |t| ==> t[k] == '\0' || t[k] as int > 32)
  {
    if t != [] && t[0] != '\0' && t[0] as int <= 32 {
      SkipExactly(t[1..]);
      var k := |t| - |Skip(t)|;
      assert t[1..][k - 1..] == t[k..];
      assert forall i :: 0 < i < k ==> t[i] == t[1..][i - 1];
    }
  }

  lemma {:induction false} SkipGaps(gs: seq<Gap>, r: string)
    requires GapsOk(gs, false)
    ensures Skip(Gaps(gs, r)) == Skip(r) && (Stops(r) ==> Stops(Gaps(gs, r)))
  {
    if gs != [] {
      assert GapOk(gs[0], false);
      Cons(gs[0].c, Gaps(gs[1..], r));
      SkipGaps(gs[1..], r);
    }
  }

  // --------------------------------------------------------------------- values

  datatype Doc =
    | Keyword(word: Json)
    | Numeral(d: Decimal)
    | Quoted(ps: seq<Piece>)
    | ArrayDoc(open: seq<Gap>, items: ItemDocs)
    | ObjectDoc(open: seq<Gap>, fields: FieldDocs)
  datatype ItemDocs = NoItemDoc | ItemDoc(value: Doc, after: seq<Gap>, before: seq<Gap>, next: ItemDocs)
  datatype FieldDocs =
    | NoFieldDoc
    | FieldDoc(name: seq<Piece>, colon: seq<Gap>, behind: seq<Gap>, value: Doc,
               after: seq<Gap>, before: seq<Gap>, next: FieldDocs)

  predicate DocOk(doc: Doc, comments: bool) {
    match doc
    case Keyword(word) => word in {Null, False, True}
    case Numeral(d) => DecimalOk(d)
    case Quoted(ps) => PiecesOk(ps)
    case ArrayDoc(open, items) => GapsOk(open, comments) && ItemDocsOk(items, comments)
    case ObjectDoc(open, fields) => GapsOk(open, comments) && FieldDocsOk(fields, comments)
  }

  predicate ItemDocsOk(items: ItemDocs, comments: bool) {
    items.ItemDoc? ==>
      && DocOk(items.value, comments) && GapsOk(items.after, comments) && GapsOk(items.before, comments)
      && ItemDocsOk(items.next, comments)
  }

  predicate FieldDocsOk(fields: FieldDocs, comments: bool) {
    fields.FieldDoc? ==>
      && PiecesOk(fields.name) && GapsOk(fields.colon, comments) && GapsOk(fields.behind, comments)
      && DocOk(fields.value, comments) && GapsOk(fields.after, comments) && GapsOk(fields.before, comments)
      && FieldDocsOk(fields.next, comments)
  }

  // In front of a text r.
  function Spell(doc: Doc, comments: bool, r: string): string
    requires DocOk(doc, comments)
    decreases doc, 0
  {
    match doc
    case Keyword(word) => (if word.Null? then "null" else if word.False? then "false" else "true") + r
    case Numeral(d) => DecimalText(d, r)
    case Quoted(ps) => Quote(ps, r)
    case ArrayDoc(open, items) => "[" + Gaps(open, SpellItems(items, comments, "]" + r))
    case ObjectDoc(open, fields) => "{" + Gaps(open, SpellFields(fields, comments, "}" + r))
  }

  function SpellItems(items: ItemDocs, comments: bool, r: string): string
    requires ItemDocsOk(items, comments)
    decreases items, 0
  {
    match items
    case NoItemDoc => r
    case ItemDoc(value, after, before, next) =>
      Spell(value, comments, Gaps(after, MoreItemDocs(before, next, comments, r)))
  }

  function MoreItemDocs(before: seq<Gap>, next: ItemDocs, comments: bool, r: string): string
    requires ItemDocsOk(next, comments)
    decreases next, 1
  {
    if next.NoItemDoc? then r else "," + Gaps(before, SpellItems(next, comments, r))
  }

  function SpellFields(fields: FieldDocs, comments: bool, r: string): string
    requires FieldDocsOk(fields, comments)
    decreases fields, 0
  {
    match fields
    case NoFieldDoc => r
    case FieldDoc(name, colon, behind, value, after, before, next) =>
      Quote(name, Gaps(colon, ":" + Gaps(behind,
        Spell(value, comments, Gaps(after, MoreFieldDocs(before, next, comments, r))))))
  }

  function MoreFieldDocs(before: seq<Gap>, next: FieldDocs, comments: bool, r: string): string
    requires FieldDocsOk(next, comments)
    decreases next, 1
  {
    if next.NoFieldDoc? then r else "," + Gaps(before, SpellFields(next, comments, r))
  }

  // What is spelt. An exponent is an int.
  function Meaning(doc: Doc, comments: bool): Json
    requires DocOk(doc, comments)
  {
    match doc
    case Keyword(word) => word
    case Numeral(d) => Shifted(d, ToInt(Exponent(d)))
    case Quoted(ps) => String(PiecesValue(ps))
    case ArrayDoc(_, items) => Array(ItemsMeaning(items, comments))
    case ObjectDoc(_, fields) => Object(FieldsMeaning(fields, comments))
  }

  function ItemsMeaning(items: ItemDocs, comments: bool): Items
    requires ItemDocsOk(items, comments)
  {
    match items
    case NoItemDoc => NoItem
    case ItemDoc(value, _, _, next) => Item(Meaning(value, comments), ItemsMeaning(next, comments))
  }

  function FieldsMeaning(fields: FieldDocs, comments: bool): Fields
    requires FieldDocsOk(fields, comments)
  {
    match fields
    case NoFieldDoc => NoField
    case FieldDoc(name, _, _, value, _, _, next) =>
      Field(PiecesValue(name), Meaning(value, comments), FieldsMeaning(next, comments))
  }

  // -------------------------------------------------------------------- parsing

  lemma SpellStarts(doc: Doc, r: string)
    requires DocOk(doc, false)
    ensures var t := Spell(doc, false, r); StartsValue(t) && Skip(t) == t
  {
    var t := Spell(doc, false, r);
    match doc
    case Numeral(d) => assert t[0] == (if d.minus then '-' else d.ds[0]);
    case Quoted(ps) => assert t[0] == '\"';
    case ArrayDoc(_, _) => assert t[0] == '[';
    case ObjectDoc(_, _) => assert t[0] == '{';
    case Keyword(word) => assert t[0] == if word.Null? then 'n' else if word.False? then 'f' else 't';
  }

  lemma ParseNumeral(d: Decimal, r: string)
    requires DecimalOk(d) && Stops(r)
    ensures ParseValue(DecimalText(d, r)) == Good(Shifted(d, ToInt(Exponent(d))), r)
  {
    ParseDecimal(d, r);
    var t := DecimalText(d, r);
    assert t[0] == if d.minus then '-' else d.ds[0];
  }

  lemma ParseQuoted(ps: seq<Piece>, r: string)
    requires PiecesOk(ps)
    ensures ParseValue(Quote(ps, r)) == Good(String(PiecesValue(ps)), r)
  {
    ParseQuote(ps, r);
  }

  // Every spelling of a value, with any white space anywhere, is parsed to it, and the
  // cursor stops behind it.
  lemma {:induction false} ParseSpell(doc: Doc, r: string)
    requires DocOk(doc, false) && Stops(r)
    ensures ParseValue(Spell(doc, false, r)) == Good(Meaning(doc, false), r)
    decreases doc, 0
  {
    match doc
    case Keyword(_) => ParseWord(r);
    case Numeral(d) => ParseNumeral(d, r);
    case Quoted(ps) => ParseQuoted(ps, r);
    case ArrayDoc(open, items) => ParseArrayDoc(open, items, r);
    case ObjectDoc(open, fields) => ParseObjectDoc(open, fields, r);
  }

  lemma ArrayStarts(t1: string)
    requires StartsValue(Skip(t1)) && Skip(Skip(t1)) == Skip(t1)
    ensures var p := ParseItem(Skip(t1));
            ParseValue("[" + t1) == if p.Good? then Good(Array(p.value), p.rest) else Same(p)
  {
    Cons('[', t1);
  }

  lemma ArrayEnds(t1: string, r: string)
    requires Skip(t1) == "]" + r
    ensures ParseValue("[" + t1) == Good(Array(NoItem), r)
  {
    Cons('[', t1);
    Cons(']', r);
  }

  lemma {:induction false} ParseArrayDoc(open: seq<Gap>, items: ItemDocs, r: string)
    requires GapsOk(open, false) && ItemDocsOk(items, false)
    ensures ParseValue("[" + Gaps(open, SpellItems(items, false, "]" + r)))
         == Good(Array(ItemsMeaning(items, false)), r)
    decreases items, 1
  {
    var t := SpellItems(items, false, "]" + r);
    SkipGaps(open, t);
    if items.NoItemDoc? {
      ArrayEnds(Gaps(open, t), r);
    } else {
      SpellStarts(items.value, Gaps(items.after, MoreItemDocs(items.before, items.next, false, "]" + r)));
      ArrayStarts(Gaps(open, t));
      ParseItemDoc(items, r);
    }
  }

  lemma ItemDocStarts(items: ItemDocs, r: string)
    requires ItemDocsOk(items, false) && items.ItemDoc?
    ensures var t := SpellItems(items, false, r); StartsValue(t) && Skip(t) == t
  {
    SpellStarts(items.value, Gaps(items.after, MoreItemDocs(items.before, items.next, false, r)));
  }

  lemma ItemParses(t: string, v: Json, more: string, next: Result<Items>)
    requires ParseValue(t) == Good(v, more) && MoreItems(Skip(more)) == next && next.Good?
    ensures ParseItem(t) == Good(Item(v, next.value), next.rest)
  {
  }

  lemma {:induction false} ParseItemDoc(items: ItemDocs, r: string)
    requires ItemDocsOk(items, false) && items.ItemDoc?
    ensures ParseItem(SpellItems(items, false, "]" + r)) == Good(ItemsMeaning(items, false), r)
    decreases items, 0
  {
    var next := items.next;
    var more := MoreItemDocs(items.before, next, false, "]" + r);
    SkipGaps(items.after, more);
    Cons(']', r);
    if next.ItemDoc? {
      var t2 := SpellItems(next, false, "]" + r);
      Cons(',', Gaps(items.before, t2));
      SkipGaps(items.before, t2);
      ItemDocStarts(next, "]" + r);
      ParseItemDoc(next, r);
    }
    ParseSpell(items.value, Gaps(items.after, more));
    ItemParses(SpellItems(items, false, "]" + r), Meaning(items.value, false), Gaps(items.after, more),
               Good(ItemsMeaning(next, false), r));
  }

  lemma ObjectParses(t1: string, fields: Fields, r: string)
    requires if fields.NoField? then Skip(t1) == "}" + r
             else C(Skip(t1)) == '\"' && Skip(Skip(t1)) == Skip(t1) && ParseField(Skip(t1)) == Good(fields, r)
    ensures ParseValue("{" + t1) == Good(Object(fields), r)
  {
    ParseBrace(t1, fields, r);
    ValueIsObject("{" + t1);
  }

  lemma {:induction false} ParseObjectDoc(open: seq<Gap>, fields: FieldDocs, r: string)
    requires GapsOk(open, false) && FieldDocsOk(fields, false)
    ensures ParseValue("{" + Gaps(open, SpellFields(fields, false, "}" + r)))
         == Good(Object(FieldsMeaning(fields, false)), r)
    decreases fields, 1
  {
    var t := SpellFields(fields, false, "}" + r);
    SkipGaps(open, t);
    Cons('}', r);
    if fields.FieldDoc? {
      QuoteStarts(fields, "}" + r);
      ParseFieldDoc(fields, r);
    }
    ObjectParses(Gaps(open, t), FieldsMeaning(fields, false), r);
  }

  lemma QuoteStarts(fields: FieldDocs, r: string)
    requires FieldDocsOk(fields, false) && fields.FieldDoc?
    ensures var t := SpellFields(fields, false, r); C(t) == '\"' && Skip(t) == t
  {
    assert SpellFields(fields, false, r)[0] == '\"';
  }

  // The parts of a field that are parsed one after the other.
  lemma FieldParses(t: string, name: string, t1: string, t2: string, v: Json, more: string, next: Result<Fields>)
    requires ParseString(t) == Good(name, t1) && C(Skip(t1)) == ':' && Skip(Skip(t1)[1..]) == t2
    requires ParseValue(t2) == Good(v, more) && MoreFields(Skip(more)) == next && next.Good?
    ensures ParseField(t) == Good(Field(name, v, next.value), next.rest)
  {
  }

  lemma {:induction false} ParseFieldDoc(fields: FieldDocs, r: string)
    requires FieldDocsOk(fields, false) && fields.FieldDoc?
    ensures ParseField(SpellFields(fields, false, "}" + r)) == Good(FieldsMeaning(fields, false), r)
    decreases fields, 0
  {
    var next := fields.next;
    var more := MoreFieldDocs(fields.before, next, false, "}" + r);
    var t2 := Spell(fields.value, false, Gaps(fields.after, more));
    var t1 := Gaps(fields.colon, ":" + Gaps(fields.behind, t2));
    ParseQuote(fields.name, t1);
    SkipGaps(fields.colon, ":" + Gaps(fields.behind, t2));
    Cons(':', Gaps(fields.behind, t2));
    SkipGaps(fields.behind, t2);
    SpellStarts(fields.value, Gaps(fields.after, more));
    MoreFieldDocsParse(fields.before, next, r);
    SkipGaps(fields.after, more);
    ParseSpell(fields.value, Gaps(fields.after, more));
    FieldParses(SpellFields(fields, false, "}" + r), PiecesValue(fields.name), t1, t2, Meaning(fields.value, false),
                Gaps(fields.after, more), Good(FieldsMeaning(next, false), r));
  }

  lemma {:induction false} MoreFieldDocsParse(before: seq<Gap>, next: FieldDocs, r: string)
    requires GapsOk(before, false) && FieldDocsOk(next, false)
    ensures var more := MoreFieldDocs(before, next, false, "}" + r);
            Stops(more) && Skip(more) == more && MoreFields(more) == Good(FieldsMeaning(next, false), r)
    decreases next, 1
  {
    Cons('}', r);
    if next.FieldDoc? {
      var t := SpellFields(next, false, "}" + r);
      Cons(',', Gaps(before, t));
      SkipGaps(before, t);
      QuoteStarts(next, "}" + r);
      ParseFieldDoc(next, r);
    }
  }

  // A whole text.
  lemma ParseText(front: seq<Gap>, doc: Doc, back: seq<Gap>)
    requires GapsOk(front, false) && DocOk(doc, false) && GapsOk(back, false)
    ensures Parse(Gaps(front, Spell(doc, false, Gaps(back, "")))) == Good(Meaning(doc, false), Gaps(back, ""))
  {
    SkipGaps(back, "");
    SkipGaps(front, Spell(doc, false, Gaps(back, "")));
    SpellStarts(doc, Gaps(back, ""));
    ParseSpell(doc, Gaps(back, ""));
  }
}

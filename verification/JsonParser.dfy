// What the parser makes of a text. The text after the cursor is an argument;
// behind its end lies the terminating NUL.
module JsonParser {
  import opened JsonText
  import opened Powers

  // Astray: the program leaves the text or a buffer, and what it does is undefined.
  datatype Result<+A> = Bad | Astray | Good(value: A, rest: string)

  // A failure inside is one outside.
  function Same<A, B>(p: Result<A>): (r: Result<B>)
    requires !p.Good?
    ensures !r.Good?
  {
    if p.Bad? then Bad else Astray
  }

  function C(t: string): char { if t == [] then '\0' else t[0] }
  function Drop(t: string, k: nat): string { if k <= |t| then t[k..] else [] }

  function Skip(t: string): (r: string)
    ensures |r| <= |t|
  {
    if t != [] && t[0] != '\0' && t[0] as int <= 32 then Skip(t[1..]) else t
  }

  predicate Starts(t: string, p: string) { p <= t }

  // ------------------------------------------------------------------- strings

  // The value of a hexadecimal digit, or -1.
  function HexValue(c: char): int {
    if '0' <= c <= '9' then c as int - '0' as int
    else if 'A' <= c <= 'F' then 10 + c as int - 'A' as int
    else if 'a' <= c <= 'f' then 10 + c as int - 'a' as int
    else -1
  }

  // 0 unless the text starts with four digits.
  function ParseHex4(t: string): (h: int)
    ensures 0 <= h < 0x1_0000
  {
    var a, b, c, d := HexValue(C(t)), HexValue(C(Drop(t, 1))), HexValue(C(Drop(t, 2))), HexValue(C(Drop(t, 3)));
    if a < 0 || b < 0 || c < 0 || d < 0 then 0 else ((a * 16 + b) * 16 + c) * 16 + d
  }

  // A code point in UTF-8.
  function Utf8(uc: int): string
    requires 0 <= uc < 0x11_0000
  {
    if uc < 0x80 then [uc as char]
    else if uc < 0x800 then [(0xC0 + uc / 64) as char, Trail(uc)]
    else if uc < 0x1_0000 then [(0xE0 + uc / 0x1000) as char, Trail(uc / 64), Trail(uc)]
    else [(0xF0 + uc / 0x4_0000) as char, Trail(uc / 0x1000), Trail(uc / 64), Trail(uc)]
  }

  function Trail(uc: int): char
    requires uc >= 0
  {
    (0x80 + uc % 64) as char
  }

  // What follows the u of an escape.
  function Unicode(t: string): (r: (string, string))
    ensures |r.1| <= |t|
  {
    var uc, t4 := ParseHex4(t), Drop(t, 4);
    if 0xDC00 <= uc <= 0xDFFF || uc == 0 then ("", t4)
    else if 0xD800 <= uc <= 0xDBFF then
      if C(t4) != '\\' || C(Drop(t4, 1)) != 'u' then ("", t4)
      else
        var uc2, t10 := ParseHex4(Drop(t4, 2)), Drop(t4, 6);
        if uc2 < 0xDC00 || uc2 > 0xDFFF then ("", t10)
        else (Utf8(0x1_0000 + (uc % 0x400 * 0x400 + uc2 % 0x400)), t10)
    else (Utf8(uc), t4)
  }

  // What follows a backslash.
  function Unescape(t: string): (r: (string, string))
    ensures |r.1| <= |t|
  {
    var c, t1 := C(t), Drop(t, 1);
    if c == 'b' then ([BACKSPACE], t1)
    else if c == 'f' then ([FORMFEED], t1)
    else if c == 'n' then ("\n", t1)
    else if c == 'r' then ("\r", t1)
    else if c == 't' then ("\t", t1)
    else if c == 'u' then Unicode(t1)
    else ([c], t1)
  }

  // Where a scan of a string stops.
  predicate AtEnd(t: string) { C(t) == '\"' || C(t) == '\0' }

  // Up to the closing quote.
  function Chars(t: string): (r: (string, string))
    ensures |r.1| <= |t|
    decreases |t|
  {
    if AtEnd(t) then ("", t)
    else if C(t) != '\\' then
      var (s, r) := Chars(t[1..]);
      ([t[0]] + s, r)
    else
      var (e, t') := Unescape(t[1..]);
      var (s, r) := Chars(t');
      (e + s, r)
  }

  // How many characters a character of a string takes, or an escape: six with the
  // digits behind a u, twelve if they make the first half of a pair.
  function Step(t: string): (k: nat)
    ensures k == 1 || k == 2 || k == 6 || k == 12
  {
    if C(t) != '\\' then 1
    else if C(Drop(t, 1)) != 'u' then 2
    else
      var t6 := Drop(t, 6);
      if 0xD800 <= ParseHex4(Drop(t, 2)) <= 0xDBFF && C(t6) == '\\' && C(Drop(t6, 1)) == 'u' then 12 else 6
  }

  // How far the cursor that unescapes gets; past the end of the text once it has
  // passed the terminator.
  function Reach(t: string): nat
    decreases |t|
  {
    if AtEnd(t) then 0 else Step(t) + Reach(Drop(t, Step(t)))
  }

  // The pass before that, which only counts, takes any escape for two characters.
  function CountStep(t: string): nat { if C(t) == '\\' then 2 else 1 }

  function CountReach(t: string): nat
    decreases |t|
  {
    if AtEnd(t) then 0 else CountStep(t) + CountReach(Drop(t, CountStep(t)))
  }

  // The length that is set aside.
  function Counted(t: string): nat
    decreases |t|
  {
    if AtEnd(t) then 0 else 1 + Counted(Drop(t, CountStep(t)))
  }

  // Neither pass leaves the text, and the string fits the length set aside.
  predicate Sound(t: string) {
    CountReach(t) <= |t| && Reach(t) <= |t| && |Chars(t).0| <= Counted(t)
  }

  function ParseString(t: string): (r: Result<string>)
    ensures r.Good? ==> |r.rest| < |t|
  {
    if C(t) != '\"' then Bad
    else if !Sound(t[1..]) then Astray
    else
      var (s, r) := Chars(t[1..]);
      Good(s, if C(r) == '\"' then r[1..] else r)
  }

  // ------------------------------------------------------------------- numbers

  predicate IsDigit(c: char) { '0' <= c <= '9' }

  // The digits at the cursor, behind those that made n.
  function ReadDigits(n: int, t: string): (r: (int, string))
    ensures |r.1| <= |t|
    decreases |t|
  {
    if IsDigit(C(t)) then ReadDigits(n * 10 + (t[0] as int - '0' as int), t[1..]) else (n, t)
  }

  function ParseNumber(t: string): (r: Result<Json>)
    requires C(t) == '-' || IsDigit(C(t))
    ensures r.Good? && |r.rest| < |t|
  {
    var minus := C(t) == '-';
    var (n, t3) := ParseInteger(if minus then t[1..] else t);
    var (m, scale, t4) := ParseFraction(n, t3);
    var (e, t5) := if C(t4) == 'e' || C(t4) == 'E' then ParseExponent(t4[1..]) else (0, t4);
    Good(Number(if minus then -m else m, scale + e), t5)
  }

  function ParseInteger(t: string): (r: (int, string))
    ensures |r.1| <= |t| && (IsDigit(C(t)) ==> |r.1| < |t|)
  {
    var t2 := if C(t) == '0' then t[1..] else t;
    if '1' <= C(t2) <= '9' then ReadDigits(0, t2) else (0, t2)
  }

  // Every digit behind the point takes one off the exponent.
  function ParseFraction(n: int, t: string): (r: (int, int, string))
    ensures |r.2| <= |t|
  {
    if C(t) == '.' && IsDigit(C(Drop(t, 1))) then
      var (m, t') := ReadDigits(n, t[1..]);
      (m, |t'| - (|t| - 1), t')
    else (n, 0, t)
  }

  // The exponent is an int.
  function ParseExponent(t: string): (r: (int, string))
    ensures |r.1| <= |t|
  {
    var minus := C(t) == '-';
    var (e, t') := ReadDigits(0, if C(t) == '+' || minus then t[1..] else t);
    (ToInt(if minus then -e else e), t')
  }

  // -------------------------------------------------------------------- values

  function ParseValue(t: string): (r: Result<Json>)
    ensures r.Good? ==> |r.rest| < |t|
    decreases |t|, 1
  {
    if Starts(t, "null") then Good(Null, t[4..])
    else if Starts(t, "false") then Good(False, t[5..])
    else if Starts(t, "true") then Good(True, t[4..])
    else if C(t) == '\"' then
      var p := ParseString(t);
      if !p.Good? then Same(p) else Good(String(p.value), p.rest)
    else if C(t) == '-' || IsDigit(C(t)) then ParseNumber(t)
    else if C(t) == '[' then ParseArray(t)
    else if C(t) == '{' then ParseObject(t)
    else Bad
  }

  function ParseArray(t: string): (r: Result<Json>)
    requires C(t) == '['
    ensures r.Good? ==> |r.rest| < |t|
    decreases |t|, 0
  {
    var t1 := Skip(t[1..]);
    if C(t1) == ']' then Good(Array(NoItem), t1[1..]) else
      var p := ParseItem(Skip(t1));
      if !p.Good? then Same(p) else Good(Array(p.value), p.rest)
  }

  // An item, and those behind it up to the bracket.
  function ParseItem(t: string): (r: Result<Items>)
    ensures r.Good? ==> |r.rest| < |t|
    decreases |t|, 2
  {
    var p := ParseValue(t);
    if !p.Good? then Same(p) else
      var q := MoreItems(Skip(p.rest));
      if !q.Good? then Same(q) else Good(Item(p.value, q.value), q.rest)
  }

  function MoreItems(t: string): (r: Result<Items>)
    ensures r.Good? ==> |r.rest| < |t|
    decreases |t|, 2
  {
    if C(t) == ',' then ParseItem(Skip(t[1..]))
    else if C(t) == ']' then Good(NoItem, t[1..])
    else Bad
  }

  function ParseObject(t: string): (r: Result<Json>)
    requires C(t) == '{'
    ensures r.Good? ==> |r.rest| < |t|
    decreases |t|, 0
  {
    var t1 := Skip(t[1..]);
    if C(t1) == '}' then Good(Object(NoField), t1[1..]) else
      var p := ParseField(Skip(t1));
      if !p.Good? then Same(p) else Good(Object(p.value), p.rest)
  }

  function ParseField(t: string): (r: Result<Fields>)
    ensures r.Good? ==> |r.rest| < |t|
    decreases |t|, 2
  {
    var name := ParseString(t);
    if !name.Good? then Same(name) else
      var t1 := Skip(name.rest);
      if C(t1) != ':' then Bad else
        var p := ParseValue(Skip(t1[1..]));
        if !p.Good? then Same(p) else
          var q := MoreFields(Skip(p.rest));
          if !q.Good? then Same(q) else Good(Field(name.value, p.value, q.value), q.rest)
  }

  function MoreFields(t: string): (r: Result<Fields>)
    ensures r.Good? ==> |r.rest| < |t|
    decreases |t|, 2
  {
    if C(t) == ',' then ParseField(Skip(t[1..]))
    else if C(t) == '}' then Good(NoField, t[1..])
    else Bad
  }
}

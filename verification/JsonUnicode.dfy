// What the digits behind a u stand for, and the bytes that come of it.
module JsonUnicode {
  import opened JsonParser

  // ----------------------------------------- UTF-8, read back (section 3 of RFC 3629)

  // How many bytes there are, by the first.
  function Width(lead: int): nat {
    if lead < 0x80 then 1 else if 0xC0 <= lead < 0xE0 then 2 else if 0xE0 <= lead < 0xF0 then 3
    else if 0xF0 <= lead < 0xF8 then 4 else 0
  }

  // The bits of the first byte that belong to the number.
  function LeadBits(lead: int): int {
    if lead < 0x80 then lead else if lead < 0xE0 then lead - 0xC0 else if lead < 0xF0 then lead - 0xE0 else lead - 0xF0
  }

  predicate IsUtf8(s: string) {
    s != [] && |s| == Width(s[0] as int) && forall i :: 1 <= i < |s| ==> 0x80 <= s[i] as int < 0xC0
  }

  // Six bits more for each byte behind it.
  function CodePoint(s: string): int
    requires IsUtf8(s)
  {
    var n := LeadBits(s[0] as int);
    if |s| == 1 then n
    else if |s| == 2 then n * 0x40 + Six(s[1])
    else if |s| == 3 then n * 0x1000 + Six(s[1]) * 0x40 + Six(s[2])
    else n * 0x4_0000 + Six(s[1]) * 0x1000 + Six(s[2]) * 0x40 + Six(s[3])
  }

  function Six(c: char): int { c as int - 0x80 }

  lemma TrailSix(uc: int)
    requires 0 <= uc < 0x11_0000
    ensures 0x80 <= Trail(uc) as int < 0xC0 && Six(Trail(uc)) == uc % 0x40
  {
  }

  // Every code point is written in as few bytes as there is room for, and reads back.
  lemma Utf8Decodes(uc: int)
    requires 0 <= uc < 0x11_0000
    ensures var s := Utf8(uc); IsUtf8(s) && CodePoint(s) == uc
    ensures |Utf8(uc)| == if uc < 0x80 then 1 else if uc < 0x800 then 2 else if uc < 0x1_0000 then 3 else 4
  {
    TrailSix(uc);
    TrailSix(uc / 0x40);
    TrailSix(uc / 0x1000);
    assert uc / 0x40 / 0x40 == uc / 0x1000 && uc / 0x1000 / 0x40 == uc / 0x4_0000;
  }

  // ------------------------------------------------------------ four digits

  const LOWER := "0123456789abcdef"
  const UPPER := "0123456789ABCDEF"

  // The hexadecimal digits of either case are those, and no others.
  lemma HexExactly(c: char, n: int)
    requires 0 <= n < 16
    ensures HexValue(c) == n <==> c == LOWER[n] || c == UPPER[n]
  {
  }

  function HexDigit(n: int, up: bool): char
    requires 0 <= n < 16
  {
    if up then UPPER[n] else LOWER[n]
  }

  // A number in four digits, each of either case.
  function HexText(n: int, up: seq<bool>): (s: string)
    requires 0 <= n < 0x1_0000 && |up| == 4
    ensures |s| == 4
  {
    [HexDigit(n / 0x1000, up[0]), HexDigit(n / 0x100 % 16, up[1]),
     HexDigit(n / 16 % 16, up[2]), HexDigit(n % 16, up[3])]
  }

  lemma DigitAt(k: int, n: int, up: bool, t: string)
    requires 0 <= n < 16 && 0 <= k < |t| && t[k] == HexDigit(n, up)
    ensures HexValue(C(Drop(t, k))) == n
  {
    HexExactly(t[k], n);
  }

  // They are parsed to that number.
  lemma HexTextValue(n: int, up: seq<bool>, r: string)
    requires 0 <= n < 0x1_0000 && |up| == 4
    ensures ParseHex4(HexText(n, up) + r) == n && Drop(HexText(n, up) + r, 4) == r
  {
    var t := HexText(n, up) + r;
    DigitAt(0, n / 0x1000, up[0], t);
    DigitAt(1, n / 0x100 % 16, up[1], t);
    DigitAt(2, n / 16 % 16, up[2], t);
    DigitAt(3, n % 16, up[3], t);
    assert Drop(t, 0) == t && Drop(t, 4) == r;
    Nibbles(n);
  }

  lemma Nibbles(n: int)
    requires 0 <= n < 0x1_0000
    ensures ((n / 0x1000 * 16 + n / 0x100 % 16) * 16 + n / 16 % 16) * 16 + n % 16 == n
  {
    assert n / 0x100 == n / 16 / 16 && n / 0x1000 == n / 0x100 / 16;
  }

  predicate High(n: int) { 0xD800 <= n < 0xDC00 }
  predicate Low(n: int) { 0xDC00 <= n < 0xE000 }

  // The code point of a pair (section 7 of RFC 8259).
  function PairCode(high: int, low: int): (uc: int)
    requires High(high) && Low(low)
    ensures 0x1_0000 <= uc < 0x11_0000
  {
    0x1_0000 + (high - 0xD800) * 0x400 + (low - 0xDC00)
  }

  // Four digits that no other half of a surrogate pair follows: the code point, but
  // for zero and lone halves, which are dropped.
  lemma UnicodeAlone(n: int, up: seq<bool>, r: string)
    requires 0 <= n < 0x1_0000 && |up| == 4 && (High(n) ==> C(r) != '\\' || C(Drop(r, 1)) != 'u')
    ensures Unicode(HexText(n, up) + r) == (if n == 0 || High(n) || Low(n) then "" else Utf8(n), r)
  {
    HexTextValue(n, up, r);
  }

  // A pair is its code point, and a high half with anything else for the other is
  // dropped along with it.
  lemma UnicodePair(high: int, low: int, up: seq<bool>, up': seq<bool>, r: string)
    requires High(high) && 0 <= low < 0x1_0000 && |up| == |up'| == 4
    ensures Unicode(HexText(high, up) + ("\\u" + (HexText(low, up') + r))) ==
            (if Low(low) then Utf8(PairCode(high, low)) else "", r)
  {
    var t4, t2 := "\\u" + (HexText(low, up') + r), HexText(low, up') + r;
    HexTextValue(high, up, t4);
    HexTextValue(low, up', r);
    assert t4[0] == '\\' && Drop(t4, 1)[0] == 'u' && Drop(t4, 2) == t2;
    assert Drop(t4, 6) == Drop(t2, 4);
    PairUnfolds(HexText(high, up) + t4, high, low, t4, r);
  }

  lemma PairUnfolds(t: string, high: int, low: int, t4: string, r: string)
    requires High(high) && ParseHex4(t) == high && Drop(t, 4) == t4
    requires C(t4) == '\\' && C(Drop(t4, 1)) == 'u' && ParseHex4(Drop(t4, 2)) == low && Drop(t4, 6) == r
    ensures Unicode(t) == (if Low(low) then Utf8(PairCode(high, low)) else "", r)
  {
    assert high % 0x400 == high - 0xD800;
    assert Low(low) ==> low % 0x400 == low - 0xDC00;
  }
}

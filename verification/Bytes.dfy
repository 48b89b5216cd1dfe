module Bytes {
  import opened Powers

  type Byte = b: int | 0 <= b < 256

  // memcpy.
  method Copy(dst: array<Byte>, at: int, src: seq<Byte>)
    requires 0 <= at && at + |src| <= dst.Length
    modifies dst
    ensures forall j :: 0 <= j < dst.Length ==> dst[j] == if at <= j < at + |src| then src[j - at] else old(dst[j])
  {
    for i := 0 to |src|
      invariant forall j :: 0 <= j < dst.Length ==> dst[j] == if at <= j < at + i then src[j - at] else old(dst[j])
    {
      dst[at + i] := src[i];
    }
  }

  function Min(a: int, b: int): int { if a < b then a else b }

  // The exclusive or of the lowest k bits.
  function XorBits(a: int, b: int, k: nat): (x: int)
    requires a >= 0 && b >= 0
    ensures x >= 0
  {
    if k == 0 then 0 else 2 * XorBits(a / 2, b / 2, k - 1) + if a % 2 == b % 2 then 0 else 1
  }

  lemma {:induction false} XorSmall(a: int, b: int, k: nat)
    requires a >= 0 && b >= 0
    ensures XorBits(a, b, k) < Pow2(k)
  {
    if k > 0 { XorSmall(a / 2, b / 2, k - 1); }
  }

  lemma {:induction false} XorTwiceBits(a: int, b: int, k: nat)
    requires 0 <= a < Pow2(k) && b >= 0
    ensures XorBits(XorBits(a, b, k), b, k) == a
  {
    if k > 0 { XorTwiceBits(a / 2, b / 2, k - 1); }
  }

  function Xor(a: Byte, b: Byte): (x: Byte) {
    XorSmall(a, b, 8);
    assert Pow2(8) == 256;
    XorBits(a, b, 8)
  }

  lemma XorTwice(a: Byte, b: Byte)
    ensures Xor(Xor(a, b), b) == a
  {
    assert Pow2(8) == 256;
    XorTwiceBits(a, b, 8);
  }

  lemma {:induction false} XorBitsAt(a: nat, b: nat, n: nat, k: nat)
    requires k < n
    ensures Bit(XorBits(a, b, n), k) <==> Bit(a, k) != Bit(b, k)
  {
    if k > 0 { XorBitsAt(a / 2, b / 2, n - 1, k - 1); }
  }

  // A bit of the exclusive or is set just when it is set in one of the two.
  lemma XorBit(a: Byte, b: Byte, k: nat)
    requires k < 8
    ensures Bit(Xor(a, b), k) <==> Bit(a, k) != Bit(b, k)
    ensures Xor(a, b) / Pow2(k) % 2 == 1 <==> a / Pow2(k) % 2 != b / Pow2(k) % 2
  {
    XorBitsAt(a, b, 8, k);
    BitIsDigit(Xor(a, b), k);
    BitIsDigit(a, k);
    BitIsDigit(b, k);
  }

  // Highest byte first, in k bytes.
  function Be(n: int, k: nat): (s: seq<Byte>)
    requires n >= 0
    ensures |s| == k
  {
    if k == 0 then [] else Be(n / 256, k - 1) + [n % 256]
  }

  function FromBe(s: seq<Byte>): (n: int)
    ensures n >= 0
  {
    if s == [] then 0 else
      var low: int := s[|s| - 1];
      FromBe(s[..|s| - 1]) * 256 + low
  }

  function Limit256(k: nat): (p: int)
    ensures p > 0
  {
    if k == 0 then 1 else 256 * Limit256(k - 1)
  }

  lemma {:induction false} FromBeOf(n: int, k: nat)
    requires 0 <= n < Limit256(k)
    ensures FromBe(Be(n, k)) == n
  {
    if k > 0 {
      FromBeOf(n / 256, k - 1);
      assert Be(n, k)[..k - 1] == Be(n / 256, k - 1);
    }
  }
}

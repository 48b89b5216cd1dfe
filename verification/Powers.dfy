module Powers {
  ghost function Pow2(n: nat): (p: nat)
    ensures p >= 1
  {
    if n == 0 then 1 else 2 * Pow2(n - 1)
  }

  lemma {:induction false} Pow2Sum(a: nat, b: nat)
    ensures Pow2(a + b) == Pow2(a) * Pow2(b)
  {
    if a > 0 {
      Pow2Sum(a - 1, b);
      assert Pow2(a + b) == 2 * (Pow2(a - 1) * Pow2(b)) == (2 * Pow2(a - 1)) * Pow2(b);
    }
  }

  lemma {:induction false} Pow2Mono(a: nat, b: nat)
    requires a <= b
    ensures Pow2(a) <= Pow2(b)
  {
    if a < b { Pow2Mono(a, b - 1); }
  }

  lemma MulMono(s: nat, a: nat, b: nat)
    ensures a <= b ==> s * a <= s * b
  {
  }

  // Division with remainder has one answer.
  lemma Division(n: nat, s: nat, q: nat, r: nat)
    requires r < s && n == s * q + r
    ensures n / s == q && n % s == r
  {
    MulMono(s, q + 1, n / s);
    MulMono(s, n / s + 1, q);
  }

  lemma Squares(a: nat, b: nat)
    requires a <= b
    ensures a * a <= b * b
  {
    assert a * a <= a * b <= b * b;
  }

  // Position of the highest bit that is set, found from bit 63 down.
  function ILog2From(n: nat, bit: nat): (r: nat)
  {
    if Bit(n, bit) then bit else if bit == 0 then 0 else ILog2From(n, bit - 1)
  }

  predicate Bit(n: nat, bit: nat) { if bit == 0 then n % 2 == 1 else Bit(n / 2, bit - 1) }

  lemma {:induction false} BitIsDigit(n: nat, k: nat)
    ensures Bit(n, k) <==> n / Pow2(k) % 2 == 1
  {
    if k > 0 {
      var m, h := Pow2(k - 1), n / 2;
      BitIsDigit(h, k - 1);
      HalfOf(n, m);
    }
  }

  lemma HalfOf(n: nat, m: nat)
    requires m > 0
    ensures n / (2 * m) == n / 2 / m
  {
    var h := n / 2;
    Doubled(m, h / m, h % m, n % 2);
    Division(n, 2 * m, h / m, 2 * (h % m) + n % 2);
  }

  lemma Doubled(m: nat, q: nat, r: nat, b: nat)
    ensures 2 * (m * q + r) + b == 2 * m * q + (2 * r + b)
  {
  }

  function ILog2(n: nat): nat { ILog2From(n, 63) }

  // The same by halving.
  function Log2(n: nat): nat { if n <= 1 then 0 else 1 + Log2(n / 2) }

  lemma {:induction false} Log2Bounds(n: nat)
    requires n >= 1
    ensures Pow2(Log2(n)) <= n < 2 * Pow2(Log2(n))
  {
    if n > 1 { Log2Bounds(n / 2); }
  }

  lemma {:induction false} Log2Unique(n: nat, k: nat)
    requires Pow2(k) <= n < 2 * Pow2(k)
    ensures Log2(n) == k
  {
    Log2Bounds(n);
    if k < Log2(n) { Pow2Mono(k + 1, Log2(n)); }
    if Log2(n) < k { Pow2Mono(Log2(n) + 1, k); }
  }

  lemma {:induction false} HighBit(n: nat, bit: nat)
    requires n < 2 * Pow2(bit)
    ensures Bit(n, bit) <==> n >= Pow2(bit)
  {
    if bit > 0 { HighBit(n / 2, bit - 1); }
  }

  lemma {:induction false} ILog2FromIsLog2(n: nat, bit: nat)
    requires 1 <= n < 2 * Pow2(bit)
    ensures ILog2From(n, bit) == Log2(n)
  {
    HighBit(n, bit);
    if Bit(n, bit) {
      Log2Unique(n, bit);
    } else if bit > 0 {
      ILog2FromIsLog2(n, bit - 1);
    }
  }

  lemma Pow2Of32()
    ensures Pow2(32) == 0x1_0000_0000
  {
    assert Pow2(4) == 0x10;
    Pow2Sum(4, 4);
    Pow2Sum(8, 8);
    Pow2Sum(16, 16);
  }

  // The range of size_t.
  const SIZE_LIMIT: nat := 0x1_0000_0000_0000_0000

  lemma SizeLimit()
    ensures SIZE_LIMIT == 2 * Pow2(63)
  {
    Pow2Of32();
    Pow2Sum(32, 31);
    assert Pow2(31) == 0x8000_0000 by { Pow2Sum(16, 15); assert Pow2(15) == 0x8000; }
  }

  // The scan over the bits of a 64-bit number is the floor of the logarithm.
  lemma ILog2IsLog2(n: nat)
    requires 1 <= n < SIZE_LIMIT
    ensures ILog2(n) == Log2(n)
  {
    SizeLimit();
    ILog2FromIsLog2(n, 63);
  }

  function Shl1(k: nat): (p: nat)
    ensures p == Pow2(k)
  {
    if k == 0 then 1 else 2 * Shl1(k - 1)
  }

  const INT_LIMIT := 0x8000_0000

  lemma Pow2Of31()
    ensures Pow2(31) == INT_LIMIT && Pow2(30) == 0x4000_0000 && Pow2(29) == 0x2000_0000
  {
    Pow2Of32();
    assert Pow2(32) == 2 * Pow2(31) == 4 * Pow2(30) == 8 * Pow2(29);
  }

  // 1 << k in an int of 32 bits, whose sign is its highest bit.
  function ShlInt(k: nat): int
    requires k < 32
  {
    if k == 31 then -INT_LIMIT else Shl1(k)
  }

  // A size_t cast to int, or an int that wraps, and an int converted to size_t.
  function ToInt(n: int): int {
    var low := n % 0x1_0000_0000;
    if low < INT_LIMIT then low else low - 0x1_0000_0000
  }

  function ToSize(n: int): nat
    requires -INT_LIMIT <= n < INT_LIMIT
  {
    if n >= 0 then n else SIZE_LIMIT + n
  }

  lemma ToIntSmall(n: nat)
    requires n < INT_LIMIT
    ensures ToInt(n) == n == ToSize(n)
  {
  }

  lemma IntThroughSize(n: int)
    requires -INT_LIMIT <= n < INT_LIMIT
    ensures ToInt(ToSize(n)) == n
  {
  }

  ghost function RoundUpOrder(n: nat): nat
    requires n >= 1
  {
    if n == 1 then 0 else Log2(n - 1) + 1
  }

  // The power of two that is wanted is the least one not below n.
  lemma LeastOrder(n: nat, k: nat)
    requires n >= 1
    ensures n <= Pow2(RoundUpOrder(n)) < 2 * n
    ensures n <= Pow2(k) <==> RoundUpOrder(n) <= k
  {
    if n > 1 {
      Log2Bounds(n - 1);
      var e := RoundUpOrder(n);
      if k < e { Pow2Mono(k, e - 1); } else { Pow2Mono(e, k); }
    }
  }

  // A shift by 32 or more would be undefined.
  function RoundUp(n: nat): (r: int)
    requires 1 <= n <= INT_LIMIT
    ensures r == if n <= 0x4000_0000 then Pow2(RoundUpOrder(n)) else -INT_LIMIT
    ensures -INT_LIMIT <= r < INT_LIMIT
  {
    if n == 1 then 1 else
      Pow2Of31();
      ILog2IsLog2(n - 1);
      LeastOrder(n, 30);
      LeastOrder(n, 31);
      if n <= 0x4000_0000 then Pow2Mono(RoundUpOrder(n), 30); ShlInt(ILog2(n - 1) + 1) else
      ShlInt(ILog2(n - 1) + 1)
  }

  // The macro gives the least power of two that is not below n just up to 2^30:
  // behind that it runs into the sign of an int.
  lemma RoundUpIsLeast(n: nat, k: nat)
    requires 1 <= n <= INT_LIMIT
    ensures n <= RoundUp(n) <==> n <= 0x4000_0000
    ensures n <= 0x4000_0000 ==> RoundUp(n) < 2 * n && RoundUp(n) == Pow2(RoundUpOrder(n))
    ensures n <= 0x4000_0000 ==> (n <= Pow2(k) <==> RoundUp(n) <= Pow2(k))
  {
    LeastOrder(n, k);
    var e := RoundUpOrder(n);
    if e <= k { Pow2Mono(e, k); } else { Pow2Mono(k + 1, e); }
  }

  // Converted to uint32_t, the result is right up to 2^31.
  lemma RoundUpUnsigned(n: nat)
    requires 1 <= n <= INT_LIMIT
    ensures RoundUp(n) % 0x1_0000_0000 == Pow2(RoundUpOrder(n))
  {
    Pow2Of31();
    LeastOrder(n, 30);
    LeastOrder(n, 31);
    if n <= 0x4000_0000 { Pow2Mono(RoundUpOrder(n), 30); }
  }

  // n is a whole number of steps of s.
  ghost predicate Multiple(n: nat, s: nat)
    requires s > 0
  {
    n == 0 || (n >= s && Multiple(n - s, s))
  }

  lemma {:induction false} MultipleIsMod(n: nat, s: nat)
    requires s > 0
    ensures Multiple(n, s) <==> n % s == 0
  {
    if n >= s {
      MultipleIsMod(n - s, s);
      Division(n, s, (n - s) / s + 1, (n - s) % s);
    } else {
      Division(n, s, 0, n);
    }
  }

  lemma {:induction false} MultipleAdd(n: nat, s: nat)
    requires s > 0 && Multiple(n, 2 * s)
    ensures Multiple(n, s) && Multiple(n + s, s)
  {
    if n > 0 { MultipleAdd(n - 2 * s, s); }
  }

  // A multiple of s is one of 2 * s, or s more than one.
  lemma {:induction false} MultipleHalf(n: nat, s: nat)
    requires s > 0 && Multiple(n, s)
    ensures Multiple(n, 2 * s) || (n >= s && Multiple(n - s, 2 * s))
  {
    if n >= 2 * s { MultipleHalf(n - 2 * s, s); }
  }
}

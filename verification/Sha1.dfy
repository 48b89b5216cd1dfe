// SHA-1 of a byte message in one go.
module Sha1 {
  import opened Bytes
  import opened Sha1Core

  type Word = bv32
  type Octet = bv8

  // --------------------------------------- the algorithm of FIPS 180-4

  function Rotl(x: Word, n: nat): Word
    requires 0 < n < 32
  {
    (x << n) | (x >> (32 - n))
  }

  function Ch(x: Word, y: Word, z: Word): Word { (x & y) ^ (!x & z) }
  function Parity(x: Word, y: Word, z: Word): Word { (x ^ y) ^ z }
  function Maj(x: Word, y: Word, z: Word): Word { (x & y) ^ (x & z) ^ (y & z) }

  // Section 4.2.1.
  function K(stage: int): Word {
    if stage <= 0 then 0x5a827999 else if stage == 1 then 0x6ed9eba1 else if stage == 2 then 0x8f1bbcdc else 0xca62c1d6
  }

  const SHA: Ops<Word> := Ops((x: Word, n: int) => if 0 < n < 32 then Rotl(x, n) else x, (x: Word, y: Word) => x + y,
                              (x: Word, y: Word) => x ^ y, Ch, Parity, Maj, K)

  // A word of a block, highest byte first.
  function Load(b: seq<Octet>): Word
    requires |b| == 4
  {
    ((b[0] as Word) << 24) | ((b[1] as Word) << 16) | ((b[2] as Word) << 8) | (b[3] as Word)
  }

  function LoadAll(block: seq<Octet>): (words: seq<Word>)
    requires |block| == 64
    ensures |words| == 16
  {
    seq(16, t requires 0 <= t < 16 => Load(block[4 * t..4 * t + 4]))
  }

  // Section 6.1.2: the blocks one after the other.
  ghost function HashBlocks(h: Vars<Word>, p: seq<Octet>): Vars<Word>
    decreases |p|
  {
    if |p| < 64 then h else HashBlocks(Compress(SHA, h, LoadAll(p[..64])), p[64..])
  }

  // Section 5.3.1.
  const IV: Vars<Word> := Vars(0x67452301, 0xefcdab89, 0x98badcfe, 0x10325476, 0xc3d2e1f0)

  function Zeros(n: nat): (z: seq<Octet>)
    ensures |z| == n
  {
    seq(n, _ => 0)
  }

  // The bit length of a message in 64 bits.
  function BitLength(bits: nat): (s: seq<Octet>)
    ensures |s| == 8
  {
    seq(8, i requires 0 <= i < 8 => Be(bits, 8)[i] as Octet)
  }

  // Section 5.1.1: a one bit, as few zero bits as fill a block, the bit length.
  function Pad(msg: seq<Octet>): seq<Octet> {
    msg + [0x80] + Zeros((55 - |msg|) % 64) + BitLength(8 * |msg|)
  }

  function Store(x: Word): (s: seq<Octet>)
    ensures |s| == 4
  {
    [(x >> 24) as Octet, ((x >> 16) & 0xff) as Octet, ((x >> 8) & 0xff) as Octet, (x & 0xff) as Octet]
  }

  function Output(v: Vars<Word>): seq<Octet> { Store(v.a) + Store(v.b) + Store(v.c) + Store(v.d) + Store(v.e) }

  ghost function Digest(msg: seq<Octet>): seq<Octet> { Output(HashBlocks(IV, Pad(msg))) }

  // ------------------------------------------------- what the words have to be

  // Each constant is the fractional and integer part of a root: of 2, 3, 5 and 10.
  lemma KIsRoot(stage: nat)
    requires stage < 4
    ensures var n, k := [2, 3, 5, 10][stage], K(stage) as int;
            k * k <= n * 0x1000_0000_0000_0000 < (k + 1) * (k + 1)
  {
  }

  // Where x has a bit, that of y is chosen, and elsewhere that of z.
  lemma ChChooses(x: Word, y: Word, z: Word)
    ensures Ch(x, y, z) & x == y & x && Ch(x, y, z) & !x == z & !x
  {
  }

  // Where x and y agree, that is the majority, and elsewhere z decides.
  lemma MajDecides(x: Word, y: Word, z: Word)
    ensures var differ := x ^ y; Maj(x, y, z) & !differ == x & !differ && Maj(x, y, z) & differ == z & differ
  {
  }

  // Where x and y agree, z is the parity, and elsewhere it is not.
  lemma ParityCounts(x: Word, y: Word, z: Word)
    ensures var differ := x ^ y; Parity(x, y, z) & !differ == z & !differ && Parity(x, y, z) & differ == !z & differ
  {
  }

  // The rotations there are.
  lemma RotlRotates(x: Word)
    ensures Rotl(x, 1) == x.RotateLeft(1) && Rotl(x, 5) == x.RotateLeft(5) && Rotl(x, 30) == x.RotateLeft(30)
  {
  }

  // ------------------------------------------------------ words in memory order

  function LoadLittle(b: seq<Octet>): Word
    requires |b| == 4
  {
    ((b[3] as Word) << 24) | ((b[2] as Word) << 16) | ((b[1] as Word) << 8) | (b[0] as Word)
  }

  function StoreLittle(x: Word): (s: seq<Octet>)
    ensures |s| == 4
  {
    [(x & 0xff) as Octet, ((x >> 8) & 0xff) as Octet, ((x >> 16) & 0xff) as Octet, (x >> 24) as Octet]
  }

  // In memory the first words of the state count up, down and down again.
  lemma IVBytes(i: nat)
    requires i < 20
    ensures var s := StoreLittle(IV.a) + StoreLittle(IV.b) + StoreLittle(IV.c) + StoreLittle(IV.d) + StoreLittle(IV.e);
            s[i] as int == if i < 8 then 0x01 + 0x22 * i else if i < 16 then 0xfe - 0x22 * (i - 8)
                           else 0xf0 - 0x0f * (i - 16)
  {
  }

  function ChangeEndian(x: Word): Word {
    (x << 24) | (x >> 24) | ((x & 0x0000ff00) << 8) | ((x & 0x00ff0000) >> 8)
  }

  lemma LoadChanged(b: seq<Octet>)
    requires |b| == 4
    ensures ChangeEndian(LoadLittle(b)) == Load(b)
  {
    var b0, b1, b2, b3 := b[0] as Word, b[1] as Word, b[2] as Word, b[3] as Word;
    assert b0 <= 0xff && b1 <= 0xff && b2 <= 0xff && b3 <= 0xff;
    Reversal(b0, b1, b2, b3);
  }

  lemma Reversal(b0: Word, b1: Word, b2: Word, b3: Word)
    requires b0 <= 0xff && b1 <= 0xff && b2 <= 0xff && b3 <= 0xff
    ensures ChangeEndian((b3 << 24) | (b2 << 16) | (b1 << 8) | b0) == (b0 << 24) | (b1 << 16) | (b2 << 8) | b3
  {
  }

  lemma Swapped0(x: Word)
    ensures ChangeEndian(x) & 0xff == x >> 24
  {
  }

  lemma Swapped1(x: Word)
    ensures (ChangeEndian(x) >> 8) & 0xff == (x >> 16) & 0xff
  {
  }

  lemma Swapped2(x: Word)
    ensures (ChangeEndian(x) >> 16) & 0xff == (x >> 8) & 0xff
  {
  }

  lemma Swapped3(x: Word)
    ensures ChangeEndian(x) >> 24 == x & 0xff
  {
  }

  lemma StoreChanged(x: Word)
    ensures StoreLittle(ChangeEndian(x)) == Store(x)
  {
    Swapped0(x);
    Swapped1(x);
    Swapped2(x);
    Swapped3(x);
  }

  // ------------------------------------------------------------------- blocks

  // Hashing a stretch of whole blocks, then the rest.
  lemma {:induction false} HashSplit(h: Vars<Word>, p: seq<Octet>, q: seq<Octet>)
    requires |p| % 64 == 0
    ensures HashBlocks(h, p + q) == HashBlocks(HashBlocks(h, p), q)
    decreases |p|
  {
    if |p| < 64 {
      assert p + q == q;
    } else {
      assert (p + q)[..64] == p[..64] && (p + q)[64..] == p[64..] + q;
      HashSplit(Compress(SHA, h, LoadAll(p[..64])), p[64..], q);
    }
  }

  lemma OneBlock(h: Vars<Word>, p: seq<Octet>)
    requires |p| == 64
    ensures HashBlocks(h, p) == Compress(SHA, h, LoadAll(p))
  {
    assert p[..64] == p && |p[64..]| == 0;
    assert HashBlocks(Compress(SHA, h, LoadAll(p)), p[64..]) == Compress(SHA, h, LoadAll(p));
  }

  // One block of the rest is taken in.
  lemma Feed(h: Vars<Word>, rest: seq<Octet>, closing: seq<Octet>)
    requires |rest| >= 64
    ensures HashBlocks(h, rest + closing) == HashBlocks(Compress(SHA, h, LoadAll(rest[..64])), rest[64..] + closing)
  {
    var t := rest + closing;
    assert t[..64] == rest[..64] && t[64..] == rest[64..] + closing;
  }

  lemma TwoBlocks(h: Vars<Word>, p: seq<Octet>, q: seq<Octet>)
    requires |p| == |q| == 64
    ensures HashBlocks(h, p + q) == Compress(SHA, Compress(SHA, h, LoadAll(p)), LoadAll(q))
  {
    OneBlock(h, p);
    OneBlock(HashBlocks(h, p), q);
    HashSplit(h, p, q);
  }

  // The end of a message of which n bytes came in whole blocks.
  function Tail(rest: seq<Octet>, n: nat): seq<Octet> {
    rest + [0x80] + Zeros((55 - |rest|) % 64) + BitLength(8 * (n + |rest|))
  }

  lemma PadIsTail(msg: seq<Octet>)
    ensures Pad(msg) == Tail(msg, 0)
  {
  }

  // Byte k of a number, counted from the lowest.
  function ByteOf(n: nat, k: nat): (b: nat)
    ensures b < 256
  {
    if k == 0 then n % 256 else ByteOf(n / 256, k - 1)
  }

  lemma {:induction false} BeBytes(n: nat, m: nat, i: nat)
    requires i < m
    ensures Be(n, m)[i] == ByteOf(n, m - 1 - i)
  {
    if i < m - 1 { BeBytes(n / 256, m - 1, i); }
  }

  // The one or two blocks at the end of a message, n bytes of which are done with.
  lemma LastBlocks(rest: seq<Octet>, n: nat, b1: seq<Octet>, b2: seq<Octet>)
    requires |rest| < 64 && |b1| == |b2| == 64
    requires b1[..|rest|] == rest && b1[|rest|] == 0x80 && b2[56..] == BitLength(8 * (n + |rest|))
    requires forall i :: |rest| < i < (if |rest| < 56 then 56 else 64) ==> b1[i] == 0
    requires |rest| >= 56 ==> forall i :: 0 <= i < 56 ==> b2[i] == 0
    requires |rest| < 56 ==> b1 == b2
    ensures Tail(rest, n) == if |rest| < 56 then b1 else b1 + b2
  {
    var t, r := Tail(rest, n), |rest|;
    if r < 56 {
      assert (55 - r) % 64 == 55 - r;
      assert t == b1[..r] + [b1[r]] + b1[r + 1..56] + b2[56..];
    } else {
      assert (55 - r) % 64 == 119 - r;
      assert t == b1[..r] + [b1[r]] + b1[r + 1..64] + b2[..56] + b2[56..];
    }
  }

  // A block that ends a message: the rest of it, the bit behind it and zeros.
  ghost predicate EndOf(b1: seq<Octet>, rest: seq<Octet>) {
    && |rest| < |b1| == 64 && b1[..|rest|] == rest && b1[|rest|] == 0x80
    && forall i :: |rest| < i < 64 ==> b1[i] == 0
  }

  class Sha1Ctx {
    var h: array<Word>
    var length: nat

    ghost predicate Valid()
      reads this
    {
      h.Length == 5
    }

    ghost function V(): Vars<Word>
      requires Valid()
      reads this, h
    {
      VarsOf(h[..])
    }

    constructor ()
      ensures Valid() && V() == IV && length == 0 && fresh(h)
    {
      var a := new Word[5];
      a[0], a[1], a[2], a[3], a[4] := 0x67452301, 0xefcdab89, 0x98badcfe, 0x10325476, 0xc3d2e1f0;
      h, length := a, 0;
    }

    method NextBlock(block: seq<Octet>)
      requires Valid() && |block| == 64
      modifies this`length, h
      ensures Valid() && V() == Compress(SHA, old(V()), LoadAll(block)) && length == old(length) + 512
    {
      var w := new Word[16];
      for t := 0 to 16
        invariant forall j :: 0 <= j < t ==> w[j] == LoadAll(block)[j]
        modifies w
      {
        w[t] := ChangeEndian(LoadLittle(block[4 * t..4 * t + 4]));
        LoadChanged(block[4 * t..4 * t + 4]);
      }
      assert w[..] == LoadAll(block);
      TakeBlock(SHA, h, w);
      length := length + 512;
    }

    // A block without room for the length: it goes first, and is not counted.
    method Spill(lb: array<Octet>)
      requires Valid() && lb.Length == 64
      modifies this`length, h, lb
      ensures Valid() && V() == Compress(SHA, old(V()), LoadAll(old(lb[..]))) && length == old(length)
      ensures forall i :: 0 <= i < 64 ==> lb[i] == 0
    {
      NextBlock(lb[..]);
      length := length - 512;
      forall i | 0 <= i < 64 {
        lb[i] := 0;
      }
    }

    // The last block gets the length and goes. b1 is what held the end of the
    // message: it is still there, or has gone before.
    method Close(lb: array<Octet>, ghost rest: seq<Octet>, ghost n: nat, ghost b1: seq<Octet>, ghost v: Vars<Word>)
      requires Valid() && lb.Length == 64 && |rest| < 64 && length == 8 * (n + |rest|) && EndOf(b1, rest)
      requires if |rest| < 56 then lb[..] == b1 && V() == v
               else V() == Compress(SHA, v, LoadAll(b1)) && forall i :: 0 <= i < 64 ==> lb[i] == 0
      modifies this`length, h, lb
      ensures Valid() && V() == HashBlocks(v, Tail(rest, n))
    {
      ghost var zeros := lb[..56];
      PutLength(lb, length);
      ghost var b2 := lb[..];
      assert b2[..56] == zeros;
      TailIs(rest, n, b1, b2);
      ClosingBlocks(v, rest, n, b1, b2);
      NextBlock(lb[..]);
    }

    // Less than a block.
    method LastBytes(rest: seq<Octet>, ghost n: nat)
      requires Valid() && |rest| < 64 && length == 8 * n
      modifies this`length, h
      ensures Valid() && V() == HashBlocks(old(V()), Tail(rest, n))
    {
      var bits := 8 * |rest|;
      ghost var v := V();
      length := length + bits;
      var lb := FinalOne(rest);
      ghost var b1 := lb[..];
      assert b1[..|rest|] == rest;
      if bits > 512 - 64 - 1 {
        Spill(lb);
      }
      Close(lb, rest, n, b1, v);
    }

    method FeedOne(rest: seq<Octet>, ghost closing: seq<Octet>) returns (block: seq<Octet>)
      requires Valid() && |rest| >= 64
      modifies this`length, h
      ensures Valid() && HashBlocks(V(), block + closing) == HashBlocks(old(V()), rest + closing)
      ensures |block| == |rest| - 64 && length == old(length) + 512
    {
      Feed(V(), rest, closing);
      NextBlock(rest[..64]);
      block := rest[64..];
    }

    // Whole blocks of a message, k of them, are taken in; what is left is returned.
    method FeedBlocks(rest: seq<Octet>, ghost closing: seq<Octet>) returns (block: seq<Octet>, ghost k: nat)
      requires Valid()
      modifies this`length, h
      ensures Valid() && HashBlocks(V(), block + closing) == HashBlocks(old(V()), rest + closing)
      ensures |block| < 64 && |rest| == |block| + 64 * k && length == old(length) + 512 * k
    {
      block, k := rest, 0;
      ghost var goal := HashBlocks(V(), rest + closing);
      while 8 * |block| >= 512
        invariant Valid() && HashBlocks(V(), block + closing) == goal
        invariant |rest| == |block| + 64 * k && length == old(length) + 512 * k
        decreases |block|
      {
        block := FeedOne(block, closing);
        k := k + 1;
      }
    }

    // The same of a message of which n bytes are done with already.
    method FeedRest(rest: seq<Octet>, ghost n: nat) returns (block: seq<Octet>, ghost n': nat)
      requires Valid() && length == 8 * n
      modifies this`length, h
      ensures Valid() && length == 8 * n' && |block| < 64
      ensures HashBlocks(V(), Tail(block, n')) == HashBlocks(old(V()), Tail(rest, n))
    {
      ghost var k;
      block, k := FeedBlocks(rest, Closing(rest, n));
      Regroup(old(V()), rest, n, V(), block, k);
      n' := n + 64 * k;
    }

    // The rest of a message, n bytes of which are done with: whole blocks first.
    // Its length in bits is passed in 16 bits.
    method LastBlock(rest: seq<Octet>, ghost n: nat)
      requires Valid() && length == 8 * n && |rest| < 8192
      modifies this`length, h
      ensures Valid() && V() == HashBlocks(old(V()), Tail(rest, n))
    {
      var block: seq<Octet>;
      ghost var n';
      block, n' := FeedRest(rest, n);
      LastBytes(block, n');
    }
  }

  // The blocks as they are hashed.
  lemma ClosingBlocks(h: Vars<Word>, rest: seq<Octet>, n: nat, b1: seq<Octet>, b2: seq<Octet>)
    requires |b1| == |b2| == 64 && Tail(rest, n) == if |rest| < 56 then b2 else b1 + b2
    ensures HashBlocks(h, Tail(rest, n))
            == Compress(SHA, if |rest| < 56 then h else Compress(SHA, h, LoadAll(b1)), LoadAll(b2))
  {
    if |rest| < 56 { OneBlock(h, b2); } else { TwoBlocks(h, b1, b2); }
  }

  // b1 is what the message leaves in the block, b2 what is hashed last.
  lemma TailIs(rest: seq<Octet>, n: nat, b1: seq<Octet>, b2: seq<Octet>)
    requires EndOf(b1, rest) && |b2| == 64
    requires b2[56..] == BitLength(8 * (n + |rest|))
    requires if |rest| < 56 then b2[..56] == b1[..56] else forall i :: 0 <= i < 56 ==> b2[..56][i] == 0
    ensures Tail(rest, n) == if |rest| < 56 then b2 else b1 + b2
  {
    assert forall i :: 0 <= i < 56 ==> b2[..56][i] == b2[i] && b1[..56][i] == b1[i];
    if |rest| < 56 {
      assert b2[..|rest|] == b1[..|rest|];
      LastBlocks(rest, n, b2, b2);
    } else {
      LastBlocks(rest, n, b1, b2);
    }
  }

  ghost function Closing(rest: seq<Octet>, n: nat): seq<Octet> { Tail(rest, n)[|rest|..] }

  lemma Regroup(h: Vars<Word>, rest: seq<Octet>, n: nat, h': Vars<Word>, block: seq<Octet>, k: nat)
    requires |rest| == |block| + 64 * k
    requires HashBlocks(h', block + Closing(rest, n)) == HashBlocks(h, rest + Closing(rest, n))
    ensures HashBlocks(h', Tail(block, n + 64 * k)) == HashBlocks(h, Tail(rest, n))
  {
    SameTail(rest, n, rest, n, 0);
    SameTail(rest, n, block, n + 64 * k, k);
  }

  // What closes a message depends on its length alone.
  lemma SameTail(rest: seq<Octet>, n: nat, block: seq<Octet>, n': nat, k: nat)
    requires |rest| == |block| + 64 * k && n' == n + 64 * k
    ensures block + Closing(rest, n) == Tail(block, n')
  {
    assert (55 - |block|) % 64 == (55 - |rest|) % 64;
  }

  // The rest, the bit behind it and zeros.
  method FinalOne(rest: seq<Octet>) returns (lb: array<Octet>)
    requires |rest| < 64
    ensures fresh(lb) && lb.Length == 64 && lb[..|rest|] == rest && lb[|rest|] == 0x80
    ensures forall i :: |rest| < i < 64 ==> lb[i] == 0
  {
    lb := new Octet[64](i => if 0 <= i < |rest| then rest[i] else 0);
    lb[|rest|] := 0x80;
  }

  method PutLength(lb: array<Octet>, bits: nat)
    requires lb.Length == 64
    modifies lb
    ensures lb[..56] == old(lb[..56]) && lb[56..] == BitLength(bits)
  {
    for i := 0 to 8
      invariant lb[..56] == old(lb[..56]) && lb[56..56 + i] == BitLength(bits)[..i]
    {
      BeBytes(bits, 8, i);
      lb[56 + i] := ByteOf(bits, 7 - i) as Octet;
      assert BitLength(bits)[..i + 1] == BitLength(bits)[..i] + [BitLength(bits)[i]];
      assert lb[56..56 + i + 1] == lb[56..56 + i] + [lb[56 + i]];
    }
    assert lb[56..] == lb[56..56 + 8] && BitLength(bits)[..8] == BitLength(bits);
  }

  // The digest of a byte message, whole blocks first.
  method Sha1(msg: seq<Octet>) returns (digest: seq<Octet>)
    requires 8 * |msg| < 0x1_0000_0000
    ensures digest == Digest(msg)
  {
    var s := new Sha1Ctx();
    PadIsTail(msg);
    var rest: seq<Octet>;
    ghost var n;
    rest, n := s.FeedRest(msg, 0);
    s.LastBlock(rest, n);
    digest := Hash(s.h[..]);
  }

  // The words of the state in memory order.
  method Hash(h: seq<Word>) returns (dest: seq<Octet>)
    requires |h| == 5
    ensures dest == Output(VarsOf(h))
  {
    StoreChanged(h[0]);
    StoreChanged(h[1]);
    StoreChanged(h[2]);
    StoreChanged(h[3]);
    StoreChanged(h[4]);
    dest := StoreLittle(ChangeEndian(h[0])) + StoreLittle(ChangeEndian(h[1])) + StoreLittle(ChangeEndian(h[2]))
          + StoreLittle(ChangeEndian(h[3])) + StoreLittle(ChangeEndian(h[4]));
  }
}

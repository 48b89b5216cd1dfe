// WebSocket text frames (sections 5.2 and 5.3 of RFC 6455), made and taken apart.
module WsFrames {
  import opened Bytes
  import opened Buffers
  import opened Powers

  // -------------------------------------------------------------------- frames

  // A length below 126 in seven bits, or a code and the length in 2 or 8 bytes.
  function LengthCode(n: int): (c: int)
    requires n >= 0
    ensures 0 <= c < 128
  {
    if n < 126 then n else if n <= 65535 then 126 else 127
  }

  function LengthBytes(n: int): seq<Byte>
    requires 0 <= n < 0x1_0000_0000
  {
    if n < 126 then [] else if n <= 65535 then Be(n, 2) else Be(n, 8)
  }

  // A final text frame, as a server sends it.
  function Frame(payload: seq<Byte>): seq<Byte>
    requires |payload| < 0x1_0000_0000
  {
    [0x81, LengthCode(|payload|)] + LengthBytes(|payload|) + payload
  }

  function Masked(payload: seq<Byte>, key: seq<Byte>): (s: seq<Byte>)
    requires |key| == 4
    ensures |s| == |payload|
  {
    seq(|payload|, i requires 0 <= i < |payload| => Xor(payload[i], key[i % 4]))
  }

  // As a client sends it.
  function MaskedFrame(payload: seq<Byte>, key: seq<Byte>): seq<Byte>
    requires |payload| < 0x1_0000_0000 && |key| == 4
  {
    [0x81, 0x80 + LengthCode(|payload|)] + LengthBytes(|payload|) + key + Masked(payload, key)
  }

  lemma MaskedTwice(payload: seq<Byte>, key: seq<Byte>)
    requires |key| == 4
    ensures Masked(Masked(payload, key), key) == payload
  {
    forall i | 0 <= i < |payload|
      ensures Masked(Masked(payload, key), key)[i] == payload[i]
    {
      XorTwice(payload[i], key[i % 4]);
    }
  }

  // A mask turns just the bits that the key has.
  lemma MaskedBits(payload: seq<Byte>, key: seq<Byte>, i: nat, k: nat)
    requires |key| == 4 && i < |payload| && k < 8
    ensures Bit(Masked(payload, key)[i], k) <==> Bit(payload[i], k) != Bit(key[i % 4], k)
  {
    XorBit(payload[i], key[i % 4], k);
  }

  // Lengths are sent highest byte first.
  lemma BigEndian(n: int)
    requires 0 <= n < 0x1_0000_0000
    ensures n < 0x1_0000 ==> Be(n, 2) == [n / 256, n % 256]
    ensures Be(n, 8) == [0, 0, 0, 0, n / 0x100_0000, n / 0x1_0000 % 256, n / 256 % 256, n % 256]
  {
    var a, b, c := n / 256, n / 256 / 256, n / 256 / 256 / 256;
    assert b == n / 0x1_0000 && c == n / 0x100_0000;
    if n < 0x1_0000 { assert Be(a, 1) == [a]; }
    assert Be(0, 4) == [0, 0, 0, 0];
    assert Be(c, 5) == [0, 0, 0, 0, c];
    assert Be(b, 6) == [0, 0, 0, 0, c, b % 256];
    assert Be(a, 7) == [0, 0, 0, 0, c, b % 256, a % 256];
  }

  // Every final text frame without mask says so in its first two bytes, and its
  // length in as few bytes as hold it.
  lemma FrameHead(payload: seq<Byte>)
    requires |payload| < 0x1_0000_0000
    ensures var f, n := Frame(payload), |payload|;
            && Bit(f[0], 7) && f[0] % 128 == 1 && !Bit(f[1], 7)
            && (n < 126 <==> |f| == 2 + n && f[1] == n)
            && (126 <= n < 0x1_0000 <==> |f| == 4 + n && f[1] == 126)
            && (0x1_0000 <= n <==> |f| == 10 + n && f[1] == 127)
            && (126 <= n < 0x1_0000 ==> f[2] == n / 256 && f[3] == n % 256)
            && (0x1_0000 <= n ==> f[2] == f[3] == f[4] == f[5] == 0 && f[6] == n / 0x100_0000
                                  && f[7] == n / 0x1_0000 % 256 && f[8] == n / 256 % 256 && f[9] == n % 256)
  {
    assert Pow2(7) == 128;
    BitIsDigit(0x81, 7);
    BitIsDigit(Frame(payload)[1], 7);
    BigEndian(|payload|);
  }

  // ------------------------------------------------------------------- parsing

  // Wild: the program takes the frame for complete and unmasks past the data.
  datatype Parsed = Unsupported | More | Whole(length: int, payload: seq<Byte>) | Wild

  // How many bytes there are in front of the mask.
  function MaskShift(code: int): int { if code == 126 then 4 else if code == 127 then 10 else 2 }

  function PayloadLength(data: seq<Byte>): int
    requires |data| >= 2 && |data| >= MaskShift(data[1] % 128)
  {
    var code := data[1] % 128;
    if code == 126 then FromBe(data[2..4]) else if code == 127 then FromBe(data[2..10]) else code
  }

  // What is in front of the payload.
  function Overhead(data: seq<Byte>): int
    requires |data| >= 2
  {
    MaskShift(data[1] % 128) + if data[1] >= 128 then 4 else 0
  }

  // What the length test compares with: a uint64_t, which wraps.
  function Needed(n: int, shift: int): int { (n + shift) % SIZE_LIMIT }

  // The payload of n bytes at `at`, without the mask that may be in front of it.
  function PayloadAt(s: seq<Byte>, at: int, n: int, masked: bool): seq<Byte>
    requires (if masked then 4 else 0) <= at <= at + n <= |s|
  {
    if masked then Masked(s[at..at + n], s[at - 4..at]) else s[at..at + n]
  }

  // What the head of a frame makes of `sz` bytes.
  function Verdict(sz: int, n: int, shift: int, masked: bool, payload: seq<Byte>): Parsed {
    if sz < Needed(n, shift) then More
    else if n + shift < SIZE_LIMIT then Whole(n + shift, payload)
    else if masked then Wild else Unsupported
  }

  function Parse(data: seq<Byte>): Parsed {
    if |data| < 2 then More
    else if data[0] % 16 != 1 then Unsupported
    else if |data| < MaskShift(data[1] % 128) then More
    else
      var n, shift, masked := PayloadLength(data), Overhead(data), data[1] >= 128;
      Verdict(|data|, n, shift, masked, if n + shift <= |data| then PayloadAt(data, shift, n, masked) else [])
  }

  // No other kind of frame is supported.
  lemma OnlyText(data: seq<Byte>)
    ensures |data| < 2 ==> Parse(data) == More
    ensures |data| >= 2 && data[0] % 16 != 1 ==> Parse(data) == Unsupported
  {
  }

  predicate TestPasses(sz: int, n: int, shift: int) { sz >= Needed(n, shift) }

  // With this much data the test is right just when the sum does not wrap, or when
  // what is left of it is still too much.
  lemma TestIsRight(sz: int, n: int, shift: int)
    requires 0 <= n < SIZE_LIMIT && 0 <= shift <= 14 && 0 <= sz < INT_LIMIT
    ensures (TestPasses(sz, n, shift) <==> n + shift <= sz) <==> n + shift < SIZE_LIMIT || sz < n + shift - SIZE_LIMIT
  {
  }

  // A header is safe with any amount of data just when its sum does not wrap.
  lemma HeaderIsSafe(n: int, shift: int)
    requires 0 <= n < SIZE_LIMIT && 0 <= shift <= 14
    ensures n + shift < SIZE_LIMIT <==>
            forall sz :: 10 <= sz < INT_LIMIT ==> (TestPasses(sz, n, shift) <==> n + shift <= sz)
  {
    assert TestPasses(14, n, shift) || n + shift < SIZE_LIMIT;
  }

  lemma {:induction false} FromBeBound(s: seq<Byte>)
    ensures FromBe(s) < Limit256(|s|)
  {
    if s != [] { FromBeBound(s[..|s| - 1]); }
  }

  lemma Limit256Of8()
    ensures Limit256(2) == 0x1_0000 && Limit256(4) == 0x1_0000_0000 && Limit256(8) == SIZE_LIMIT
  {
    assert Limit256(6) == 0x1_0000_0000_0000;
  }

  lemma PayloadBound(data: seq<Byte>)
    requires |data| >= 2 && |data| >= MaskShift(data[1] % 128)
    ensures 0 <= PayloadLength(data) < SIZE_LIMIT
  {
    Limit256Of8();
    if data[1] % 128 == 126 { FromBeBound(data[2..4]); }
    if data[1] % 128 == 127 { FromBeBound(data[2..10]); }
  }

  ghost function Ones(k: nat): seq<Byte> { seq(k, _ => 255) }

  lemma {:induction false} FromBeOnes(k: nat)
    ensures FromBe(Ones(k)) == Limit256(k) - 1
  {
    if k > 0 {
      FromBeOnes(k - 1);
      assert Ones(k)[..k - 1] == Ones(k - 1);
    }
  }

  // The ten bytes of a header that announces 2^64 - 1 bytes are taken for a frame
  // that is no good, instead of one that is still to come...
  lemma LongestIsRefused()
    ensures var data := [0x81, 0x7f] + Ones(8); PayloadLength(data) == SIZE_LIMIT - 1 && Parse(data) == Unsupported
  {
    var data := [0x81, 0x7f] + Ones(8);
    assert data[2..10] == Ones(8);
    FromBeOnes(8);
    Limit256Of8();
  }

  // ...and with a mask, for one that is there.
  lemma LongestMaskedIsWild(key: seq<Byte>)
    requires |key| == 4
    ensures var data := [0x81, 0xff] + Ones(8) + key; PayloadLength(data) == SIZE_LIMIT - 1 && Parse(data) == Wild
  {
    var data := [0x81, 0xff] + Ones(8) + key;
    assert data[2..10] == Ones(8);
    FromBeOnes(8);
    Limit256Of8();
  }

  // Just the headers whose sum wraps are taken for what they are not.
  lemma ParseExactly(data: seq<Byte>)
    requires |data| < INT_LIMIT && |data| >= 2 && data[0] % 16 == 1 && |data| >= MaskShift(data[1] % 128)
    ensures var sum := PayloadLength(data) + Overhead(data); var p := Parse(data);
            && (p.Whole? <==> sum <= |data|)
            && (p.More? <==> sum > |data| && (sum < SIZE_LIMIT || |data| < sum - SIZE_LIMIT))
            && (p.Wild? <==> data[1] >= 128 && 0 <= sum - SIZE_LIMIT <= |data|)
            && (p.Unsupported? <==> data[1] < 128 && 0 <= sum - SIZE_LIMIT <= |data|)
  {
    PayloadBound(data);
    TestIsRight(|data|, PayloadLength(data), Overhead(data));
  }

  // The head of a frame tells the length of its payload.
  lemma ParseHead(n: int, mask: bool, rest: seq<Byte>)
    requires 0 <= n < 0x1_0000_0000
    ensures var data := [0x81, (if mask then 0x80 else 0) + LengthCode(n)] + LengthBytes(n) + rest;
            && data[1] % 128 == LengthCode(n) && |data| >= MaskShift(LengthCode(n)) == 2 + |LengthBytes(n)|
            && PayloadLength(data) == n && Overhead(data) == 2 + |LengthBytes(n)| + (if mask then 4 else 0)
            && data[2 + |LengthBytes(n)|..] == rest
  {
    var data := [0x81, (if mask then 0x80 else 0) + LengthCode(n)] + LengthBytes(n) + rest;
    assert data[2..2 + |LengthBytes(n)|] == LengthBytes(n);
    Limit256Of8();
    if 126 <= n <= 65535 { FromBeOf(n, 2); }
    if n > 65535 { FromBeOf(n, 8); }
  }

  lemma Behind<X>(s: seq<X>, a: int, x: seq<X>, y: seq<X>)
    requires 0 <= a <= |s| && s[a..] == x + y
    ensures s[a..a + |x|] == x && s[a + |x|..] == y
  {
    assert s[a..a + |x|] == s[a..][..|x|] && s[a + |x|..] == s[a..][|x|..];
  }

  // Where the payload lies in a frame.
  lemma PlainParts(payload: seq<Byte>, rest: seq<Byte>)
    requires |payload| < 0x1_0000_0000
    ensures var data, shift, n := Frame(payload) + rest, 2 + |LengthBytes(|payload|)|, |payload|;
            && data[0] == 0x81 && data[1] < 128 && |data| >= MaskShift(data[1] % 128)
            && Overhead(data) == shift && PayloadLength(data) == n
            && |data| >= shift + n == |Frame(payload)| && data[shift..shift + n] == payload
  {
    var n := |payload|;
    var data := Frame(payload) + rest;
    ParseHead(n, false, payload + rest);
    assert data == [0x81, LengthCode(n)] + LengthBytes(n) + (payload + rest);
    var shift := 2 + |LengthBytes(n)|;
    assert data[shift..] == payload + rest;
    Behind(data, shift, payload, rest);
  }

  lemma ParsePlain(data: seq<Byte>, payload: seq<Byte>)
    requires |data| >= 2 && data[0] % 16 == 1 && data[1] < 128 && |data| >= MaskShift(data[1] % 128)
    requires |payload| < 0x1_0000_0000
    requires var shift := Overhead(data);
             && PayloadLength(data) == |payload| && |data| >= shift + |payload|
             && data[shift..shift + |payload|] == payload
    ensures Parse(data) == Whole(|payload| + Overhead(data), payload)
  {
  }

  // A frame and what follows it: the frame is found whole, and not too early.
  lemma ParseFrame(payload: seq<Byte>, rest: seq<Byte>)
    requires |payload| < 0x1_0000_0000
    ensures Parse(Frame(payload) + rest) == Whole(|Frame(payload)|, payload)
  {
    PlainParts(payload, rest);
    ParsePlain(Frame(payload) + rest, payload);
  }

  lemma ParseParts(data: seq<Byte>, m: seq<Byte>, key: seq<Byte>)
    requires |key| == 4 && |data| >= 2 && data[0] % 16 == 1 && data[1] >= 128 && |data| >= MaskShift(data[1] % 128)
    requires |m| < 0x1_0000_0000
    requires var shift := Overhead(data);
             && PayloadLength(data) == |m| && |data| >= shift + |m|
             && data[shift - 4..shift] == key && data[shift..shift + |m|] == m
    ensures Parse(data) == Whole(|m| + Overhead(data), Masked(m, key))
  {
  }

  // Where the key and the masked payload lie in a frame.
  lemma MaskedParts(payload: seq<Byte>, key: seq<Byte>, rest: seq<Byte>)
    requires |payload| < 0x1_0000_0000 && |key| == 4
    ensures var data, shift, m := MaskedFrame(payload, key) + rest, 6 + |LengthBytes(|payload|)|, Masked(payload, key);
            && data[0] == 0x81 && data[1] >= 128 && |data| >= MaskShift(data[1] % 128)
            && Overhead(data) == shift && PayloadLength(data) == |payload|
            && |data| >= shift + |m| && data[shift - 4..shift] == key && data[shift..shift + |m|] == m
            && |MaskedFrame(payload, key)| == shift + |m|
  {
    var n, m := |payload|, Masked(payload, key);
    var data := MaskedFrame(payload, key) + rest;
    ParseHead(n, true, key + (m + rest));
    assert data == [0x81, 0x80 + LengthCode(n)] + LengthBytes(n) + (key + (m + rest));
    var shift := 2 + |LengthBytes(n)|;
    Behind(data, shift, key, m + rest);
    Behind(data, shift + 4, m, rest);
  }

  lemma ParseMaskedFrame(payload: seq<Byte>, key: seq<Byte>, rest: seq<Byte>)
    requires |payload| < 0x1_0000_0000 && |key| == 4
    ensures Parse(MaskedFrame(payload, key) + rest) == Whole(|MaskedFrame(payload, key)|, payload)
  {
    MaskedParts(payload, key, rest);
    ParseParts(MaskedFrame(payload, key) + rest, Masked(payload, key), key);
    MaskedTwice(payload, key);
  }

  lemma ParsePrefix(payload: seq<Byte>, k: int)
    requires |payload| < 0x1_0000_0000 && 0 <= k < |Frame(payload)|
    ensures Parse(Frame(payload)[..k]) == More
  {
    PrefixIsShort(|payload|, false, payload, k);
  }

  lemma ParseMaskedPrefix(payload: seq<Byte>, key: seq<Byte>, k: int)
    requires |payload| < 0x1_0000_0000 && |key| == 4 && 0 <= k < |MaskedFrame(payload, key)|
    ensures Parse(MaskedFrame(payload, key)[..k]) == More
  {
    var n := |payload|;
    assert MaskedFrame(payload, key) == [0x81, 0x80 + LengthCode(n)] + LengthBytes(n) + (key + Masked(payload, key));
    PrefixIsShort(n, true, key + Masked(payload, key), k);
  }

  lemma SliceOfPrefix<X>(s: seq<X>, k: int, a: int, b: int)
    requires 0 <= a <= b <= k <= |s|
    ensures s[..k][a..b] == s[a..b]
  {
  }

  lemma PrefixIsShort(n: int, mask: bool, rest: seq<Byte>, k: int)
    requires 0 <= n < 0x1_0000_0000 && |rest| == n + (if mask then 4 else 0) && 0 <= k < 2 + |LengthBytes(n)| + |rest|
    ensures Parse(([0x81, (if mask then 0x80 else 0) + LengthCode(n)] + LengthBytes(n) + rest)[..k]) == More
  {
    var data := [0x81, (if mask then 0x80 else 0) + LengthCode(n)] + LengthBytes(n) + rest;
    ParseHead(n, mask, rest);
    if k >= 2 + |LengthBytes(n)| { SliceOfPrefix(data, k, 2, 2 + |LengthBytes(n)|); }
  }

  // ------------------------------------------------------------- many frames

  // What goes over the wire: from a server, or masked from a client.
  datatype Message = Plain(payload: seq<Byte>) | Keyed(payload: seq<Byte>, key: seq<Byte>)

  predicate Sendable(m: Message) { |m.payload| < 0x1_0000_0000 && (m.Keyed? ==> |m.key| == 4) }

  function Wire(m: Message): seq<Byte>
    requires Sendable(m)
  {
    if m.Plain? then Frame(m.payload) else MaskedFrame(m.payload, m.key)
  }

  predicate AllSendable(ms: seq<Message>) { forall i :: 0 <= i < |ms| ==> Sendable(ms[i]) }

  function Frames(ms: seq<Message>): seq<Byte>
    requires AllSendable(ms)
  {
    if ms == [] then [] else Wire(ms[0]) + Frames(ms[1..])
  }

  function Payloads(ms: seq<Message>): (r: seq<seq<Byte>>)
    ensures |r| == |ms|
  {
    seq(|ms|, i requires 0 <= i < |ms| => ms[i].payload)
  }

  lemma ParseWire(m: Message, rest: seq<Byte>)
    requires Sendable(m)
    ensures Parse(Wire(m) + rest) == Whole(|Wire(m)|, m.payload) && |Wire(m)| > 0
  {
    if m.Plain? { ParseFrame(m.payload, rest); } else { ParseMaskedFrame(m.payload, m.key, rest); }
  }

  lemma ParseStart(m: Message, k: int)
    requires Sendable(m) && 0 <= k < |Wire(m)|
    ensures Parse(Wire(m)[..k]) == More
  {
    if m.Plain? { ParsePrefix(m.payload, k); } else { ParseMaskedPrefix(m.payload, m.key, k); }
  }

  lemma FramesFirst(ms: seq<Message>, n: nat)
    requires AllSendable(ms) && 0 < n <= |ms|
    ensures Frames(ms[..n]) == Wire(ms[0]) + Frames(ms[1..][..n - 1])
  {
    assert ms[..n][1..] == ms[1..][..n - 1];
  }

  lemma Regroup(a: seq<Byte>, b: seq<Byte>, c: seq<Byte>)
    ensures a + (b + c) == (a + b) + c
  {
  }

  lemma {:induction false} FramesSplit(ms: seq<Message>, n: nat)
    requires AllSendable(ms) && n <= |ms|
    ensures Frames(ms) == Frames(ms[..n]) + Frames(ms[n..])
  {
    if n == 0 {
      assert ms[0..] == ms;
    } else {
      FramesSplit(ms[1..], n - 1);
      FramesFirst(ms, n);
      assert ms[1..][n - 1..] == ms[n..];
      Regroup(Wire(ms[0]), Frames(ms[1..][..n - 1]), Frames(ms[n..]));
    }
  }

  // How much of the stream the first n frames are.
  function Size(ms: seq<Message>, n: nat): nat
    requires AllSendable(ms) && n <= |ms|
  {
    |Frames(ms[..n])|
  }

  lemma FramesSnoc(ms: seq<Message>, n: nat)
    requires AllSendable(ms) && n < |ms|
    ensures Frames(ms[..n + 1]) == Frames(ms[..n]) + Wire(ms[n])
  {
    FramesSplit(ms[..n + 1], n);
    assert ms[..n + 1][..n] == ms[..n] && ms[..n + 1][n..] == [ms[n]];
    assert [ms[n]][1..] == [] && Frames([ms[n]]) == Wire(ms[n]) + [] == Wire(ms[n]);
  }

  lemma ThreeParts(all: seq<Byte>, a: seq<Byte>, w: seq<Byte>, r: seq<Byte>)
    requires all == a + w + r
    ensures |a| + |w| <= |all| && all[|a|..] == w + all[|a| + |w|..]
  {
  }

  lemma SizeNext(ms: seq<Message>, n: nat)
    requires AllSendable(ms) && n < |ms|
    ensures Size(ms, n + 1) == Size(ms, n) + |Wire(ms[n])| <= |Frames(ms)|
    ensures Frames(ms)[Size(ms, n)..] == Wire(ms[n]) + Frames(ms)[Size(ms, n + 1)..]
  {
    FramesSnoc(ms, n);
    FramesSplit(ms, n + 1);
    ThreeParts(Frames(ms), Frames(ms[..n]), Wire(ms[n]), Frames(ms[n + 1..]));
  }

  lemma {:induction false} SizeGrows(ms: seq<Message>, n: nat, w: nat)
    requires AllSendable(ms) && n <= w <= |ms|
    ensures Size(ms, n) <= Size(ms, w) <= |Frames(ms)|
    decreases w - n
  {
    if n < w {
      SizeNext(ms, n);
      SizeGrows(ms, n + 1, w);
    } else {
      FramesSplit(ms, n);
    }
  }

  // The first bytes of a stream that starts with a frame.
  lemma ParseFirst(m: Message, s: seq<Byte>, rest: seq<Byte>)
    requires Sendable(m) && s <= Wire(m) + rest
    ensures if |s| >= |Wire(m)| then Parse(s) == Whole(|Wire(m)|, m.payload) && |Wire(m)| > 0 else Parse(s) == More
  {
    var w := Wire(m);
    if |s| >= |w| {
      StartsWith(s, w, rest);
      ParseWire(m, s[|w|..]);
    } else {
      assert s == (w + rest)[..|s|] == w[..|s|];
      ParseStart(m, |s|);
    }
  }

  lemma StartsWith(s: seq<Byte>, w: seq<Byte>, rest: seq<Byte>)
    requires s <= w + rest && |s| >= |w|
    ensures s == w + s[|w|..]
  {
    assert s == (w + rest)[..|s|];
  }

  // What is left of the first `at` bytes of a stream behind n frames of it parses to
  // the next frame if all of it has come, and else asks for more.
  lemma ParseStretch(ms: seq<Message>, n: nat, at: nat)
    requires AllSendable(ms) && n <= |ms| && Size(ms, n) <= at <= |Frames(ms)|
    ensures var s := Frames(ms)[Size(ms, n)..at];
            if n < |ms| && Size(ms, n + 1) <= at
            then Parse(s) == Whole(|Wire(ms[n])|, ms[n].payload) && |Wire(ms[n])| > 0
            else Parse(s) == More
  {
    var all := Frames(ms);
    if n == |ms| {
      assert ms[..n] == ms;
    } else {
      SizeNext(ms, n);
      StretchStart(all, Size(ms, n), at);
      ParseFirst(ms[n], all[Size(ms, n)..at], all[Size(ms, n + 1)..]);
    }
  }

  lemma StretchStart(all: seq<Byte>, start: nat, at: nat)
    requires start <= at <= |all|
    ensures all[start..at] <= all[start..]
  {
  }

  // A stream of bytes with the ends and the payloads of its frames.
  datatype Stream = Stream(bytes: seq<Byte>, ends: seq<nat>, payloads: seq<seq<Byte>>)

  function From(ends: seq<nat>, n: nat): nat
    requires n <= |ends|
  {
    if n == 0 then 0 else ends[n - 1]
  }

  // What is left of the first `at` bytes behind n frames parses to the next frame if
  // all of it has come, and else asks for more.
  predicate NextOk(st: Stream, n: nat, at: nat)
    requires n <= |st.ends| == |st.payloads| && From(st.ends, n) <= at <= |st.bytes|
  {
    var start := From(st.ends, n);
    var p := Parse(st.bytes[start..at]);
    if n < |st.ends| && st.ends[n] <= at then start < st.ends[n] && p == Whole(st.ends[n] - start, st.payloads[n])
    else p == More
  }

  predicate Ascending(ends: seq<nat>) { forall i, j :: 0 <= i <= j < |ends| ==> ends[i] <= ends[j] }

  ghost predicate StreamOk(st: Stream) {
    && |st.ends| == |st.payloads| && Ascending(st.ends)
    && forall n: nat, at: nat {:trigger NextOk(st, n, at)} ::
         n <= |st.ends| && From(st.ends, n) <= at <= |st.bytes| ==> NextOk(st, n, at)
  }

  // What these messages make.
  function StreamOf(ms: seq<Message>): (st: Stream)
    requires AllSendable(ms)
    ensures |st.ends| == |ms| && st.payloads == Payloads(ms) && st.bytes == Frames(ms)
  {
    Stream(Frames(ms), seq(|ms|, i requires 0 <= i < |ms| => Size(ms, i + 1)), Payloads(ms))
  }

  lemma StreamOfOk(ms: seq<Message>)
    requires AllSendable(ms)
    ensures StreamOk(StreamOf(ms))
  {
    var st := StreamOf(ms);
    forall i, j | 0 <= i <= j < |ms|
      ensures st.ends[i] <= st.ends[j]
    {
      SizeGrows(ms, i + 1, j + 1);
    }
    forall n: nat, at: nat | n <= |st.ends| && From(st.ends, n) <= at <= |st.bytes|
      ensures NextOk(st, n, at)
    {
      assert From(st.ends, n) == Size(ms, n);
      if n < |ms| { assert st.ends[n] == Size(ms, n + 1) && st.payloads[n] == ms[n].payload; }
      StreamNext(ms, st, n, at);
    }
  }

  lemma StreamNext(ms: seq<Message>, st: Stream, n: nat, at: nat)
    requires AllSendable(ms) && n <= |ms| == |st.ends| == |st.payloads| && st.bytes == Frames(ms)
    requires From(st.ends, n) == Size(ms, n) <= at <= |st.bytes|
    requires n < |ms| ==> st.ends[n] == Size(ms, n + 1) && st.payloads[n] == ms[n].payload
    ensures NextOk(st, n, at)
  {
    if n < |ms| { SizeNext(ms, n); }
    ParseStretch(ms, n, at);
  }

  // The frames shown after one more event, once so many bytes have come: an event
  // shows one frame, if all of it is there.
  function NextShown(ends: seq<nat>, n: nat, at: nat): nat { if n < |ends| && ends[n] <= at then n + 1 else n }

  // How many frames have been shown after events by which so many bytes had come.
  function Served(ends: seq<nat>, arrived: seq<nat>): (n: nat)
    ensures n <= |ends| && n <= |arrived|
  {
    if arrived == [] then 0 else
      var last := |arrived| - 1;
      NextShown(ends, Served(ends, arrived[..last]), arrived[last])
  }

  // Frames that have come whole may have to wait, but no further event passes
  // without one of them.
  lemma {:induction false} CatchesUp(ends: seq<nat>, arrived: seq<nat>, j: nat, w: nat)
    requires Ascending(ends) && j <= |arrived| && w <= |ends|
    requires forall i :: j <= i < |arrived| && w > 0 ==> ends[w - 1] <= arrived[i]
    ensures Served(ends, arrived) >= Min(w, Served(ends, arrived[..j]) + |arrived| - j)
    decreases |arrived|
  {
    if j == |arrived| {
      assert arrived[..j] == arrived;
    } else {
      var last := |arrived| - 1;
      CatchesUp(ends, arrived[..last], j, w);
      assert arrived[..last][..j] == arrived[..j];
      var n := Served(ends, arrived[..last]);
      if n < w { assert ends[n] <= ends[w - 1] <= arrived[last]; }
    }
  }

  // Frames that come with one read are shown one an event.
  lemma OneByOne(ends: seq<nat>, arrived: seq<nat>)
    requires Ascending(ends) && |arrived| <= |ends| && forall i :: 0 <= i < |arrived| ==> ends[|ends| - 1] <= arrived[i]
    ensures Served(ends, arrived) == |arrived|
  {
    CatchesUp(ends, arrived, 0, |ends|);
    assert arrived[..0] == [];
  }

  // ------------------------------------------------------------------ on buffers

  // The pieces in which a frame is written.
  lemma FrameParts(s: seq<Byte>, payload: seq<Byte>)
    requires |payload| < 0x1_0000_0000
    ensures var c, b := LengthCode(|payload|), LengthBytes(|payload|);
            s + [0x81] + [c] + b + payload == s + Frame(payload)
  {
  }

  // The head of a frame, behind the first byte; -1 if the frame will not fit.
  method SendHead(wbuf: Buffer, buflen: int, nwrite: int) returns (ret: int)
    requires wbuf.Valid() && 0 <= buflen < 0x7fff_fff6 && wbuf.WriteLen() >= nwrite - 1
    modifies wbuf`writePos, wbuf.buffer
    ensures wbuf.Valid() && ret == if nwrite >= 2 + |LengthBytes(buflen)| + buflen then 0 else -1
    ensures ret == 0 ==> && wbuf.Contents() == old(wbuf.Contents()) + [LengthCode(buflen)] + LengthBytes(buflen)
                         && wbuf.WriteLen() == old(wbuf.WriteLen()) - 1 - |LengthBytes(buflen)|
    ensures ret == -1 ==> wbuf.Contents() == old(wbuf.Contents())
  {
    ret := 0;
    if buflen < 126 {
      if nwrite < buflen + 2 {
        return -1;
      }
      var n := wbuf.Write([buflen]);
    } else if buflen <= 65535 {
      if nwrite < buflen + 4 {
        return -1;
      }
      var n := wbuf.Write([126]);
      n := wbuf.Write(Be(buflen, 2));
    } else {
      if nwrite < buflen + 10 {
        return -1;
      }
      var n := wbuf.Write([127]);
      n := wbuf.Write(Be(buflen, 8));
    }
  }

  // The length and ten bytes of header have to fit an int.
  // 0 and the frame is in the buffer, or -1 if there is no room: then only the
  // first byte is.
  method Send(wbuf: Buffer, payload: seq<Byte>) returns (ret: int)
    requires wbuf.Valid() && |payload| < 0x7fff_fff6
    modifies wbuf`writePos, wbuf.buffer
    ensures wbuf.Valid() && ret == if old(wbuf.WriteLen()) >= |Frame(payload)| then 0 else -1
    ensures ret == 0 ==> wbuf.Contents() == old(wbuf.Contents()) + Frame(payload)
    ensures ret == -1 ==> wbuf.Contents() == old(wbuf.Contents()) + [0x81][..Min(1, old(wbuf.WriteLen()))]
  {
    var nwrite := wbuf.WriteLen();
    ghost var s := wbuf.Contents();
    var n := wbuf.Write([0x81]);
    ret := SendHead(wbuf, |payload|, nwrite);
    if ret == 0 {
      n := wbuf.Write(payload);
      assert payload[..n] == payload;
      FrameParts(s, payload);
    }
  }

  // The mask is taken off in place.
  method Unmask(data: array<Byte>, shift: int, n: int, key: seq<Byte>)
    requires 0 <= shift && 0 <= n && shift + n <= data.Length && |key| == 4
    modifies data
    ensures data[shift..shift + n] == Masked(old(data[shift..shift + n]), key)
    ensures data[..shift] == old(data[..shift]) && data[shift + n..] == old(data[shift + n..])
  {
    for i := 0 to n
      invariant forall j :: 0 <= j < data.Length ==>
                  data[j] == if shift <= j < shift + i then Xor(old(data[j]), key[(j - shift) % 4]) else old(data[j])
    {
      data[shift + i] := Xor(data[shift + i], key[i % 4]);
    }
  }

  lemma Window(data: array<Byte>, start: int, sz: int, a: int, b: int)
    requires 0 <= start && start + sz <= data.Length && 0 <= a <= b <= sz
    ensures data[start..start + sz][a..b] == data[start + a..start + b]
  {
    var s := data[start..start + sz];
    forall i | 0 <= i < b - a
      ensures s[a..b][i] == data[start + a..start + b][i]
    {
      assert s[a + i] == data[start + a + i];
    }
  }

  // What the head of a frame says, if it is there: whether there is a mask, how
  // long the payload is, and where the mask would be.
  method ReadHead(data: array<Byte>, start: int, sz: int) returns (res: int, masked: bool, n: int, maskShift: int)
    requires 0 <= start && 0 <= sz && start + sz <= data.Length
    ensures var s := data[start..start + sz];
            && (res == 0 ==> Parse(s).More?) && (res == -1 ==> Parse(s).Unsupported?)
            && (res == 0 || res == -1 || res == 1)
            && (res == 1 ==> && sz >= 2 && s[0] % 16 == 1 && masked == (s[1] >= 128)
                             && maskShift == MaskShift(s[1] % 128) <= sz && n == PayloadLength(s) < SIZE_LIMIT)
  {
    res, masked, n, maskShift := 0, false, 0, 2;
    ghost var s := data[start..start + sz];
    if sz < 2 {
      return;
    }
    if data[start] % 16 != 1 {
      res := -1;
      return;
    }
    masked, n := data[start + 1] >= 128, data[start + 1] % 128;
    if n == 126 {
      if sz < 4 {
        return;
      }
      Window(data, start, sz, 2, 4);
      n, maskShift := FromBe(data[start + 2..start + 4]), 4;
    } else if n == 127 {
      if sz < 10 {
        return;
      }
      Window(data, start, sz, 2, 10);
      n, maskShift := FromBe(data[start + 2..start + 10]), 10;
    }
    PayloadBound(s);
    res := 1;
  }

  // What still waits once so many bytes have been taken.
  function LeftBy(shown: seq<Byte>, taken: int): seq<Byte> {
    if taken > 0 then shown[Min(taken, |shown|)..] else shown
  }

  method DropTaken(rrbuf: Buffer, taken: int)
    requires rrbuf.Valid()
    modifies rrbuf`readPos, rrbuf`writePos, rrbuf.buffer
    ensures rrbuf.Valid() && rrbuf.Contents() == LeftBy(old(rrbuf.Contents()), taken)
  {
    if taken > 0 {
      var k := rrbuf.ReadNocopy(taken);
    }
  }

  // As much of the payload as there is room for joins what waits for the reader,
  // which is shown all of it and answers how much it takes.
  method Deliver(rrbuf: Buffer, payload: seq<Byte>, taken: int) returns (shown: seq<Byte>)
    requires rrbuf.Valid()
    modifies rrbuf`readPos, rrbuf`writePos, rrbuf.buffer
    ensures rrbuf.Valid() && shown == old(rrbuf.Contents() + payload[..Min(|payload|, rrbuf.WriteLen())])
    ensures rrbuf.Contents() == LeftBy(shown, taken)
  {
    var k := rrbuf.Write(payload);
    shown := rrbuf.Show();
    DropTaken(rrbuf, taken);
  }

  lemma ParseVerdict(s: seq<Byte>)
    requires |s| >= 2 && s[0] % 16 == 1 && |s| >= MaskShift(s[1] % 128)
    ensures var n, shift, masked := PayloadLength(s), Overhead(s), s[1] >= 128;
            && n >= 0 && (if masked then 6 else 2) <= shift <= 14
            && Parse(s) ==
               Verdict(|s|, n, shift, masked, if n + shift <= |s| then PayloadAt(s, shift, n, masked) else [])
  {
  }

  lemma SliceOf(all: seq<Byte>, start: int, end: int, a: int, b: int)
    requires 0 <= start <= end <= |all| && 0 <= a <= b <= end - start
    ensures all[start..end][a..b] == all[start + a..start + b]
  {
    var s := all[start..end];
    forall i | 0 <= i < b - a
      ensures s[a..b][i] == all[start + a..start + b][i]
    {
      assert s[a + i] == all[start + a + i];
    }
  }

  lemma PayloadWindow(s: seq<Byte>, all: seq<Byte>, start: int, n: int, shift: int, masked: bool)
    requires 0 <= start && start + |s| <= |all| && s == all[start..start + |s|]
    requires n >= 0 && (if masked then 4 else 0) <= shift && n + shift <= |s|
    ensures PayloadAt(s, shift, n, masked) == PayloadAt(all, start + shift, n, masked)
  {
    SliceOf(all, start, start + |s|, shift, shift + n);
    if masked { SliceOf(all, start, start + |s|, shift - 4, shift); }
  }

  // What remains to be parsed behind the head.
  lemma ParseBehindHead(data: array<Byte>, start: int, sz: int, n: int, shift: int, masked: bool)
    requires 0 <= start && 2 <= sz && start + sz <= data.Length
    requires var s := data[start..start + sz];
             && s[0] % 16 == 1 && sz >= MaskShift(s[1] % 128) && n == PayloadLength(s) && shift == Overhead(s)
             && masked == (s[1] >= 128)
    ensures n >= 0 && (if masked then 6 else 2) <= shift <= 14
    ensures Parse(data[start..start + sz]) ==
            Verdict(sz, n, shift, masked, if n + shift <= sz then PayloadAt(data[..], start + shift, n, masked) else [])
  {
    var s := data[start..start + sz];
    ParseVerdict(s);
    assert s == data[..][start..start + sz];
    if n + shift <= sz { PayloadWindow(s, data[..], start, n, shift, masked); }
  }

  // The payload, without its mask if it has one in front.
  method TakePayload(data: array<Byte>, at: int, n: int, masked: bool, rrbuf: Buffer, taken: int)
    returns (shown: seq<Byte>)
    requires 0 <= at && 0 <= n && at + n <= data.Length && (masked ==> at >= 4) && rrbuf.Valid() && rrbuf.buffer != data
    modifies data, rrbuf`readPos, rrbuf`writePos, rrbuf.buffer
    ensures rrbuf.Valid() && data[..][at + n..] == old(data[..])[at + n..]
    ensures shown == old(rrbuf.Contents() + PayloadAt(data[..], at, n, masked)[..Min(n, rrbuf.WriteLen())])
    ensures rrbuf.Contents() == LeftBy(shown, taken)
  {
    assert data[..][at..at + n] == data[at..at + n];
    if masked {
      assert data[..][at - 4..at] == data[at - 4..at];
      var key := data[at - 4..at];
      Unmask(data, at, n, key);
    }
    shown := Deliver(rrbuf, data[at..at + n], taken);
  }

  // What the frame at `start` has to do with the reader, told in advance. That
  // there is something to show is what the program asserts.
  datatype Outcome = Nothing(res: int) | Shown(length: int, bytes: seq<Byte>) | Undefined

  ghost function Outlook(p: Parsed, waiting: seq<Byte>, room: int): Outcome
    requires room >= 0
  {
    match p
    case Unsupported => Nothing(-1)
    case More => Nothing(0)
    case Wild => Undefined
    case Whole(length, payload) =>
      var bytes := waiting + payload[..Min(|payload|, room)];
      if bytes == [] then Undefined else Shown(length, bytes)
  }

  // A length that passes the test is an int, unless it has wrapped.
  lemma IntLength(sz: int, n: int, shift: int)
    requires TestPasses(sz, n, shift) && 0 <= sz < INT_LIMIT && 0 <= n < SIZE_LIMIT && 2 <= shift <= 14
    ensures if n + shift < SIZE_LIMIT then n + shift <= sz && ToInt(n) == n else ToInt(n) < 0
  {
  }

  // The payload of a frame whose head is known, if all of it is there. A length
  // that has wrapped is negative as an int, and there is nothing to copy.
  method ReceivePayload(data: array<Byte>, start: int, sz: int, masked: bool, n: int, shift: int, rrbuf: Buffer,
                        taken: int, ghost payload: seq<Byte>)
    returns (res: int, shown: seq<Byte>)
    requires 0 <= start && 0 <= sz < INT_LIMIT && start + sz <= data.Length && rrbuf.Valid() && rrbuf.buffer != data
    requires 0 <= n < SIZE_LIMIT && (if masked then 6 else 2) <= shift <= 14
    requires n + shift <= sz ==> payload == PayloadAt(data[..], start + shift, n, masked)
    requires !Outlook(Verdict(sz, n, shift, masked, payload), rrbuf.Contents(), rrbuf.WriteLen()).Undefined?
    modifies data, rrbuf`readPos, rrbuf`writePos, rrbuf.buffer
    ensures rrbuf.Valid()
    ensures match old(Outlook(Verdict(sz, n, shift, masked, payload), rrbuf.Contents(), rrbuf.WriteLen()))
            case Nothing(r) => res == r && shown == [] && rrbuf.Contents() == old(rrbuf.Contents())
                               && data[..] == old(data[..])
            case Shown(length, bytes) =>
              && shown == bytes && rrbuf.Contents() == LeftBy(bytes, taken)
              && res == (if taken > 0 then length else taken)
              && 0 <= length <= sz && data[..][start + length..] == old(data[..])[start + length..]
            case Undefined => true
  {
    if sz < Needed(n, shift) {
      return 0, [];
    }
    IntLength(sz, n, shift);
    if ToInt(n) < 0 {
      return -1, [];
    }
    assert Verdict(sz, n, shift, masked, payload) == Whole(n + shift, payload) && |payload| == n;
    assert Outlook(Whole(n + shift, payload), rrbuf.Contents(), rrbuf.WriteLen()) ==
           Shown(n + shift, rrbuf.Contents() + payload[..Min(n, rrbuf.WriteLen())]);
    shown := TakePayload(data, start + shift, n, masked, rrbuf, taken);
    res := if taken > 0 then n + shift else taken;
  }

  // The length of the frame at `start` if it is there in full and the reader takes
  // some of what it is shown, else what the reader returned; 0 if more data is
  // needed, or -1 if it is no text frame or its length wraps. What there is no room
  // for is lost.
  method Receive(data: array<Byte>, start: int, sz: int, rrbuf: Buffer, taken: int)
    returns (res: int, shown: seq<Byte>)
    requires 0 <= start && 0 <= sz < INT_LIMIT && start + sz <= data.Length && rrbuf.Valid() && rrbuf.buffer != data
    requires !Outlook(Parse(data[start..start + sz]), rrbuf.Contents(), rrbuf.WriteLen()).Undefined?
    modifies data, rrbuf`readPos, rrbuf`writePos, rrbuf.buffer
    ensures rrbuf.Valid()
    ensures match old(Outlook(Parse(data[start..start + sz]), rrbuf.Contents(), rrbuf.WriteLen()))
            case Nothing(r) => res == r && shown == [] && rrbuf.Contents() == old(rrbuf.Contents())
                               && data[..] == old(data[..])
            case Shown(length, bytes) =>
              && shown == bytes && rrbuf.Contents() == LeftBy(bytes, taken)
              && res == (if taken > 0 then length else taken)
              && 0 <= length <= sz && data[..][start + length..] == old(data[..])[start + length..]
            case Undefined => true
  {
    shown := [];
    var masked, n, maskShift;
    res, masked, n, maskShift := ReadHead(data, start, sz);
    if res == 1 {
      var shift := if masked then maskShift + 4 else maskShift;
      ParseBehindHead(data, start, sz, n, shift, masked);
      ghost var payload := if n + shift <= sz then PayloadAt(data[..], start + shift, n, masked) else [];
      res, shown := ReceivePayload(data, start, sz, masked, n, shift, rrbuf, taken, payload);
    }
  }

  lemma TailKept(was: seq<Byte>, bytes: seq<Byte>, start: int, end: int, k: int)
    requires 0 <= start <= end <= |bytes| == |was| && 0 <= k <= end - start && bytes[start + k..] == was[start + k..]
    ensures bytes[start..end][k..] == was[start..end][k..]
  {
    assert bytes[start..end][k..] == bytes[start + k..][..end - start - k];
    assert was[start..end][k..] == was[start + k..][..end - start - k];
  }

  lemma BufferStretch(a: array<Byte>, start: int, end: int)
    requires 0 <= start <= end <= a.Length
    ensures a[start..end] == a[..][start..end]
  {
  }

  // The bytes of a buffer as they come to be after a frame at their start has been
  // shown.
  method ReceiveFrom(rbuf: Buffer, rrbuf: Buffer, taken: int) returns (res: int, shown: seq<Byte>)
    requires rbuf.Valid() && rrbuf.Valid() && rbuf != rrbuf && rbuf.buffer != rrbuf.buffer
    requires !Outlook(Parse(rbuf.Contents()), rrbuf.Contents(), rrbuf.WriteLen()).Undefined?
    modifies rbuf.buffer, rrbuf`readPos, rrbuf`writePos, rrbuf.buffer
    ensures rrbuf.Valid()
    ensures match old(Outlook(Parse(rbuf.Contents()), rrbuf.Contents(), rrbuf.WriteLen()))
            case Nothing(r) =>
              && res == r && shown == [] && rrbuf.Contents() == old(rrbuf.Contents())
              && rbuf.Contents() == old(rbuf.Contents())
            case Shown(length, bytes) =>
              && shown == bytes && rrbuf.Contents() == LeftBy(bytes, taken)
              && res == (if taken > 0 then length else taken)
              && 0 <= length <= old(|rbuf.Contents()|) && rbuf.Contents()[length..] == old(rbuf.Contents())[length..]
            case Undefined => true
  {
    ghost var s, bytes := rbuf.Contents(), rbuf.buffer[..];
    ghost var o := Outlook(Parse(s), rrbuf.Contents(), rrbuf.WriteLen());
    var start := rbuf.readPos;
    BufferStretch(rbuf.buffer, start, rbuf.writePos);
    res, shown := Receive(rbuf.buffer, start, rbuf.ReadLen(), rrbuf, taken);
    BufferStretch(rbuf.buffer, start, rbuf.writePos);
    if o.Shown? {
      TailKept(bytes, rbuf.buffer[..], start, rbuf.writePos, o.length);
    }
  }

  // What the socket gives joins the queue, as far as there is room.
  method Fill(rbuf: Buffer, incoming: seq<Byte>) returns (got: int)
    requires rbuf.Valid()
    modifies rbuf`writePos, rbuf.buffer
    ensures rbuf.Valid() && got == Min(|incoming|, old(rbuf.WriteLen()))
    ensures rbuf.Contents() == old(rbuf.Contents()) + incoming[..got] && rbuf.WriteLen() == old(rbuf.WriteLen()) - got
  {
    got := Min(|incoming|, rbuf.WriteLen());
    ghost var s := rbuf.Contents();
    Copy(rbuf.buffer, rbuf.writePos, incoming[..got]);
    assert rbuf.Contents() == s && rbuf.buffer[rbuf.writePos..rbuf.writePos + got] == incoming[..got];
    got := rbuf.WriteNocopy(got);
  }

  // The frame at the front of the queue, which is dropped if the reader takes some
  // of it.
  method TakeFrame(rbuf: Buffer, rrbuf: Buffer, taken: int) returns (res: int, shown: seq<Byte>)
    requires rbuf.Valid() && rrbuf.Valid() && rbuf != rrbuf && rbuf.buffer != rrbuf.buffer
    requires !Outlook(Parse(rbuf.Contents()), rrbuf.Contents(), rrbuf.WriteLen()).Undefined?
    modifies rbuf`readPos, rbuf`writePos, rbuf.buffer, rrbuf`readPos, rrbuf`writePos, rrbuf.buffer
    ensures rbuf.Valid() && rrbuf.Valid()
    ensures match old(Outlook(Parse(rbuf.Contents()), rrbuf.Contents(), rrbuf.WriteLen()))
            case Nothing(r) =>
              && res == r && shown == [] && rrbuf.Contents() == old(rrbuf.Contents())
              && rbuf.Contents() == old(rbuf.Contents())
            case Shown(length, bytes) =>
              && shown == bytes && rrbuf.Contents() == LeftBy(bytes, taken) && res == (if taken < 0 then taken else 0)
              && (taken > 0 ==>
                    && 0 <= length <= old(|rbuf.Contents()|)
                    && rbuf.Contents() == old(rbuf.Contents())[length..])
            case Undefined => true
  {
    res, shown := ReceiveFrom(rbuf, rrbuf, taken);
    if res >= 0 {
      var k := rbuf.ReadNocopy(res);
      res := 0;
    }
  }

  // One event on a connection whose handshake is done. -1, and nothing more happens,
  // if there is no room or the other side has closed; the bytes that come are parsed
  // once.
  method ReadEvent(rbuf: Buffer, rrbuf: Buffer, incoming: seq<Byte>, taken: int)
    returns (res: int, got: int, shown: seq<Byte>)
    requires rbuf.Valid() && rrbuf.Valid() && rbuf != rrbuf && rbuf.buffer != rrbuf.buffer
    requires var s := rbuf.Contents() + incoming[..Min(|incoming|, rbuf.WriteLen())];
             !Outlook(Parse(s), rrbuf.Contents(), rrbuf.WriteLen()).Undefined?
    modifies rbuf`readPos, rbuf`writePos, rbuf.buffer, rrbuf`readPos, rrbuf`writePos, rrbuf.buffer
    ensures rbuf.Valid() && rrbuf.Valid() && got == Min(|incoming|, old(rbuf.WriteLen()))
    ensures got == 0 ==> res == -1 && shown == [] && rbuf.Contents() == old(rbuf.Contents())
                         && rbuf.WriteLen() == old(rbuf.WriteLen()) && rrbuf.Contents() == old(rrbuf.Contents())
    ensures got > 0 ==>
              var s := old(rbuf.Contents()) + incoming[..got];
              match Outlook(Parse(s), old(rrbuf.Contents()), old(rrbuf.WriteLen()))
              case Nothing(r) =>
                && res == r && shown == [] && rrbuf.Contents() == old(rrbuf.Contents())
                && rbuf.Contents() == s
              case Shown(length, bytes) =>
                && shown == bytes && rrbuf.Contents() == LeftBy(bytes, taken) && res == (if taken < 0 then taken else 0)
                && (taken > 0 ==> 0 <= length <= |s| && rbuf.Contents() == s[length..])
              case Undefined => true
  {
    got := Fill(rbuf, incoming);
    if got == 0 {
      return -1, 0, [];
    }
    res, shown := TakeFrame(rbuf, rrbuf, taken);
  }

  // There is room for a payload if it fits the half of the buffer that never lies
  // idle.
  predicate Fits(payload: seq<Byte>, rrbuf: Buffer) {
    0 < |payload| <= rrbuf.buffer.Length - rrbuf.buffer.Length / 2
  }

  predicate AllFit(payloads: seq<seq<Byte>>, rrbuf: Buffer) {
    forall i :: 0 <= i < |payloads| ==> Fits(payloads[i], rrbuf)
  }

  // What every event keeps: of the `at` bytes that have come, n frames have been
  // shown, and the queue holds the rest.
  ghost predicate Serving(rbuf: Buffer, rrbuf: Buffer, st: Stream, n: nat, at: nat)
    reads rbuf, rrbuf, rbuf.buffer, rrbuf.buffer
  {
    && rbuf.Valid() && rrbuf.Valid() && rbuf != rrbuf && rbuf.buffer != rrbuf.buffer && rrbuf.Contents() == []
    && n <= |st.ends| && From(st.ends, n) <= at <= |st.bytes|
    && rbuf.Contents() == st.bytes[From(st.ends, n)..at]
  }

  // What an event that brings k bytes finds.
  lemma ServeOutlook(st: Stream, n: nat, at: nat, k: nat, incoming: seq<Byte>)
    requires StreamOk(st) && n <= |st.ends| && From(st.ends, n) <= at && k <= |incoming|
    requires at + |incoming| <= |st.bytes| && incoming == st.bytes[at..at + |incoming|]
    ensures var start, s := From(st.ends, n), st.bytes[From(st.ends, n)..at] + incoming[..k];
            && s == st.bytes[start..at + k]
            && if n < |st.ends| && st.ends[n] <= at + k
               then && Parse(s) == Whole(st.ends[n] - start, st.payloads[n])
                    && start < st.ends[n] && s[st.ends[n] - start..] == st.bytes[st.ends[n]..at + k]
               else Parse(s) == More
  {
    var start := From(st.ends, n);
    assert incoming[..k] == st.bytes[at..at + k];
    assert st.bytes[start..at] + st.bytes[at..at + k] == st.bytes[start..at + k];
    assert NextOk(st, n, at + k);
  }

  // A whole payload for which there is room.
  lemma WholeOutlook(rrbuf: Buffer, length: int, payload: seq<Byte>, taken: int)
    requires rrbuf.Valid() && rrbuf.Contents() == [] && Fits(payload, rrbuf) && taken >= |payload|
    ensures Outlook(Whole(length, payload), rrbuf.Contents(), rrbuf.WriteLen()) == Shown(length, payload)
    ensures LeftBy(payload, taken) == [] && taken > 0
  {
    assert rrbuf.readPos == rrbuf.writePos;
    assert [] + payload[..|payload|] == payload;
  }

  // An event for a reader that has taken everything so far and will do so again.
  method ReadFrame(rbuf: Buffer, rrbuf: Buffer, incoming: seq<Byte>, taken: int, ghost s: seq<Byte>)
    returns (res: int, got: int, shown: seq<Byte>)
    requires rbuf.Valid() && rrbuf.Valid() && rbuf != rrbuf && rbuf.buffer != rrbuf.buffer && rrbuf.Contents() == []
    requires s == rbuf.Contents() + incoming[..Min(|incoming|, rbuf.WriteLen())]
    requires Parse(s).More? || (Parse(s).Whole? && Fits(Parse(s).payload, rrbuf) && taken >= |Parse(s).payload|)
    modifies rbuf`readPos, rbuf`writePos, rbuf.buffer, rrbuf`readPos, rrbuf`writePos, rrbuf.buffer
    ensures rbuf.Valid() && rrbuf.Valid() && rrbuf.Contents() == [] && got == Min(|incoming|, old(rbuf.WriteLen()))
    ensures got == 0 ==> res < 0 && shown == [] && rbuf.Contents() == old(rbuf.Contents())
                         && rbuf.WriteLen() == old(rbuf.WriteLen())
    ensures got > 0 && Parse(s).More? ==> res == 0 && shown == [] && rbuf.Contents() == s
    ensures got > 0 && Parse(s).Whole? ==>
              res == 0 && shown == Parse(s).payload && 0 <= Parse(s).length <= |s|
              && rbuf.Contents() == s[Parse(s).length..]
  {
    if Parse(s).Whole? { WholeOutlook(rrbuf, Parse(s).length, Parse(s).payload, taken); }
    res, got, shown := ReadEvent(rbuf, rrbuf, incoming, taken);
  }

  // One event of a stream.
  method ServeOne(rbuf: Buffer, rrbuf: Buffer, incoming: seq<Byte>, taken: int,
                  ghost st: Stream, ghost n: nat, ghost at: nat)
    returns (res: int, got: nat, shown: seq<Byte>)
    requires StreamOk(st) && AllFit(st.payloads, rrbuf) && Serving(rbuf, rrbuf, st, n, at)
    requires at + |incoming| <= |st.bytes| && incoming == st.bytes[at..at + |incoming|]
    requires n < |st.payloads| ==> taken >= |st.payloads[n]|
    modifies rbuf`readPos, rbuf`writePos, rbuf.buffer, rrbuf`readPos, rrbuf`writePos, rrbuf.buffer
    ensures got <= |incoming| && (res < 0 <==> got == 0)
    ensures got == 0 ==> incoming == [] || rbuf.WriteLen() == 0
    ensures var next := if got > 0 then NextShown(st.ends, n, at + got) else n;
            Serving(rbuf, rrbuf, st, next, at + got) && shown == if next > n then st.payloads[n] else []
  {
    ghost var k := Min(|incoming|, rbuf.WriteLen());
    ServeOutlook(st, n, at, k, incoming);
    res, got, shown := ReadFrame(rbuf, rrbuf, incoming, taken, st.bytes[From(st.ends, n)..at + k]);
  }

  lemma ServedNext(ends: seq<nat>, arrived: seq<nat>, at: nat)
    ensures Served(ends, arrived + [at]) == NextShown(ends, Served(ends, arrived), at)
  {
    assert (arrived + [at])[..|arrived|] == arrived;
  }

  // The reader always takes everything.
  predicate TakesAll(takes: seq<int>, payloads: seq<seq<Byte>>) {
    forall i, j :: 0 <= i < |takes| && 0 <= j < |payloads| ==> takes[i] >= |payloads[j]|
  }

  lemma TakesNext(takes: seq<int>, payloads: seq<seq<Byte>>, i: nat, n: nat)
    requires TakesAll(takes, payloads) && i < |takes|
    ensures n < |payloads| ==> takes[i] >= |payloads[n]|
  {
  }

  // Every read brings something, but no more than the socket gives.
  predicate ArrivesAt(arrived: seq<nat>, gives: seq<nat>, i: nat)
    requires i < |arrived| <= |gives|
  {
    From(arrived, i) < arrived[i] <= From(arrived, i) + gives[i]
  }

  predicate Arriving(arrived: seq<nat>, gives: seq<nat>) {
    |arrived| <= |gives| && forall i: nat {:trigger ArrivesAt(arrived, gives, i)} ::
      i < |arrived| ==> ArrivesAt(arrived, gives, i)
  }

  // A read has nothing to give, no room, or all has come.
  predicate Closes(rbuf: Buffer, gives: nat, at: nat, all: nat)
    reads rbuf
  {
    gives == 0 || rbuf.WriteLen() == 0 || at == all
  }

  lemma ArrivingNext(arrived: seq<nat>, gives: seq<nat>, at: nat)
    requires Arriving(arrived, gives) && |arrived| < |gives|
    requires From(arrived, |arrived|) < at <= From(arrived, |arrived|) + gives[|arrived|]
    ensures Arriving(arrived + [at], gives)
  {
    var next := arrived + [at];
    forall i: nat | i < |next|
      ensures ArrivesAt(next, gives, i)
    {
      assert From(next, i) == From(arrived, i);
      if i < |arrived| { assert ArrivesAt(arrived, gives, i); }
    }
  }

  // The record of the events so far.
  ghost predicate Recorded(st: Stream, gives: seq<nat>, arrived: seq<nat>, payloads: seq<seq<Byte>>, n: nat, at: nat) {
    && Arriving(arrived, gives) && n == Served(st.ends, arrived) && at == From(arrived, |arrived|)
    && n <= |st.payloads| && payloads == st.payloads[..n]
  }

  lemma RecordedNext(st: Stream, gives: seq<nat>, arrived: seq<nat>, payloads: seq<seq<Byte>>, n: nat, at: nat,
                     got: nat)
    requires Recorded(st, gives, arrived, payloads, n, at) && |st.payloads| == |st.ends|
    requires |arrived| < |gives| && 0 < got <= gives[|arrived|]
    ensures var next := NextShown(st.ends, n, at + got);
            Recorded(st, gives, arrived + [at + got],
                     if next > n then payloads + [st.payloads[n]] else payloads, next, at + got)
  {
    ServedNext(st.ends, arrived, at + got);
    ArrivingNext(arrived, gives, at + got);
    if n < |st.payloads| { assert st.payloads[..n + 1] == st.payloads[..n] + [st.payloads[n]]; }
  }

  // One more event, and its record.
  method ServeNext(rbuf: Buffer, rrbuf: Buffer, gives: seq<nat>, takes: seq<int>, st: Stream,
                   arrived: seq<nat>, payloads: seq<seq<Byte>>, ghost n: nat, at: nat)
    returns (closed: bool, got: nat, shown: seq<seq<Byte>>, ghost next: nat)
    requires StreamOk(st) && AllFit(st.payloads, rrbuf) && Serving(rbuf, rrbuf, st, n, at) && |takes| == |gives|
    requires TakesAll(takes, st.payloads) && Recorded(st, gives, arrived, payloads, n, at) && |arrived| < |gives|
    modifies rbuf`readPos, rbuf`writePos, rbuf.buffer, rrbuf`readPos, rrbuf`writePos, rrbuf.buffer
    ensures Serving(rbuf, rrbuf, st, next, at + got)
    ensures closed ==> got == 0 && next == n && Closes(rbuf, gives[|arrived|], at, |st.bytes|)
    ensures !closed ==> Recorded(st, gives, arrived + [at + got], payloads + shown, next, at + got)
  {
    var i := |arrived|;
    var end := Min(at + gives[i], |st.bytes|);
    TakesNext(takes, st.payloads, i, n);
    var res, bytes;
    res, got, bytes := ServeOne(rbuf, rrbuf, st.bytes[at..end], takes[i], st, n, at);
    closed, next := res < 0, n;
    shown := if bytes == [] then [] else [bytes];
    if !closed {
      RecordedNext(st, gives, arrived, payloads, n, at, got);
      next := NextShown(st.ends, n, at + got);
      assert payloads + [] == payloads;
    }
  }

  // One event after the other, until the connection closes.
  method ServeStream(rbuf: Buffer, rrbuf: Buffer, gives: seq<nat>, takes: seq<int>, st: Stream)
    returns (payloads: seq<seq<Byte>>, arrived: seq<nat>)
    requires StreamOk(st) && AllFit(st.payloads, rrbuf) && Serving(rbuf, rrbuf, st, 0, 0) && |takes| == |gives|
    requires TakesAll(takes, st.payloads)
    modifies rbuf`readPos, rbuf`writePos, rbuf.buffer, rrbuf`readPos, rrbuf`writePos, rrbuf.buffer
    ensures Arriving(arrived, gives)
    ensures |arrived| < |gives| ==> Closes(rbuf, gives[|arrived|], From(arrived, |arrived|), |st.bytes|)
    ensures var n := Served(st.ends, arrived);
            && n <= |st.payloads| && payloads == st.payloads[..n]
            && Serving(rbuf, rrbuf, st, n, From(arrived, |arrived|))
  {
    payloads, arrived := [], [];
    var at := 0;
    ghost var n := 0;
    while |arrived| < |gives|
      invariant |arrived| <= |gives| && Recorded(st, gives, arrived, payloads, n, at)
      invariant Serving(rbuf, rrbuf, st, n, at)
      decreases |gives| - |arrived|
    {
      var closed, got, shown;
      closed, got, shown, n := ServeNext(rbuf, rrbuf, gives, takes, st, arrived, payloads, n, at);
      if closed {
        return;
      }
      at, payloads := at + got, payloads + shown;
      arrived := arrived + [at];
    }
  }

  // Events on a connection whose other side sends these messages; at each the socket
  // gives at most so many bytes. A reader that each time takes everything it is shown
  // gets the payloads one by one, one an event at most and in order, and the queue
  // holds what has come but is not yet shown. `arrived` tells how much has come by
  // each event. The connection closes when a read has no room or nothing to give.
  method Serve(rbuf: Buffer, rrbuf: Buffer, gives: seq<nat>, takes: seq<int>, ms: seq<Message>)
    returns (payloads: seq<seq<Byte>>, arrived: seq<nat>)
    requires rbuf.Valid() && rrbuf.Valid() && rbuf != rrbuf && rbuf.buffer != rrbuf.buffer
    requires rbuf.Contents() == rrbuf.Contents() == [] && AllSendable(ms) && |takes| == |gives|
    requires AllFit(Payloads(ms), rrbuf)
    requires TakesAll(takes, Payloads(ms))
    modifies rbuf`readPos, rbuf`writePos, rbuf.buffer, rrbuf`readPos, rrbuf`writePos, rrbuf.buffer
    ensures Arriving(arrived, gives)
    ensures |arrived| < |gives| ==> Closes(rbuf, gives[|arrived|], From(arrived, |arrived|), |Frames(ms)|)
    ensures var st := StreamOf(ms); var n := Served(st.ends, arrived);
            payloads == Payloads(ms)[..n] && Serving(rbuf, rrbuf, st, n, From(arrived, |arrived|))
  {
    StreamOfOk(ms);
    payloads, arrived := ServeStream(rbuf, rrbuf, gives, takes, StreamOf(ms));
  }
}

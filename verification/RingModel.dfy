// One writer and one reader on a byte ring, interleaved at every load of a
// shared position, every byte copied and every publication of a position.
module RingModel {
  import opened Bytes
  import opened Powers

  type Message = seq<Byte>

  // Positions are uint32 and wrap.
  const WORD := 0x1_0000_0000
  const HEAD := 4

  // ---------------------------------------------------------- where bytes lie

  predicate IsPow2(n: int) { n == 1 || (n > 1 && n % 2 == 0 && IsPow2(n / 2)) }

  // A power of two that holds more than the length of a message.
  predicate SizeOk(n: int) { HEAD < n < WORD && IsPow2(n) }

  // The byte that a position falls on.
  function At(n: int, pos: int): (i: int)
    requires n > 0 && pos >= 0
    ensures 0 <= i < n
    decreases pos
  {
    if pos < n then pos else At(n, pos - n)
  }

  lemma {:induction false} AtIsMod(n: int, pos: int)
    requires n > 0 && pos >= 0
    ensures At(n, pos) == pos % n
    decreases pos
  {
    if pos >= n {
      AtIsMod(n, pos - n);
      Division(pos - n, n, pos / n - 1, pos % n);
    }
  }

  // The bitwise and.
  function And(a: nat, b: nat): nat {
    if a == 0 || b == 0 then 0 else 2 * And(a / 2, b / 2) + if a % 2 == 1 && b % 2 == 1 then 1 else 0
  }

  lemma {:induction false} AndSame(n: nat)
    ensures And(n, n) == n
  {
    if n > 0 { AndSame(n / 2); }
  }

  // The test for a power of two.
  lemma {:induction false} IsPow2Test(n: int)
    requires n > 0
    ensures IsPow2(n) <==> And(n, n - 1) == 0
  {
    if n > 1 {
      if n % 2 == 0 { IsPow2Test(n / 2); } else { AndSame(n / 2); }
    }
  }

  // The mask for the byte that a position falls on.
  lemma {:induction false} MaskIsAt(n: int, pos: nat)
    requires IsPow2(n)
    ensures And(pos, n - 1) == At(n, pos)
    decreases n
  {
    AtIsMod(n, pos);
    if n > 1 && pos > 0 {
      var h := n / 2;
      MaskIsAt(h, pos / 2);
      AtIsMod(h, pos / 2);
      MaskHalf(pos, n, h);
      Division(pos, n, pos / 2 / h, 2 * (pos / 2 % h) + pos % 2);
    }
  }

  lemma MaskHalf(pos: nat, n: nat, h: nat)
    requires h > 0 && n == 2 * h
    ensures pos == n * (pos / 2 / h) + (2 * (pos / 2 % h) + pos % 2) && 2 * (pos / 2 % h) + pos % 2 < n
  {
    var k := pos / 2;
    assert k == h * (k / h) + k % h;
    assert n * (k / h) == 2 * (h * (k / h));
  }

  lemma {:induction false} AtTimes(n: int, m: nat, w: nat, pos: int)
    requires n > 0 && pos >= 0 && w == m * n
    ensures At(n, pos + w) == At(n, pos)
    decreases m
  {
    if m > 0 {
      assert (m - 1) * n == w - n >= 0;
      AtTimes(n, m - 1, w - n, pos);
    }
  }

  lemma {:induction false} Pow2Divides(n: int, k: nat) returns (m: nat)
    requires IsPow2(n) && n <= Pow2(k)
    ensures m * n == Pow2(k)
  {
    if n == 1 {
      m := Pow2(k);
    } else {
      m := Pow2Divides(n / 2, k - 1);
      assert m * n == 2 * (m * (n / 2));
    }
  }

  lemma SizeDivides(n: int) returns (m: nat)
    requires SizeOk(n)
    ensures m * n == WORD
  {
    Pow2Of32();
    m := Pow2Divides(n, 32);
  }

  lemma {:induction false} AtTurns(n: int, m: nat, pos: int)
    requires n > 0 && m * n == WORD && pos >= 0
    ensures At(n, pos % WORD) == At(n, pos)
    decreases pos
  {
    if pos >= WORD {
      assert pos % WORD == (pos - WORD) % WORD;
      AtTurns(n, m, pos - WORD);
      AtTimes(n, m, WORD, pos - WORD);
    }
  }

  // A position that has wrapped falls on the same byte.
  lemma AtWord(n: int, pos: int)
    requires SizeOk(n) && pos >= 0
    ensures At(n, pos % WORD) == At(n, pos)
  {
    var m := SizeDivides(n);
    AtTurns(n, m, pos);
  }

  // Within one turn of the ring, different positions fall on different bytes.
  lemma {:induction false} AtApart(n: int, p: int, q: int)
    requires n > 0 && 0 <= p < q < p + n
    ensures At(n, p) != At(n, q)
    decreases p
  {
    if p >= n { AtApart(n, p - n, q - n); }
  }

  lemma {:induction false} AtNext(n: int, p: int, i: int)
    requires n > 0 && 0 <= p && 0 <= i <= n
    ensures At(n, p + i) == if At(n, p) + i < n then At(n, p) + i else At(n, p) + i - n
    decreases p
  {
    if p >= n { AtNext(n, p - n, i); }
  }

  // ------------------------------------------------------------------- frames

  // A uint32 as it lies in memory, lowest byte first.
  function Encode(x: int): (s: seq<Byte>)
    requires 0 <= x < WORD
    ensures |s| == HEAD
  {
    [x % 256, x / 256 % 256, x / 0x1_0000 % 256, x / 0x100_0000 % 256]
  }

  function Decode(s: seq<Byte>): (x: int)
    requires |s| == HEAD
  {
    var a: int, b: int, c: int, d: int := s[0], s[1], s[2], s[3];
    a + 256 * b + 0x1_0000 * c + 0x100_0000 * d
  }

  lemma DecodeEncode(x: int)
    requires 0 <= x < WORD
    ensures Decode(Encode(x)) == x
  {
    var a, b := x / 256, x / 0x1_0000;
    assert x / 0x1_0000 == a / 256 && x / 0x100_0000 == b / 256;
  }

  function Frame(msg: Message): (s: seq<Byte>)
    requires |msg| < WORD
    ensures |s| == HEAD + |msg|
  {
    Encode(|msg|) + msg
  }

  ghost predicate MessagesOk(n: int, msgs: seq<Message>) {
    forall i :: 0 <= i < |msgs| ==> 0 < |msgs[i]| <= n - HEAD < WORD
  }

  lemma MessagesPrefix(n: int, msgs: seq<Message>, k: int)
    requires MessagesOk(n, msgs) && 0 <= k <= |msgs|
    ensures MessagesOk(n, msgs[..k]) && (k < |msgs| ==> |msgs[k]| < WORD)
  {
    forall i | 0 <= i < k
      ensures 0 < |msgs[..k][i]| <= n - HEAD < WORD
    {
      assert msgs[..k][i] == msgs[i];
    }
  }

  // All the bytes ever sent.
  ghost function Stream(n: int, msgs: seq<Message>): seq<Byte>
    requires MessagesOk(n, msgs)
  {
    if msgs == [] then [] else
      MessagesPrefix(n, msgs, |msgs| - 1);
      Stream(n, msgs[..|msgs| - 1]) + Frame(msgs[|msgs| - 1])
  }

  lemma StreamSnoc(n: int, msgs: seq<Message>, msg: Message)
    requires MessagesOk(n, msgs) && 0 < |msg| <= n - HEAD < WORD
    ensures MessagesOk(n, msgs + [msg]) && Stream(n, msgs + [msg]) == Stream(n, msgs) + Frame(msg)
  {
    assert (msgs + [msg])[..|msgs|] == msgs;
  }

  lemma {:induction false} StreamPrefix(n: int, msgs: seq<Message>, k: int)
    requires MessagesOk(n, msgs) && 0 <= k <= |msgs|
    ensures Stream(n, msgs[..k]) <= Stream(n, msgs)
    decreases |msgs|
  {
    if k == |msgs| {
      assert msgs[..k] == msgs;
    } else {
      var front := msgs[..|msgs| - 1];
      assert front[..k] == msgs[..k];
      StreamPrefix(n, front, k);
    }
  }

  // The frame of message k lies behind those before it.
  lemma FrameInStream(n: int, msgs: seq<Message>, k: int, i: int)
    requires MessagesOk(n, msgs) && 0 <= k < |msgs| && 0 <= i < HEAD + |msgs[k]|
    ensures |Stream(n, msgs[..k])| + HEAD + |msgs[k]| <= |Stream(n, msgs)|
    ensures Stream(n, msgs)[|Stream(n, msgs[..k])| + i] == Frame(msgs[k])[i]
  {
    assert msgs[..k + 1] == msgs[..k] + [msgs[k]];
    StreamSnoc(n, msgs[..k], msgs[k]);
    StreamPrefix(n, msgs, k + 1);
    var a, b := Stream(n, msgs[..k]), Stream(n, msgs[..k + 1]);
    assert b[|a| + i] == Frame(msgs[k])[i];
  }

  // ------------------------------------------------------------------- states

  // A writer copies the bytes of a frame in some order. A reader first copies
  // those of the length, then those of the message.
  datatype Writer = Idle | Copying(msg: Message, done: set<int>)
  datatype Reader = Waiting | Head(cap: int, head: map<int, Byte>) | Body(len: int, body: map<int, Byte>)

  // What is shared, what each side is at, and the past: the messages sent and
  // received, all bytes published and how many of them are done with.
  datatype State = State(n: int, buf: seq<Byte>, wp: int, rp: int, w: Writer, r: Reader,
                         sent: seq<Message>, received: seq<Message>, bytes: seq<Byte>, done: int)

  datatype Action =
    | WriterLoads(msg: Message)
    | WriterCopies(i: int)
    | WriterPublishes
    | ReaderLoads(cap: int)
    | ReaderCopies(i: int)
    | ReaderLength
    | ReaderPublishes
    | ReaderPeeks

  function Sub(a: int, b: int): int { (a - b) % WORD }
  function Add(a: int, b: int): int { (a + b) % WORD }

  // Bytes of messages that can be read or written, as told by the two positions.
  function ReadBytes(wp: int, rp: int): int {
    if Sub(wp, rp) >= HEAD then Sub(wp, rp) - HEAD else 0
  }

  function WriteBytes(n: int, wp: int, rp: int): int {
    if Sub(wp, rp) >= n - HEAD then 0 else n - HEAD - Sub(wp, rp)
  }

  function Whole(len: int, got: map<int, Byte>): (msg: Message)
    requires len >= 0 && forall i :: 0 <= i < len ==> i in got
    ensures |msg| == len && forall i :: 0 <= i < len ==> msg[i] == got[i]
  {
    seq(len, i requires 0 <= i < len && i in got => got[i])
  }

  ghost predicate Enabled(s: State, a: Action) {
    s.n > 0 && |s.buf| == s.n && s.wp >= 0 && s.rp >= 0 &&
    match a
    case WriterLoads(msg) => s.w.Idle?
    case WriterCopies(i) => s.w.Copying? && |s.w.msg| < WORD && 0 <= i < HEAD + |s.w.msg|
    case WriterPublishes => s.w.Copying? && |s.w.msg| < WORD && forall i :: 0 <= i < HEAD + |s.w.msg| ==> i in s.w.done
    case ReaderLoads(cap) => s.r.Waiting?
    case ReaderCopies(i) => (s.r.Head? && 0 <= i < HEAD) || (s.r.Body? && 0 <= i < s.r.len)
    case ReaderLength => s.r.Head? && forall i :: 0 <= i < HEAD ==> i in s.r.head
    case ReaderPublishes => s.r.Body? && s.r.len >= 0 && forall i :: 0 <= i < s.r.len ==> i in s.r.body
    case ReaderPeeks => s.r.Body? && s.r.len >= 0 && forall i :: 0 <= i < s.r.len ==> i in s.r.body
  }

  // A load that finds no room or nothing to read, or a length above the reader's
  // capacity, ends the call with nothing changed.
  ghost function Apply(s: State, a: Action): State
    requires Enabled(s, a)
  {
    match a
    case WriterLoads(msg) =>
      if msg == [] || WriteBytes(s.n, s.wp, s.rp) < |msg| then s else s.(w := Copying(msg, {}))
    case WriterCopies(i) =>
      s.(buf := s.buf[At(s.n, Add(s.wp, i)) := Frame(s.w.msg)[i]], w := s.w.(done := s.w.done + {i}))
    case WriterPublishes =>
      s.(wp := Add(s.wp, HEAD + |s.w.msg|), w := Idle, sent := s.sent + [s.w.msg], bytes := s.bytes + Frame(s.w.msg))
    case ReaderLoads(cap) =>
      if ReadBytes(s.wp, s.rp) == 0 then s else s.(r := Head(cap, map[]))
    case ReaderCopies(i) =>
      if s.r.Head? then s.(r := s.r.(head := s.r.head[i := s.buf[At(s.n, Add(s.rp, i))]]))
      else s.(r := s.r.(body := s.r.body[i := s.buf[At(s.n, Add(s.rp, HEAD + i))]]))
    case ReaderLength =>
      var len := Decode(Whole(HEAD, s.r.head));
      if len > s.n - HEAD || len > s.r.cap then s.(r := Waiting) else s.(r := Body(len, map[]))
    case ReaderPublishes =>
      s.(rp := Add(s.rp, HEAD + s.r.len), r := Waiting, received := s.received + [Whole(s.r.len, s.r.body)],
         done := s.done + HEAD + s.r.len)
    case ReaderPeeks => s.(r := Waiting)
  }

  // ---------------------------------------------------------------- invariant

  // Published bytes wait in the ring until the reader is done with them.
  ghost predicate UnreadOk(s: State, p: int)
    requires s.n > 0 && |s.buf| == s.n
  {
    0 <= s.done <= p < |s.bytes| ==> s.buf[At(s.n, p)] == s.bytes[p]
  }

  ghost predicate CopiedOk(s: State, i: int)
    requires s.n > 0 && |s.buf| == s.n && s.w.Copying? && |s.w.msg| < WORD
  {
    0 <= i < HEAD + |s.w.msg| && s.buf[At(s.n, |s.bytes| + i)] == Frame(s.w.msg)[i]
  }

  ghost predicate SharedOk(s: State) {
    && SizeOk(s.n) && |s.buf| == s.n && 0 <= s.done <= |s.bytes| <= s.done + s.n
    && s.wp == |s.bytes| % WORD && s.rp == s.done % WORD
    && forall p {:trigger UnreadOk(s, p)} :: UnreadOk(s, p)
  }

  ghost predicate PastOk(s: State) {
    && MessagesOk(s.n, s.sent) && s.received <= s.sent
    && s.bytes == Stream(s.n, s.sent) && s.done == |Stream(s.n, s.received)|
  }

  ghost predicate WriterOk(s: State)
    requires s.n > 0 && |s.buf| == s.n
  {
    s.w.Copying? ==>
      && 0 < |s.w.msg| <= s.n - HEAD < WORD
      && |s.bytes| + HEAD + |s.w.msg| <= s.done + s.n
      && forall i {:trigger CopiedOk(s, i)} :: i in s.w.done ==> CopiedOk(s, i)
  }

  // The next message to read.
  ghost predicate IsNext(s: State, next: Message)
  {
    |s.received| < |s.sent| && s.sent[|s.received|] == next && |next| < WORD
  }

  ghost predicate ReaderOk(s: State) {
    !s.r.Waiting? ==>
      && |s.received| < |s.sent|
      && var next := s.sent[|s.received|];
         && |next| < WORD
         && (s.r.Head? ==> forall i :: i in s.r.head ==> 0 <= i < HEAD && s.r.head[i] == Encode(|next|)[i])
         && (s.r.Body? ==> s.r.len == |next| && forall i :: i in s.r.body ==> 0 <= i < |next| && s.r.body[i] == next[i])
  }

  ghost predicate Inv(s: State) {
    SharedOk(s) && PastOk(s) && WriterOk(s) && ReaderOk(s)
  }

  lemma AddWord(x: int, i: int)
    ensures Add(x % WORD, i) == (x + i) % WORD
  {
  }

  // The distance of two positions survives their wrapping.
  lemma SubWord(a: int, b: int)
    requires 0 <= b <= a < b + WORD
    ensures Sub(a % WORD, b % WORD) == a - b
  {
  }

  // What is unread starts with the frame of the next message.
  lemma NextFrame(s: State, i: int)
    requires PastOk(s) && |s.received| < |s.sent| && 0 <= i < HEAD + |s.sent[|s.received|]|
    ensures |s.sent[|s.received|]| < WORD && s.done + HEAD + |s.sent[|s.received|]| <= |s.bytes|
    ensures s.bytes[s.done + i] == Frame(s.sent[|s.received|])[i]
  {
    assert s.received == s.sent[..|s.received|];
    FrameInStream(s.n, s.sent, |s.received|, i);
  }

  lemma NextByte(s: State, i: int)
    requires SharedOk(s) && PastOk(s) && |s.received| < |s.sent| && 0 <= i < HEAD + |s.sent[|s.received|]|
    ensures |s.sent[|s.received|]| < WORD && s.done + HEAD + |s.sent[|s.received|]| <= |s.bytes|
    ensures s.buf[At(s.n, Add(s.rp, i))] == Frame(s.sent[|s.received|])[i]
  {
    NextFrame(s, i);
    assert UnreadOk(s, s.done + i);
    AtWord(s.n, s.done + i);
    AddWord(s.done, i);
  }

  // A byte the writer is about to write is none of those unread.
  lemma WriterKeepsOff(s: State, i: int, p: int)
    requires SharedOk(s) && WriterOk(s) && Enabled(s, WriterCopies(i)) && s.done <= p < |s.bytes|
    ensures At(s.n, Add(s.wp, i)) != At(s.n, p)
  {
    AtWord(s.n, |s.bytes| + i);
    AddWord(|s.bytes|, i);
    AtApart(s.n, p, |s.bytes| + i);
  }

  // What the reader alone is at does not concern the rest.
  lemma OthersKept(s: State, r: Reader)
    requires SharedOk(s) && WriterOk(s)
    ensures var s' := s.(r := r); SharedOk(s') && WriterOk(s')
  {
    var s' := s.(r := r);
    forall p
      ensures UnreadOk(s', p)
    {
      assert UnreadOk(s, p);
    }
    if s.w.Copying? {
      forall i | i in s.w.done
        ensures CopiedOk(s', i)
      {
        assert CopiedOk(s, i);
      }
    }
  }

  lemma WriterLoadsOk(s: State, msg: Message)
    requires Inv(s) && Enabled(s, WriterLoads(msg))
    ensures Inv(Apply(s, WriterLoads(msg)))
  {
    var s' := Apply(s, WriterLoads(msg));
    SubWord(|s.bytes|, s.done);
    assert forall p :: UnreadOk(s, p) ==> UnreadOk(s', p);
  }

  lemma WriterCopied(s: State, i: int)
    requires SizeOk(s.n) && s.wp == |s.bytes| % WORD && Enabled(s, WriterCopies(i)) && HEAD + |s.w.msg| <= s.n
    ensures Apply(s, WriterCopies(i)).buf == s.buf[At(s.n, |s.bytes| + i) := Frame(s.w.msg)[i]]
  {
    AtWord(s.n, |s.bytes| + i);
    AddWord(|s.bytes|, i);
  }

  lemma WriterKeepsCopied(s: State, i: int, j: int)
    requires SizeOk(s.n) && s.wp == |s.bytes| % WORD && Enabled(s, WriterCopies(i))
    requires HEAD + |s.w.msg| <= s.n && (j == i || CopiedOk(s, j))
    ensures CopiedOk(Apply(s, WriterCopies(i)), j)
  {
    WriterCopied(s, i);
    if j < i { AtApart(s.n, |s.bytes| + j, |s.bytes| + i); }
    if i < j { AtApart(s.n, |s.bytes| + i, |s.bytes| + j); }
  }

  lemma WriterCopiesOk(s: State, i: int)
    requires Inv(s) && Enabled(s, WriterCopies(i))
    ensures Inv(Apply(s, WriterCopies(i)))
  {
    var s' := Apply(s, WriterCopies(i));
    forall p
      ensures UnreadOk(s', p)
    {
      assert UnreadOk(s, p);
      if s.done <= p < |s.bytes| { WriterKeepsOff(s, i, p); }
    }
    forall j | j in s'.w.done
      ensures CopiedOk(s', j)
    {
      if j != i { assert CopiedOk(s, j); }
      WriterKeepsCopied(s, i, j);
    }
  }

  lemma WriterPublishesOk(s: State)
    requires Inv(s) && Enabled(s, WriterPublishes)
    ensures Inv(Apply(s, WriterPublishes))
  {
    var s' := Apply(s, WriterPublishes);
    StreamSnoc(s.n, s.sent, s.w.msg);
    AddWord(|s.bytes|, HEAD + |s.w.msg|);
    forall p
      ensures UnreadOk(s', p)
    {
      assert UnreadOk(s, p);
      if |s.bytes| <= p < |s'.bytes| { assert CopiedOk(s, p - |s.bytes|); }
    }
  }

  lemma ReaderLoadsOk(s: State, cap: int)
    requires Inv(s) && Enabled(s, ReaderLoads(cap))
    ensures Inv(Apply(s, ReaderLoads(cap)))
  {
    var s' := Apply(s, ReaderLoads(cap));
    SubWord(|s.bytes|, s.done);
    OthersKept(s, s'.r);
    assert s.received == s.sent || |s.received| < |s.sent|;
  }

  lemma ReaderCopiesOk(s: State, i: int)
    requires Inv(s) && Enabled(s, ReaderCopies(i))
    ensures Inv(Apply(s, ReaderCopies(i)))
  {
    var s' := Apply(s, ReaderCopies(i));
    OthersKept(s, s'.r);
    NextByte(s, if s.r.Head? then i else HEAD + i);
  }

  // A length read byte by byte is that of the next message.
  lemma HeadIsLength(s: State)
    requires SharedOk(s) && PastOk(s) && ReaderOk(s) && Enabled(s, ReaderLength)
    ensures |s.received| < |s.sent| && Decode(Whole(HEAD, s.r.head)) == |s.sent[|s.received|]| <= s.n - HEAD
  {
    var next := s.sent[|s.received|];
    assert Whole(HEAD, s.r.head) == Encode(|next|);
    DecodeEncode(|next|);
  }

  lemma ReaderLengthOk(s: State)
    requires Inv(s) && Enabled(s, ReaderLength)
    ensures Inv(Apply(s, ReaderLength))
  {
    var s' := Apply(s, ReaderLength);
    OthersKept(s, s'.r);
    HeadIsLength(s);
  }

  // What the reader gives back concerns neither the unread bytes nor the writer's.
  lemma GivenBackOk(s: State, s': State)
    requires SharedOk(s) && WriterOk(s) && s.done <= s'.done <= |s.bytes| && s'.rp == s'.done % WORD
    requires s'.n == s.n && s'.buf == s.buf && s'.wp == s.wp && s'.w == s.w && s'.bytes == s.bytes
    ensures SharedOk(s') && WriterOk(s')
  {
    forall p
      ensures UnreadOk(s', p)
    {
      assert UnreadOk(s, p);
    }
    if s.w.Copying? {
      forall i | i in s.w.done
        ensures CopiedOk(s', i)
      {
        assert CopiedOk(s, i);
      }
    }
  }

  lemma ReaderPublishesOk(s: State)
    requires Inv(s) && Enabled(s, ReaderPublishes)
    ensures Inv(Apply(s, ReaderPublishes))
  {
    var s', k := Apply(s, ReaderPublishes), |s.received|;
    NextFrame(s, 0);
    AddWord(s.done, HEAD + s.r.len);
    assert Whole(s.r.len, s.r.body) == s.sent[k];
    StreamSnoc(s.n, s.received, s.sent[k]);
    GivenBackOk(s, s');
  }

  lemma ReaderPeeksOk(s: State)
    requires Inv(s) && Enabled(s, ReaderPeeks)
    ensures Inv(Apply(s, ReaderPeeks))
  {
    var s' := Apply(s, ReaderPeeks);
    OthersKept(s, s'.r);
  }

  lemma ApplyOk(s: State, a: Action)
    requires Inv(s) && Enabled(s, a)
    ensures Inv(Apply(s, a))
  {
    match a
    case WriterLoads(msg) => WriterLoadsOk(s, msg);
    case WriterCopies(i) => WriterCopiesOk(s, i);
    case WriterPublishes => WriterPublishesOk(s);
    case ReaderLoads(cap) => ReaderLoadsOk(s, cap);
    case ReaderCopies(i) => ReaderCopiesOk(s, i);
    case ReaderLength => ReaderLengthOk(s);
    case ReaderPublishes => ReaderPublishesOk(s);
    case ReaderPeeks => ReaderPeeksOk(s);
  }

  // ------------------------------------------------------------ all executions

  ghost function Init(n: int, buf: seq<Byte>): State { State(n, buf, 0, 0, Idle, Waiting, [], [], [], 0) }

  ghost predicate Runs(s: State, acts: seq<Action>, s': State)
    decreases |acts|
  {
    if acts == [] then s' == s else Enabled(s, acts[0]) && Runs(Apply(s, acts[0]), acts[1..], s')
  }

  lemma {:induction false} RunsOk(s: State, acts: seq<Action>, s': State)
    requires Inv(s) && Runs(s, acts, s')
    ensures Inv(s')
    decreases |acts|
  {
    if acts != [] {
      ApplyOk(s, acts[0]);
      RunsOk(Apply(s, acts[0]), acts[1..], s');
    }
  }

  // In every interleaving, what has been read is a prefix of what has been
  // written, message by message and byte by byte.
  lemma ReadIsPrefix(n: int, buf: seq<Byte>, acts: seq<Action>, s: State)
    requires SizeOk(n) && |buf| == n && Runs(Init(n, buf), acts, s)
    ensures s.received <= s.sent && Inv(s)
  {
    var s0 := Init(n, buf);
    assert forall p :: UnreadOk(s0, p);
    RunsOk(s0, acts, s);
  }

  // The byte a reader is about to read is a published one that it has not given
  // back yet.
  lemma ReaderKeepsIn(s: State, i: int)
    requires Inv(s) && Enabled(s, ReaderCopies(i))
    ensures var k := if s.r.Head? then i else HEAD + i;
            s.done + k < |s.bytes| && At(s.n, Add(s.rp, k)) == At(s.n, s.done + k)
  {
    var k := if s.r.Head? then i else HEAD + i;
    NextFrame(s, k);
    AtWord(s.n, s.done + k);
    AddWord(s.done, k);
  }

  // A finished peek shows the next message.
  lemma PeekShowsNext(s: State)
    requires Inv(s) && Enabled(s, ReaderPeeks)
    ensures |s.received| < |s.sent| && Whole(s.r.len, s.r.body) == s.sent[|s.received|]
  {
  }

  // Only a reader's own capacity makes it give up on a message.
  lemma LengthIsSound(s: State)
    requires Inv(s) && Enabled(s, ReaderLength)
    ensures |s.received| < |s.sent|
    ensures Apply(s, ReaderLength).r.Waiting? <==> |s.sent[|s.received|]| > s.r.cap
  {
    HeadIsLength(s);
  }

  // A message is refused just when its frame does not fit behind what the
  // reader has given back, and nothing is found just when all has been read.
  lemma LoadsAreExact(s: State, msg: Message)
    requires Inv(s) && msg != []
    ensures WriteBytes(s.n, s.wp, s.rp) < |msg| <==> |s.bytes| - s.done + HEAD + |msg| > s.n
    ensures ReadBytes(s.wp, s.rp) == 0 <==> s.received == s.sent
  {
    SubWord(|s.bytes|, s.done);
    assert s.received == s.sent || |s.received| < |s.sent|;
    if |s.received| < |s.sent| { NextFrame(s, 0); }
  }
}

// The message ring as one side's calls see it when the other side is at rest.
module Ring {
  import opened Bytes
  import opened Powers
  import opened RingModel

  // The ring after f has been laid down from byte `at` on, around its end.
  ghost function Put(b: seq<Byte>, at: int, f: seq<Byte>): (b': seq<Byte>)
    requires 0 <= at < |b| && |f| <= |b|
    ensures |b'| == |b|
  {
    seq(|b|, j requires 0 <= j < |b| =>
      var i := if j >= at then j - at else j - at + |b|;
      if i < |f| then f[i] else b[j])
  }

  lemma PutTwice(b: seq<Byte>, at: int, f: seq<Byte>, g: seq<Byte>)
    requires 0 <= at < |b| && |f| + |g| <= |b| && |f| < |b|
    ensures Put(Put(b, at, f), if at + |f| < |b| then at + |f| else at + |f| - |b|, g) == Put(b, at, f + g)
  {
  }

  // A published frame.
  ghost function Grown(s: State, msg: Message): State
    requires 0 < s.n == |s.buf| && s.wp >= 0 && HEAD + |msg| <= s.n < WORD
  {
    s.(buf := Put(s.buf, At(s.n, s.wp), Frame(msg)), wp := Add(s.wp, HEAD + |msg|),
       sent := s.sent + [msg], bytes := s.bytes + Frame(msg))
  }

  lemma GrownByte(s: State, msg: Message, p: int)
    requires SizeOk(s.n) && s.n == |s.buf| && 0 < |msg| <= s.n - HEAD && s.wp == |s.bytes| % WORD
    requires 0 <= s.done <= |s.bytes| && |s.bytes| + HEAD + |msg| <= s.done + s.n && UnreadOk(s, p)
    ensures UnreadOk(Grown(s, msg), p)
  {
    var l := |s.bytes|;
    AtWord(s.n, l);
    if l <= p < l + HEAD + |msg| {
      AtNext(s.n, l, p - l);
    } else if s.done <= p < l {
      AtNext(s.n, p, l - p);
      AtNext(s.n, l, p + s.n - l);
    }
  }

  lemma GrownOk(s: State, msg: Message)
    requires SharedOk(s) && PastOk(s) && 0 < |msg| <= s.n - HEAD && |s.bytes| + HEAD + |msg| <= s.done + s.n
    ensures SharedOk(Grown(s, msg)) && PastOk(Grown(s, msg))
  {
    var s', l := Grown(s, msg), |s.bytes|;
    StreamSnoc(s.n, s.sent, msg);
    AddWord(l, HEAD + |msg|);
    forall p
      ensures UnreadOk(s', p)
    {
      assert UnreadOk(s, p);
      GrownByte(s, msg, p);
    }
  }

  // The `len` bytes of the ring from byte `at` on, around its end.
  ghost function Taken(b: seq<Byte>, at: int, len: int): (f: seq<Byte>)
    requires 0 <= at < |b| && 0 <= len <= |b|
    ensures |f| == len
  {
    seq(len, i requires 0 <= i < len => if at + i < |b| then b[at + i] else b[at + i - |b|])
  }

  lemma TakenParts(b: seq<Byte>, at: int, len: int)
    requires 0 <= at < |b| && 0 <= len <= |b|
    ensures at + len <= |b| ==> Taken(b, at, len) == b[at..at + len]
    ensures at + len > |b| ==> Taken(b, at, len) == b[at..] + b[..at + len - |b|]
  {
  }

  lemma ByteTaken(s: State, i: int)
    requires SharedOk(s) && PastOk(s) && |s.received| < |s.sent| && 0 <= i < HEAD + |s.sent[|s.received|]|
    ensures |s.sent[|s.received|]| < WORD && s.rp >= 0
    ensures s.buf[At(s.n, s.rp + i)] == Frame(s.sent[|s.received|])[i]
  {
    NextByte(s, i);
    AtWord(s.n, s.rp + i);
  }

  // Any stretch of the next frame is found where the reader looks for it.
  lemma StretchTaken(s: State, from: int, f: seq<Byte>)
    requires SharedOk(s) && PastOk(s) && |s.received| < |s.sent| && s.rp >= 0 && |s.sent[|s.received|]| < WORD
    requires 0 <= from && from + |f| <= HEAD + |s.sent[|s.received|]| && |f| <= s.n
    requires forall i :: 0 <= i < |f| ==> f[i] == Frame(s.sent[|s.received|])[from + i]
    ensures Taken(s.buf, At(s.n, s.rp + from), |f|) == f
  {
    forall i | 0 <= i < |f|
      ensures Taken(s.buf, At(s.n, s.rp + from), |f|)[i] == f[i]
    {
      ByteTaken(s, from + i);
      AtNext(s.n, s.rp + from, i);
    }
  }

  lemma TakenIsNext(s: State)
    requires SharedOk(s) && PastOk(s) && |s.received| < |s.sent|
    ensures var next := s.sent[|s.received|];
            && s.rp >= 0 && |next| <= s.n - HEAD
            && Taken(s.buf, At(s.n, s.rp), HEAD) == Encode(|next|)
            && Taken(s.buf, At(s.n, s.rp + HEAD), |next|) == next
  {
    var next := s.sent[|s.received|];
    StretchTaken(s, 0, Encode(|next|));
    StretchTaken(s, HEAD, next);
  }

  // A message the reader is done with.
  ghost function Shrunk(s: State): State
    requires |s.received| < |s.sent|
  {
    var next := s.sent[|s.received|];
    s.(rp := Add(s.rp, HEAD + |next|), received := s.received + [next], done := s.done + HEAD + |next|)
  }

  lemma ShrunkOk(s: State)
    requires SharedOk(s) && PastOk(s) && |s.received| < |s.sent|
    ensures SharedOk(Shrunk(s)) && PastOk(Shrunk(s))
  {
    var s', k := Shrunk(s), |s.received|;
    NextFrame(s, 0);
    AddWord(s.done, HEAD + |s.sent[k]|);
    StreamSnoc(s.n, s.received, s.sent[k]);
    forall p
      ensures UnreadOk(s', p)
    {
      assert UnreadOk(s, p);
    }
  }

  lemma {:induction false} Pow2IsPow2(k: nat)
    ensures IsPow2(Pow2(k))
  {
    if k > 0 { Pow2IsPow2(k - 1); }
  }

  lemma {:induction false} IsPow2Order(n: int) returns (k: nat)
    requires IsPow2(n)
    ensures n == Pow2(k)
  {
    if n == 1 {
      k := 0;
    } else {
      k := IsPow2Order(n / 2);
      k := k + 1;
    }
  }

  // The size of a ring is the least power of two that is large enough.
  lemma RoundedSize(n: nat)
    requires HEAD < n <= 0x8000_0000
    ensures var r := if IsPow2(n) then n else RoundUp(n) % WORD;
            && n <= r && SizeOk(r) && (exists k: nat :: r == Pow2(k)) && forall k: nat :: n <= Pow2(k) ==> r <= Pow2(k)
  {
    var r := if IsPow2(n) then n else RoundUp(n) % WORD;
    Pow2Of31();
    if !IsPow2(n) {
      RoundUpUnsigned(n);
      Pow2IsPow2(RoundUpOrder(n));
      LeastOrder(n, 31);
      Pow2Mono(RoundUpOrder(n), 31);
      forall k: nat | n <= Pow2(k)
        ensures r <= Pow2(k)
      {
        LeastOrder(n, k);
        Pow2Mono(RoundUpOrder(n), k);
      }
    }
    var order := IsPow2Order(r);
  }

  // Where the message starts, behind its length.
  ghost predicate BodyAt(n: int, pos: int)
    requires n > HEAD && pos >= 0
  {
    At(n, Add(pos, HEAD)) == At(n, pos + HEAD) ==
    if At(n, pos) + HEAD < n then At(n, pos) + HEAD else At(n, pos) + HEAD - n
  }

  lemma BodyIsAt(n: int, pos: int)
    requires SizeOk(n) && 0 <= pos < WORD
    ensures BodyAt(n, pos)
  {
    AtNext(n, pos, HEAD);
    AtWord(n, pos + HEAD);
  }

  class RBuffer {
    const size: int
    const buffer: array<Byte>
    var readPos: int
    var writePos: int
    ghost var sent: seq<Message>
    ghost var received: seq<Message>
    ghost var bytes: seq<Byte>
    ghost var done: int

    ghost function S(): State
      reads this, buffer
    {
      State(size, buffer[..], writePos, readPos, Idle, Waiting, sent, received, bytes, done)
    }

    ghost predicate Valid()
      reads this, buffer
    {
      SharedOk(S()) && PastOk(S())
    }

    // An empty ring; its size is rounded up to a power of two.
    constructor (requested: nat)
      requires HEAD < requested <= 0x8000_0000
      ensures Valid() && sent == received == [] && fresh(buffer)
      ensures requested <= size && (exists k: nat :: size == Pow2(k))
      ensures forall k: nat :: requested <= Pow2(k) ==> size <= Pow2(k)
    {
      RoundedSize(requested);
      IsPow2Test(requested);
      var n := if And(requested, requested - 1) != 0 then RoundUp(requested) % WORD else requested;
      size := n;
      buffer := new Byte[n](_ => 0);
      readPos, writePos := 0, 0;
      sent, received, bytes, done := [], [], [], 0;
    }

    method PutHead(len: int)
      requires 0 <= len < WORD && HEAD < size == buffer.Length && writePos >= 0
      modifies buffer
      ensures buffer[..] == Put(old(buffer[..]), At(size, writePos), Encode(len))
    {
      var writeToTail := size - At(size, writePos);
      var minLen := Min(HEAD, writeToTail);
      Copy(buffer, At(size, writePos), Encode(len)[..minLen]);
      if minLen < HEAD {
        Copy(buffer, 0, Encode(len)[minLen..]);
      }
    }

    method PutBody(msg: Message)
      requires 0 <= |msg| <= size - HEAD && HEAD < size == buffer.Length && writePos >= 0 && BodyAt(size, writePos)
      modifies buffer
      ensures buffer[..] == Put(old(buffer[..]), At(size, writePos + HEAD), msg)
    {
      var writeToTail := size - At(size, writePos);
      if writeToTail > HEAD {
        writeToTail := writeToTail - HEAD;
        var writeToTailBytes := Min(|msg|, writeToTail);
        Copy(buffer, At(size, Add(writePos, HEAD)), msg[..writeToTailBytes]);
        if writeToTailBytes < |msg| {
          Copy(buffer, 0, msg[writeToTailBytes..]);
        }
      } else {
        Copy(buffer, HEAD - Min(HEAD, writeToTail), msg);
      }
    }

    method PutFrame(msg: Message)
      requires SizeOk(size) && 0 < |msg| <= size - HEAD && size == buffer.Length && 0 <= writePos < WORD
      modifies this`writePos, buffer
      ensures buffer[..] == Put(old(buffer[..]), At(size, old(writePos)), Frame(msg))
      ensures writePos == Add(old(writePos), HEAD + |msg|)
    {
      AtNext(size, writePos, HEAD);
      BodyIsAt(size, writePos);
      PutTwice(buffer[..], At(size, writePos), Encode(|msg|), msg);
      PutHead(|msg|);
      PutBody(msg);
      writePos := Add(writePos, |msg| + HEAD);
    }

    // 0 if there is nothing to write, -1 if there is no room.
    method Write(msg: Message) returns (ret: int)
      requires Valid()
      modifies this, buffer
      ensures Valid() && received == old(received)
      ensures ret == -1 <==> old(|bytes| - done) + HEAD + |msg| > size && msg != []
      ensures ret == -1 || msg == [] ==> S() == old(S())
      ensures ret != -1 ==> ret == 0
      ensures ret == 0 && msg != [] ==> sent == old(sent) + [msg]
    {
      if |msg| == 0 {
        return 0;
      }
      SubWord(|bytes|, done);
      if WriteBytes(size, writePos, readPos) < |msg| {
        return -1;
      }
      GrownOk(S(), msg);
      PutFrame(msg);
      sent, bytes := sent + [msg], bytes + Frame(msg);
      return 0;
    }

    method TakeHead() returns (head: seq<Byte>)
      requires HEAD < size == buffer.Length && readPos >= 0
      ensures head == Taken(buffer[..], At(size, readPos), HEAD)
    {
      var readToTail := size - At(size, readPos);
      var least := Min(HEAD, readToTail);
      head := buffer[At(size, readPos)..At(size, readPos) + least];
      if least < HEAD {
        head := head + buffer[..HEAD - least];
      }
    }

    method TakeBody(out: array<Byte>, len: int)
      requires HEAD < size == buffer.Length && readPos >= 0 && BodyAt(size, readPos)
      requires 0 <= len <= size - HEAD && len <= out.Length && out != buffer
      modifies out
      ensures out[..len] == Taken(buffer[..], At(size, readPos + HEAD), len) && out[len..] == old(out[len..])
    {
      var readToTail := size - At(size, readPos);
      if readToTail < HEAD {
        TakenParts(buffer[..], HEAD - readToTail, len);
        TakeOut(out, 0, HEAD - readToTail, len);
      } else {
        TakeAround(out, readToTail - HEAD, At(size, Add(readPos, HEAD)), len);
      }
    }

    // A stretch of the ring, of which readToTail bytes lie before the end.
    method TakeAround(out: array<Byte>, readToTail: int, at: int, len: int)
      requires 0 <= at < buffer.Length && 0 <= len <= buffer.Length && len <= out.Length && out != buffer
      requires readToTail == (if at == 0 then 0 else buffer.Length - at) || (at == 0 && readToTail == buffer.Length)
      modifies out
      ensures out[..len] == Taken(buffer[..], at, len) && out[len..] == old(out[len..])
    {
      TakenParts(buffer[..], at, len);
      var readToTailBytes := Min(len, readToTail);
      TakeOut(out, 0, at, readToTailBytes);
      if readToTailBytes < len {
        TakeOut(out, readToTailBytes, 0, len - readToTailBytes);
      }
    }

    // A stretch of the ring that does not go around the end.
    method TakeOut(out: array<Byte>, to: int, from: int, len: int)
      requires 0 <= to && 0 <= from && 0 <= len && from + len <= buffer.Length && to + len <= out.Length
               && out != buffer
      modifies out
      ensures out[..to + len] == old(out[..to]) + buffer[from..from + len] && out[to + len..] == old(out[to + len..])
    {
      Copy(out, to, buffer[from..from + len]);
    }

    // -1 if there is nothing to read or the next message is longer than `cap`.
    method Peek(out: array<Byte>, cap: int) returns (ret: int, len: int)
      requires Valid() && 0 <= cap <= out.Length && out != buffer
      modifies out
      ensures ret == 0 <==> |received| < |sent| && |sent[|received|]| <= cap
      ensures ret == 0 ==> len == |sent[|received|]| && out[..] == sent[|received|] + old(out[len..])
      ensures ret != 0 ==> ret == -1 && len == cap && out[..] == old(out[..])
    {
      LoadsAreExact(S(), [0]);
      if ReadBytes(writePos, readPos) == 0 {
        return -1, cap;
      }
      TakenIsNext(S());
      BodyIsAt(size, readPos);
      DecodeEncode(|sent[|received|]|);
      var head := TakeHead();
      len := Decode(head);
      if len > size - HEAD || len > cap {
        return -1, cap;
      }
      TakeBody(out, len);
      assert out[..] == out[..len] + out[len..];
      ret := 0;
    }

    // The same, and the message is done with.
    method Read(out: array<Byte>, cap: int) returns (ret: int, len: int)
      requires Valid() && 0 <= cap <= out.Length && out != buffer
      modifies this`readPos, this`received, this`done, out
      ensures Valid()
      ensures ret == 0 <==> old(|received| < |sent| && |sent[|received|]| <= cap)
      ensures ret == 0 ==> && received == old(received) + [sent[|old(received)|]]
                           && len == |sent[|old(received)|]| && out[..] == sent[|old(received)|] + old(out[len..])
      ensures ret != 0 ==> ret == -1 && S() == old(S()) && out[..] == old(out[..])
    {
      ret, len := Peek(out, cap);
      if ret == 0 {
        ShrunkOk(S());
        readPos := Add(readPos, HEAD + len);
        received, done := received + [sent[|received|]], done + HEAD + len;
      }
    }
  }
}

// A byte queue in a fixed buffer, whose bytes drift back to the start now and
// then.
module Buffers {
  import opened Bytes
  import opened Powers

  class Buffer {
    const buffer: array<Byte>
    var readPos: int
    var writePos: int
    const driftThreshold: int

    ghost predicate Valid()
      reads this
    {
      0 <= readPos <= writePos <= buffer.Length < INT_LIMIT && readPos <= driftThreshold == buffer.Length / 2
    }

    // The bytes in the queue.
    ghost function Contents(): (s: seq<Byte>)
      requires Valid()
      reads this, buffer
    {
      buffer[readPos..writePos]
    }

    constructor (size: int)
      requires 0 < size < INT_LIMIT
      ensures Valid() && Contents() == [] && WriteLen() == size && fresh(buffer)
    {
      buffer := new Byte[size](_ => 0);
      readPos, writePos := 0, 0;
      driftThreshold := size / 2;
    }

    function ReadLen(): (n: int)
      reads this
    {
      if writePos > readPos then writePos - readPos else 0
    }

    function WriteLen(): (n: int)
      reads this
    {
      buffer.Length - writePos
    }

    // Drops up to len bytes; the number dropped, or -1. What remains is copied to
    // the start when more than half of the buffer lies idle before it; source and
    // destination of the copy have nothing in common.
    method ReadNocopy(len: int) returns (n: int)
      requires Valid()
      modifies this`readPos, this`writePos, buffer
      ensures Valid() && n == if len < 0 then -1 else Min(len, old(ReadLen()))
      ensures Contents() == if len < 0 then old(Contents()) else old(Contents())[n..]
      ensures WriteLen() == if len >= 0 && old(readPos) + n > driftThreshold
                            then buffer.Length - |Contents()| else old(WriteLen())
    {
      if len < 0 {
        return -1;
      }
      n := Min(len, ReadLen());
      ghost var s := Contents();
      readPos := readPos + n;
      if readPos > driftThreshold {
        var shift := buffer[readPos..writePos];
        assert shift == s[n..] && |shift| <= readPos;
        Copy(buffer, 0, shift);
        writePos := writePos - readPos;
        readPos := 0;
        assert buffer[..writePos] == shift;
      }
    }

    // What a reader of the queue's bytes sees.
    method Show() returns (s: seq<Byte>)
      requires Valid()
      ensures s == Contents()
    {
      s := buffer[readPos..writePos];
    }

    // The first bytes of the queue, up to len, also go to dest.
    method Read(dest: array<Byte>, len: int) returns (n: int)
      requires Valid() && Min(len, ReadLen()) <= dest.Length && dest != buffer
      modifies this`readPos, this`writePos, buffer, dest
      ensures Valid() && n == if len < 0 then -1 else Min(len, old(ReadLen()))
      ensures n >= 0 ==> Contents() == old(Contents())[n..] && dest[..] == old(Contents())[..n] + old(dest[n..])
      ensures n < 0 ==> Contents() == old(Contents()) && dest[..] == old(dest[..])
    {
      n := Peek(dest, len);
      if n > 0 {
        n := ReadNocopy(n);
      }
    }

    method Peek(dest: array<Byte>, len: int) returns (n: int)
      requires Valid() && Min(len, ReadLen()) <= dest.Length && dest != buffer
      modifies dest
      ensures n == if len < 0 then -1 else Min(len, ReadLen())
      ensures n >= 0 ==> dest[..] == Contents()[..n] + old(dest[n..])
      ensures n < 0 ==> dest[..] == old(dest[..])
    {
      if len < 0 {
        return -1;
      }
      n := Min(len, ReadLen());
      ghost var c := Contents();
      assert buffer[readPos..readPos + n] == c[..n];
      Copy(dest, 0, buffer[readPos..readPos + n]);
      assert dest[..n] == c[..n] && dest[n..] == old(dest[n..]);
      assert dest[..] == dest[..n] + dest[n..] && Contents() == c;
    }

    // The bytes behind the queue join it.
    method WriteNocopy(len: int) returns (n: int)
      requires Valid()
      modifies this`writePos
      ensures Valid() && n == if len < 0 then -1 else Min(len, old(WriteLen()))
      ensures Contents() == old(Contents()) + (if n > 0 then buffer[old(writePos)..old(writePos) + n] else [])
      ensures WriteLen() == old(WriteLen()) - if n > 0 then n else 0
    {
      n := Min(len, WriteLen());
      if n < 0 {
        return -1;
      }
      writePos := writePos + n;
    }

    // As much of src as there is room for.
    method Write(src: seq<Byte>) returns (n: int)
      requires Valid()
      modifies this`writePos, buffer
      ensures Valid() && n == Min(|src|, old(WriteLen()))
      ensures Contents() == old(Contents()) + src[..n] && WriteLen() == old(WriteLen()) - n
    {
      n := Min(|src|, WriteLen());
      ghost var s := Contents();
      Copy(buffer, writePos, src[..n]);
      assert buffer[readPos..writePos] == s && buffer[writePos..writePos + n] == src[..n];
      n := WriteNocopy(n);
    }

    method Reset()
      requires Valid()
      modifies this
      ensures Valid() && Contents() == [] && WriteLen() == buffer.Length
    {
      readPos, writePos := 0, 0;
    }
  }
}

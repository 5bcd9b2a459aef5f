/** The byte ring of src/ringbuf.c.  Positions count from Base; End is at Size. */
module Ringbuf {
  import opened Bytes

  datatype Status = STATUS_SUCCESS | STATUS_INTERNAL_ERROR | STATUS_BUFFER_OVERFLOW

  /** The queue of bytes a ring stands for, and what it makes of a write: data that does not
      strictly fit is cut to the space left, which brings Tail onto Head. */
  function Written(size: nat, queue: seq<byte>, data: seq<byte>): seq<byte> {
    if |queue| + |data| < size then queue + data else []
  }

  function Min(a: nat, b: nat): nat { if a < b then a else b }

  /** The bytes from position h round to position t. */
  function Ring(b: seq<byte>, h: nat, t: nat): seq<byte>
    requires h <= |b| && t <= |b|
  {
    if t >= h then b[h..t] else b[h..] + b[..t]
  }

  function Available(size: nat, h: nat, t: nat): int { if t >= h then size - (t - h) else h - t }

  /** A position that reaches End starts again at Base. */
  function Wrapped(size: nat, p: nat): nat { if p == size then 0 else p }

  /** The buffer with data copied to a position. */
  function Copied(b: seq<byte>, at: nat, data: seq<byte>): (r: seq<byte>)
    requires at + |data| <= |b|
    ensures |r| == |b|
    ensures r[at..at + |data|] == data && r[..at] == b[..at] && r[at + |data|..] == b[at + |data|..]
  {
    b[..at] + data + b[at + |data|..]
  }

  lemma CopiedFront(s: seq<byte>, x: seq<byte>)
    requires |x| <= |s|
    ensures Copied(s, 0, x) == x + s[|x|..]
  {}

  lemma CopiedTwice(s: seq<byte>, x: seq<byte>, y: seq<byte>)
    requires |x| + |y| <= |s|
    ensures Copied(Copied(s, 0, x), |x|, y) == x + y + s[|x| + |y|..]
  {}

  lemma RingSize(b: seq<byte>, h: nat, t: nat)
    requires h <= |b| && t <= |b|
    ensures |Ring(b, h, t)| == |b| - Available(|b|, h, t)
  {}

  lemma WriteAfter(b: seq<byte>, h: nat, t: nat, data: seq<byte>)
    requires h <= t < |b| && t + |data| <= |b|
    ensures Copied(b, t, data)[h..t + |data|] == b[h..t] + data
  {
    hide Copied;
    var r := Copied(b, t, data);
    assert r[h..t] == r[..t][h..] == b[..t][h..] == b[h..t];
    assert r[h..t + |data|] == r[h..t] + r[t..t + |data|];
  }

  lemma WriteBefore(b: seq<byte>, h: nat, t: nat, data: seq<byte>)
    requires t + |data| <= h <= |b|
    ensures Copied(b, t, data)[h..] == b[h..]
    ensures Copied(b, t, data)[..t + |data|] == b[..t] + data
  {
    hide Copied;
    var r := Copied(b, t, data);
    assert r[h..] == r[t + |data|..][h - t - |data|..] == b[t + |data|..][h - t - |data|..] == b[h..];
    assert r[..t + |data|] == r[..t] + r[t..t + |data|];
  }

  lemma WriteOn(b: seq<byte>, h: nat, t: nat, data: seq<byte>)
    requires h < |b| && t < |b| && |data| < Available(|b|, h, t) && t + |data| <= |b|
    ensures Ring(Copied(b, t, data), h, Wrapped(|b|, t + |data|)) == Ring(b, h, t) + data
  {
    hide Copied;
    var r := Copied(b, t, data);
    if t >= h {
      WriteAfter(b, h, t, data);
      assert t + |data| == |b| ==> r[h..] + r[..0] == r[h..t + |data|];
    } else {
      WriteBefore(b, h, t, data);
      assert b[h..] + (b[..t] + data) == b[h..] + b[..t] + data;
    }
  }

  lemma RoundParts(b: seq<byte>, h: nat, t: nat, d: seq<byte>, e: seq<byte>)
    requires h <= t < |b| && t + |d| == |b| && |e| <= h
    ensures var r := Copied(Copied(b, t, d), 0, e);
            r[h..] == b[h..t] + d && r[..|e|] == e
  {
    hide Copied;
    var m := Copied(b, t, d);
    WriteAfter(b, h, t, d);
    WriteBefore(m, h, 0, e);
    assert m[h..|b|] == m[h..] && m[..0] + e == e;
  }

  lemma WriteRound(b: seq<byte>, h: nat, t: nat, data: seq<byte>)
    requires h < |b| && t < |b| && |data| < Available(|b|, h, t) && t + |data| > |b|
    ensures var n := |b| - t;
            Ring(Copied(Copied(b, t, data[..n]), 0, data[n..]), h, |data| - n) == Ring(b, h, t) + data
  {
    hide Copied;
    var n := |b| - t;
    RoundParts(b, h, t, data[..n], data[n..]);
    Rejoin(b[h..t], data, n);
  }

  lemma Rejoin(x: seq<byte>, data: seq<byte>, n: nat)
    requires n <= |data|
    ensures x + data[..n] + data[n..] == x + data
  {
    assert data[..n] + data[n..] == data;
  }

  lemma ReadOn(b: seq<byte>, h: nat, t: nat, n: nat)
    requires h < |b| && t < |b| && n <= |Ring(b, h, t)| && h + n <= |b|
    ensures Ring(b, h, t)[..n] == b[h..h + n]
    ensures Ring(b, Wrapped(|b|, h + n), t) == Ring(b, h, t)[n..]
  {
    if t < h {
      assert b[h..h + n] + b[h + n..] == b[h..];
      TakeConcat(b[h..], b[..t], n);
      assert h + n == |b| ==> b[h + n..] + b[..t] == b[0..t];
    }
  }

  lemma TakeConcat(x: seq<byte>, y: seq<byte>, n: nat)
    requires n <= |x|
    ensures (x + y)[..n] == x[..n] && (x + y)[n..] == x[n..] + y
  {}

  lemma ReadRound(b: seq<byte>, h: nat, t: nat, n: nat)
    requires h < |b| && t < |b| && n <= |Ring(b, h, t)| && h + n > |b|
    ensures Ring(b, h, t)[..n] == b[h..] + b[..n - (|b| - h)]
    ensures Ring(b, n - (|b| - h), t) == Ring(b, h, t)[n..]
  {}

  class RingBuffer {
    const size: nat
    const base: array<byte>
    var head: nat
    var tail: nat

    /** A ring without space never gets past its error checks. */
    ghost predicate Valid()
      reads this
    {
      base.Length == size && (size > 0 ==> head < size && tail < size) && (size == 0 ==> head == tail == 0)
    }

    /** The bytes from Head round to Tail. */
    ghost function Contents(): seq<byte>
      reads this, base
      requires Valid()
    {
      Ring(base[..], head, tail)
    }

    constructor (buffer: array<byte>, bufferSize: nat)
      requires buffer.Length == bufferSize
      ensures Valid() && base == buffer && size == bufferSize && Contents() == []
    {
      size := bufferSize;
      base := buffer;
      head, tail := 0, 0;
    }

    /** Tail is never allowed to catch up with Head by a write that fits, so equal positions
        mean an empty ring. */
    method RtlRingBufferGetAvailBytes() returns (writeSize: nat, readSize: nat)
      requires Valid()
      ensures readSize == |Contents()| && writeSize == size - readSize == Available(size, head, tail)
      ensures size > 0 ==> 1 <= writeSize <= size
    {
      writeSize := if tail >= head then size - (tail - head) else head - tail;
      readSize := size - writeSize;
    }

    /** RtlCopyMemory into the buffer. */
    method CopyIn(at: nat, data: seq<byte>)
      requires at + |data| <= base.Length
      modifies base
      ensures base[..] == Copied(old(base[..]), at, data)
    {
      forall i | 0 <= i < |data| { base[at + i] := data[i]; }
    }

    /** RtlCopyMemory from the buffer to the caller. */
    method CopyOut(data: array<byte>, to: nat, at: nat, n: nat)
      requires data != base && to + n <= data.Length && at + n <= base.Length
      modifies data
      ensures data[..] == Copied(old(data[..]), to, base[at..at + n])
    {
      forall i | 0 <= i < n { data[to + i] := base[at + i]; }
    }

    /** The two ways to store n bytes that fit into the space left. */
    method PutRound(data: seq<byte>, bytesToCopy: nat)
      requires Valid() && bytesToCopy <= |data| && bytesToCopy <= Available(size, head, tail) && tail + bytesToCopy > size
      modifies this`tail, base
      ensures Valid()
      ensures Contents() == if bytesToCopy < Available(size, head, old(tail)) then old(Contents()) + data[..bytesToCopy] else []
    {
      hide Ring, Copied;
      ghost var b, t := base[..], tail;
      var spaceToEnd := size - tail;
      var rest := bytesToCopy - spaceToEnd;
      CopyIn(tail, data[..spaceToEnd]);
      CopyIn(0, data[spaceToEnd..bytesToCopy]);
      tail := rest;
      RingSize(base[..], head, tail);
      if bytesToCopy < Available(size, head, t) {
        assert data[..bytesToCopy][..spaceToEnd] == data[..spaceToEnd];
        assert data[..bytesToCopy][spaceToEnd..] == data[spaceToEnd..bytesToCopy];
        WriteRound(b, head, t, data[..bytesToCopy]);
      }
    }

    method PutOn(data: seq<byte>, bytesToCopy: nat)
      requires Valid() && bytesToCopy <= |data| && 0 < bytesToCopy <= Available(size, head, tail) && tail + bytesToCopy <= size
      modifies this`tail, base
      ensures Valid()
      ensures Contents() == if bytesToCopy < Available(size, head, old(tail)) then old(Contents()) + data[..bytesToCopy] else []
    {
      hide Ring, Copied;
      ghost var b, t := base[..], tail;
      CopyIn(tail, data[..bytesToCopy]);
      tail := tail + bytesToCopy;
      if tail == size { tail := 0; }
      RingSize(base[..], head, tail);
      if bytesToCopy < Available(size, head, t) { WriteOn(b, head, t, data[..bytesToCopy]); }
    }

    method RtlRingBufferWrite(data: seq<byte>) returns (status: Status)
      requires Valid()
      modifies this`tail, base
      ensures Valid()
      ensures if size == 0 then status == STATUS_INTERNAL_ERROR && Contents() == old(Contents())
              else status == STATUS_SUCCESS && Contents() == Written(size, old(Contents()), data)
    {
      hide Ring;
      if tail >= size { return STATUS_INTERNAL_ERROR; }
      var availToWrite, availToRead := RtlRingBufferGetAvailBytes();
      var bytesToCopy := if availToWrite <= |data| then availToWrite else |data|;
      if bytesToCopy > 0 {
        if tail + bytesToCopy > size { PutRound(data, bytesToCopy); } else { PutOn(data, bytesToCopy); }
      }
      assert data[..|data|] == data;
      status := STATUS_SUCCESS;
    }

    /** The two ways to fetch n bytes that are there. */
    method TakeRound(data: array<byte>, n: nat)
      requires Valid() && data != base && n <= |Contents()| && n <= data.Length && head + n > size
      modifies this`head, data
      ensures Valid() && Contents() == old(Contents())[n..]
      ensures data[..] == old(Contents())[..n] + old(data[..])[n..]
    {
      hide Ring, Copied;
      ghost var b, h, was := base[..], head, data[..];
      RingSize(b, h, tail);
      var dataToEnd := size - head;
      var rest := n - dataToEnd;
      CopyOut(data, 0, head, dataToEnd);
      CopyOut(data, dataToEnd, 0, rest);
      head := rest;
      ReadRound(b, h, tail, n);
      CopiedTwice(was, b[h..], b[..rest]);
      assert b[h..h + dataToEnd] == b[h..];
    }

    method TakeOn(data: array<byte>, n: nat)
      requires Valid() && data != base && n <= |Contents()| && n <= data.Length && head + n <= size && 0 < size
      modifies this`head, data
      ensures Valid() && Contents() == old(Contents())[n..]
      ensures data[..] == old(Contents())[..n] + old(data[..])[n..]
    {
      hide Ring, Copied;
      ghost var b, h, was := base[..], head, data[..];
      CopyOut(data, 0, head, n);
      head := head + n;
      if head == size { head := 0; }
      ReadOn(b, h, tail, n);
      CopiedFront(was, b[h..h + n]);
    }

    /** Fills `data` with what is there, and says how much that was. */
    method RtlRingBufferRead(data: array<byte>) returns (status: Status, bytesCopied: nat)
      requires Valid() && data != base
      modifies this`head, data
      ensures Valid()
      ensures if size == 0 then status == STATUS_INTERNAL_ERROR && bytesCopied == 0
              else status == STATUS_SUCCESS && bytesCopied == Min(data.Length, old(|Contents()|))
      ensures bytesCopied <= old(|Contents()|) && bytesCopied <= data.Length
      ensures Contents() == old(Contents())[bytesCopied..]
      ensures data[..] == old(Contents())[..bytesCopied] + old(data[..])[bytesCopied..]
    {
      hide Ring;
      bytesCopied := 0;
      if head >= size { return STATUS_INTERNAL_ERROR, 0; }
      status := STATUS_SUCCESS;
      var availToWrite, availToRead := RtlRingBufferGetAvailBytes();
      if availToRead == 0 { return; }
      var dataSize := if data.Length > availToRead then availToRead else data.Length;
      bytesCopied := dataSize;
      if head + dataSize > size { TakeRound(data, dataSize); } else { TakeOn(data, dataSize); }
    }
  }
}

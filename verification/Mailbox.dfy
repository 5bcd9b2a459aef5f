/** The mailbox of src/mailbox.c: records of one size posted into a byte ring from any context
    and retrieved by a worker. */
module Mailbox {
  import opened Bytes
  import opened Ringbuf

  const MAILBOX_BUFFER_SIZE := 1024
  const HEADER_SIZE := 32
  const RECORD_SIZE := HEADER_SIZE + MAILBOX_BUFFER_SIZE

  /** Where the fields of a record are: Size, Type, and the words of the union. */
  const SIZE_AT := 8
  const TYPE_AT := 16
  const UNION_AT := 20

  const MAILBOX_EMPTY := 0
  const MAILBOX_TRACE := 1
  const MAILBOX_NOTIFICATION := 2

  predicate IsRecord(r: seq<byte>) { |r| == RECORD_SIZE }

  function TypeOf(r: seq<byte>): nat
    requires IsRecord(r)
  {
    Read32(r, TYPE_AT)
  }

  function WithType(r: seq<byte>, t: nat): (n: seq<byte>)
    requires IsRecord(r) && t < U32
    ensures IsRecord(n) && TypeOf(n) == t
  {
    Write32(r, TYPE_AT, t)
  }

  function WithSize(r: seq<byte>, size: nat): (n: seq<byte>)
    requires IsRecord(r) && size < U32
    ensures IsRecord(n)
  {
    Write32(Write32(r, SIZE_AT, size), SIZE_AT + 4, 0)
  }

  function WithData(r: seq<byte>, data: seq<byte>): (n: seq<byte>)
    requires IsRecord(r) && |data| <= MAILBOX_BUFFER_SIZE
    ensures IsRecord(n)
  {
    Copied(r, HEADER_SIZE, data)
  }

  /** What is put into the ring; fields nobody assigns keep what the stack held. */
  function NotificationRecord(stack: seq<byte>, data: seq<byte>): (r: seq<byte>)
    requires IsRecord(stack) && |data| <= MAILBOX_BUFFER_SIZE
    ensures IsRecord(r)
  {
    WithData(Write32(WithSize(WithType(stack, MAILBOX_NOTIFICATION), |data|), UNION_AT, 0), data)
  }

  function TraceRecord(stack: seq<byte>, level: nat, area: nat, text: seq<byte>): (r: seq<byte>)
    requires IsRecord(stack) && |text| < MAILBOX_BUFFER_SIZE && level < U32 && area < U32
    ensures IsRecord(r)
  {
    var entry := WithSize(WithType(WithData(stack, text + [0]), MAILBOX_TRACE), TextLength(text));
    Write32(Write32(entry, UNION_AT + 4, level), UNION_AT, area)
  }

  /** Length of the text up to a terminating zero. */
  function TextLength(text: seq<byte>): (n: nat)
    ensures n <= |text| && (forall i :: 0 <= i < n ==> text[i] != 0) && (n < |text| ==> text[n] == 0)
  {
    if text == [] || text[0] == 0 then 0 else 1 + TextLength(text[1..])
  }

  /** A reader finds what the poster put in. */
  lemma RecordReads(stack: seq<byte>, data: seq<byte>)
    requires IsRecord(stack) && |data| <= MAILBOX_BUFFER_SIZE
    ensures var r := NotificationRecord(stack, data);
            && |r| == 1056 && Read32(r, 16) == 2
            && Read32(r, 8) == |data| && Read32(r, 12) == 0 && Read32(r, 20) == 0
            && r[32..32 + |data|] == data
  {
    var t := WithType(stack, MAILBOX_NOTIFICATION);
    var s := WithSize(t, |data|);
    var u := Write32(s, UNION_AT, 0);
    var r := WithData(u, data);
    assert forall k :: 0 <= k < HEADER_SIZE ==> r[k] == r[..HEADER_SIZE][k] == u[..HEADER_SIZE][k] == u[k];
  }

  lemma TraceReads(stack: seq<byte>, level: nat, area: nat, text: seq<byte>)
    requires IsRecord(stack) && |text| < MAILBOX_BUFFER_SIZE && level < U32 && area < U32
    ensures var r := TraceRecord(stack, level, area, text);
            && |r| == 1056 && Read32(r, 16) == 1
            && Read32(r, 8) == TextLength(text)
            && Read32(r, 20) == area && Read32(r, 24) == level
            && r[32..32 + |text|] == text
  {
    hide TraceRecord, Read32, TextLength;
    TraceFields(stack, level, area, text);
    TraceText(stack, level, area, text);
  }

  lemma TraceFields(stack: seq<byte>, level: nat, area: nat, text: seq<byte>)
    requires IsRecord(stack) && |text| < MAILBOX_BUFFER_SIZE && level < U32 && area < U32
    ensures var r := TraceRecord(stack, level, area, text);
            && TypeOf(r) == MAILBOX_TRACE
            && Read32(r, SIZE_AT) == TextLength(text)
            && Read32(r, UNION_AT) == area && Read32(r, UNION_AT + 4) == level
  {
    hide Write32, Read32, WithData, TextLength;
    var n := TextLength(text);
    var d := WithData(stack, text + [0]);
    var e1 := Write32(d, TYPE_AT, MAILBOX_TRACE);
    var e2 := Write32(e1, SIZE_AT, n);
    var e3 := Write32(e2, SIZE_AT + 4, 0);
    var e4 := Write32(e3, UNION_AT + 4, level);
    var r := Write32(e4, UNION_AT, area);
    assert r == TraceRecord(stack, level, area, text);
    hide TraceRecord;
    assert Read32(r, TYPE_AT) == MAILBOX_TRACE by { Read32Frame(e1, r, TYPE_AT); }
    assert Read32(r, SIZE_AT) == n by { Read32Frame(e2, r, SIZE_AT); }
    assert Read32(r, UNION_AT + 4) == level by { Read32Frame(e4, r, UNION_AT + 4); }
  }

  lemma TraceText(stack: seq<byte>, level: nat, area: nat, text: seq<byte>)
    requires IsRecord(stack) && |text| < MAILBOX_BUFFER_SIZE && level < U32 && area < U32
    ensures TraceRecord(stack, level, area, text)[HEADER_SIZE..HEADER_SIZE + |text|] == text
  {
    hide Write32, Read32, Copied, TextLength;
    var n := TextLength(text);
    var d := WithData(stack, text + [0]);
    var e1 := WithType(d, MAILBOX_TRACE);
    var e2 := Write32(e1, SIZE_AT, n);
    var e3 := Write32(e2, SIZE_AT + 4, 0);
    var e4 := Write32(e3, UNION_AT + 4, level);
    var r := Write32(e4, UNION_AT, area);
    BodyKept(d, r, text);
  }

  lemma BodyKept(d: seq<byte>, r: seq<byte>, text: seq<byte>)
    requires IsRecord(d) && IsRecord(r) && |text| < MAILBOX_BUFFER_SIZE
    requires d[HEADER_SIZE..HEADER_SIZE + |text| + 1] == text + [0]
    requires forall k :: HEADER_SIZE <= k < RECORD_SIZE ==> r[k] == d[k]
    ensures r[HEADER_SIZE..HEADER_SIZE + |text|] == text
  {
    assert r[HEADER_SIZE..HEADER_SIZE + |text|] == d[HEADER_SIZE..HEADER_SIZE + |text| + 1][..|text|];
  }

  /** What a retrieve leaves in the caller's record: the bytes read over one marked empty. */
  function Retrieved(queue: seq<byte>, entry: seq<byte>): (r: seq<byte>)
    requires IsRecord(entry)
    ensures IsRecord(r)
  {
    var n := Min(RECORD_SIZE, |queue|);
    queue[..n] + WithType(entry, MAILBOX_EMPTY)[n..]
  }

  class MailboxState {
    const ringBuffer: RingBuffer

    constructor (pool: array<byte>)
      ensures ringBuffer.Valid() && ringBuffer.base == pool && ringBuffer.Contents() == []
      ensures fresh(ringBuffer)
    {
      ringBuffer := new RingBuffer(pool, pool.Length);
    }

    /** A record is there when a header and a body are. */
    method RtlIsMailboxEmpty() returns (empty: bool)
      requires ringBuffer.Valid()
      ensures empty <==> |ringBuffer.Contents()| < 1056
    {
      var availToWrite, availToRead := ringBuffer.RtlRingBufferGetAvailBytes();
      empty := availToRead < RECORD_SIZE;
    }

    method RtlPostMailboxNotification(stack: seq<byte>, notification: seq<byte>) returns (status: Status)
      requires ringBuffer.Valid() && IsRecord(stack)
      modifies ringBuffer, ringBuffer.base
      ensures ringBuffer.Valid()
      ensures if |notification| > 1024 then
                status == STATUS_BUFFER_OVERFLOW && ringBuffer.Contents() == old(ringBuffer.Contents())
              else if ringBuffer.size == 0 then status == STATUS_INTERNAL_ERROR
              else status == STATUS_SUCCESS
      ensures |notification| <= 1024 && ringBuffer.size > 0 ==>
                ringBuffer.Contents() == Written(ringBuffer.size, old(ringBuffer.Contents()), NotificationRecord(stack, notification))
    {
      hide Written, Ring, Write32, Copied;
      if |notification| > MAILBOX_BUFFER_SIZE { return STATUS_BUFFER_OVERFLOW; }
      var entry := WithType(stack, MAILBOX_NOTIFICATION);
      entry := WithSize(entry, |notification|);
      entry := Write32(entry, UNION_AT, 0);
      entry := WithData(entry, notification);
      status := ringBuffer.RtlRingBufferWrite(entry);
    }

    /** `text` is what the format string and its arguments come to; one that does not fit with
        its terminating zero is not posted. */
    method RtlPostMailboxTrace(stack: seq<byte>, level: nat, area: nat, text: seq<byte>) returns (status: Status)
      requires ringBuffer.Valid() && IsRecord(stack) && level < U32 && area < U32
      modifies ringBuffer, ringBuffer.base
      ensures ringBuffer.Valid()
      ensures if |text| >= 1024 then
                status == STATUS_BUFFER_OVERFLOW && ringBuffer.Contents() == old(ringBuffer.Contents())
              else if ringBuffer.size == 0 then status == STATUS_INTERNAL_ERROR
              else status == STATUS_SUCCESS
      ensures |text| < 1024 && ringBuffer.size > 0 ==>
                ringBuffer.Contents() == Written(ringBuffer.size, old(ringBuffer.Contents()), TraceRecord(stack, level, area, text))
    {
      hide Written, Ring, Write32, Copied, TextLength;
      if |text| >= MAILBOX_BUFFER_SIZE { return STATUS_BUFFER_OVERFLOW; }
      var entry := WithData(stack, text + [0]);
      entry := WithType(entry, MAILBOX_TRACE);
      entry := WithSize(entry, TextLength(text));
      entry := Write32(entry, UNION_AT + 4, level);
      entry := Write32(entry, UNION_AT, area);
      status := ringBuffer.RtlRingBufferWrite(entry);
    }

    method RtlRetrieveMailboxData(entry: array<byte>) returns (status: Status)
      requires ringBuffer.Valid() && entry.Length == RECORD_SIZE && entry != ringBuffer.base
      modifies ringBuffer, entry
      ensures ringBuffer.Valid()
      ensures status == if ringBuffer.size == 0 then STATUS_INTERNAL_ERROR else STATUS_SUCCESS
      ensures entry[..] == Retrieved(old(ringBuffer.Contents()), old(entry[..]))
      ensures ringBuffer.Contents() == old(ringBuffer.Contents())[Min(RECORD_SIZE, old(|ringBuffer.Contents()|))..]
    {
      assert ringBuffer.size == 0 ==> ringBuffer.Contents() == [];
      hide Ring;
      SetType(entry, MAILBOX_EMPTY);
      ghost var marked := entry[..];
      var bytesRead;
      status, bytesRead := ringBuffer.RtlRingBufferRead(entry);
    }

    method SetType(entry: array<byte>, t: nat)
      requires entry.Length == RECORD_SIZE && t < U32
      modifies entry
      ensures entry[..] == WithType(old(entry[..]), t)
    {
      for k := 0 to 4
        invariant forall i :: 0 <= i < RECORD_SIZE ==>
                    entry[i] == if TYPE_AT <= i < TYPE_AT + k then Part(t, i - TYPE_AT) else old(entry[i])
      {
        entry[TYPE_AT + k] := Part(t, k);
      }
      assert entry[..] == WithType(old(entry[..]), t);
    }
  }
}

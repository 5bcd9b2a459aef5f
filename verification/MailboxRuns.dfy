/** What every interleaving of posts and retrieves delivers.  The ring's spin lock makes each
    write and read one step, so a run is a sequence of them. */
module MailboxRuns {
  import opened Bytes
  import opened Ringbuf
  import opened Mailbox

  type Record = r: seq<byte> | |r| == RECORD_SIZE witness seq(RECORD_SIZE, _ => 0)

  datatype Op = Post(record: Record) | Retrieve(entry: Record)

  // ------------------------------------------------------------------- as the code does it

  /** The bytes in the ring, and what each retrieve left in its caller's record. */
  datatype Wire = Wire(queue: seq<byte>, replies: seq<Record>)

  function WireStep(size: nat, w: Wire, op: Op): Wire {
    match op
    case Post(record) => w.(queue := Written(size, w.queue, record))
    case Retrieve(entry) =>
      Wire(w.queue[Min(RECORD_SIZE, |w.queue|)..], w.replies + [Retrieved(w.queue, entry)])
  }

  function WireRun(size: nat, ops: seq<Op>): Wire {
    if ops == [] then Wire([], []) else WireStep(size, WireRun(size, ops[..|ops| - 1]), ops[|ops| - 1])
  }

  // ------------------------------------------------------------------- a queue of records

  /** Records are known by their number in the order of posting. */
  datatype Box = Box(posted: seq<Record>, backlog: seq<nat>, delivered: seq<nat>, replies: seq<Record>)

  /** Strictly less than Size bytes must be in use after a post. */
  predicate Fits(size: nat, records: nat) { (records + 1) * RECORD_SIZE < size }

  function BoxStep(size: nat, b: Box, op: Op): Box
    requires Known(b)
  {
    match op
    case Post(record) =>
      b.(posted := b.posted + [record], backlog := if Fits(size, |b.backlog|) then b.backlog + [|b.posted|] else [])
    case Retrieve(entry) =>
      BacklogKnown(b);
      if b.backlog == [] then b.(replies := b.replies + [WithType(entry, MAILBOX_EMPTY)])
      else b.(backlog := b.backlog[1..], delivered := b.delivered + [b.backlog[0]],
              replies := b.replies + [b.posted[b.backlog[0]]])
  }

  /** The records still to come were posted after those delivered, each was posted, and each
      comes once. */
  predicate Known(b: Box) {
    var all := b.delivered + b.backlog;
    (forall i :: 0 <= i < |all| ==> all[i] < |b.posted|) && (forall i, j :: 0 <= i < j < |all| ==> all[i] < all[j])
  }

  lemma StepKnown(size: nat, b: Box, op: Op)
    requires Known(b)
    ensures Known(BoxStep(size, b, op))
  {
    var n := BoxStep(size, b, op);
    var all, now := b.delivered + b.backlog, n.delivered + n.backlog;
    match op
    case Post(record) =>
      if Fits(size, |b.backlog|) {
        assert now == all + [|b.posted|];
      } else {
        assert now == all[..|b.delivered|];
      }
    case Retrieve(entry) =>
      assert now == all;
  }

  function BoxRun(size: nat, ops: seq<Op>): (b: Box)
    ensures Known(b)
  {
    if ops == [] then Box([], [], [], []) else
      var before := BoxRun(size, ops[..|ops| - 1]);
      StepKnown(size, before, ops[|ops| - 1]);
      BoxStep(size, before, ops[|ops| - 1])
  }

  // ------------------------------------------------------------------- they agree

  function Flatten(posted: seq<Record>, ids: seq<nat>): (r: seq<byte>)
    requires forall i :: 0 <= i < |ids| ==> ids[i] < |posted|
    ensures |r| == |ids| * RECORD_SIZE
  {
    if ids == [] then [] else posted[ids[0]] + Flatten(posted, ids[1..])
  }

  lemma {:induction false} FlattenPost(posted: seq<Record>, ids: seq<nat>, record: Record)
    requires forall i :: 0 <= i < |ids| ==> ids[i] < |posted|
    ensures Flatten(posted + [record], ids + [|posted|]) == Flatten(posted, ids) + record
  {
    if ids == [] {
      assert Flatten(posted + [record], [|posted|]) == record + Flatten(posted + [record], []);
    } else {
      assert (ids + [|posted|])[1..] == ids[1..] + [|posted|];
      FlattenPost(posted, ids[1..], record);
    }
  }

  predicate Agree(w: Wire, b: Box)
    requires Known(b)
  {
    BacklogKnown(b);
    w.queue == Flatten(b.posted, b.backlog) && w.replies == b.replies
  }

  lemma BacklogKnown(b: Box)
    requires Known(b)
    ensures forall i :: 0 <= i < |b.backlog| ==> b.backlog[i] < |b.posted|
  {
    var all := b.delivered + b.backlog;
    forall i | 0 <= i < |b.backlog| ensures b.backlog[i] < |b.posted| {
      assert all[|b.delivered| + i] == b.backlog[i];
    }
  }

  lemma PostAgrees(size: nat, w: Wire, b: Box, record: Record)
    requires Known(b) && Agree(w, b)
    ensures var op := Post(record);
            Known(BoxStep(size, b, op)) && Agree(WireStep(size, w, op), BoxStep(size, b, op))
  {
    hide Known;
    StepKnown(size, b, Post(record));
    BacklogKnown(b);
    FlattenPost(b.posted, b.backlog, record);
  }

  lemma RetrieveAgrees(size: nat, w: Wire, b: Box, entry: Record)
    requires Known(b) && Agree(w, b)
    ensures var op := Retrieve(entry);
            Known(BoxStep(size, b, op)) && Agree(WireStep(size, w, op), BoxStep(size, b, op))
  {
    hide Known, WithType;
    StepKnown(size, b, Retrieve(entry));
    BacklogKnown(b);
    if b.backlog == [] {
      assert Retrieved(w.queue, entry) == WithType(entry, MAILBOX_EMPTY);
    } else {
      var first := b.posted[b.backlog[0]];
      assert w.queue == first + Flatten(b.posted, b.backlog[1..]);
      FirstOff(first, Flatten(b.posted, b.backlog[1..]));
      assert Retrieved(w.queue, entry) == first;
    }
  }

  lemma FirstOff(a: seq<byte>, b: seq<byte>)
    ensures (a + b)[..|a|] == a && (a + b)[|a|..] == b
  {}

  lemma StepAgrees(size: nat, w: Wire, b: Box, op: Op)
    requires Known(b) && Agree(w, b)
    ensures Known(BoxStep(size, b, op)) && Agree(WireStep(size, w, op), BoxStep(size, b, op))
  {
    hide *;
    match op
    case Post(record) => PostAgrees(size, w, b, record);
    case Retrieve(entry) => RetrieveAgrees(size, w, b, entry);
  }

  /** Framing: in every run, the ring holds whole records, oldest first, and every retrieve
      yields the next whole record or one marked empty; whether a post overflowed or not. */
  lemma {:induction false} Framing(size: nat, ops: seq<Op>)
    ensures Agree(WireRun(size, ops), BoxRun(size, ops))
    ensures |WireRun(size, ops).queue| % RECORD_SIZE == 0
  {
    hide Known, WireStep, BoxStep;
    if ops != [] {
      Framing(size, ops[..|ops| - 1]);
      StepAgrees(size, WireRun(size, ops[..|ops| - 1]), BoxRun(size, ops[..|ops| - 1]), ops[|ops| - 1]);
    }
    BacklogKnown(BoxRun(size, ops));
  }

  // ------------------------------------------------------------------- what is delivered

  /** Nothing is delivered twice, out of order, or that was not posted. */
  lemma DeliveredInOrder(size: nat, ops: seq<Op>, i: nat, j: nat)
    requires i < j < |BoxRun(size, ops).delivered|
    ensures var b := BoxRun(size, ops); b.delivered[i] < b.delivered[j] < |b.posted|
  {
    hide BoxRun;
    var b := BoxRun(size, ops);
    var all := b.delivered + b.backlog;
    assert all[i] == b.delivered[i] && all[j] == b.delivered[j];
  }

  /** Every post of the run found room. */
  predicate NeverFull(size: nat, ops: seq<Op>) {
    ops == [] || (var before := ops[..|ops| - 1];
      NeverFull(size, before) && (ops[|ops| - 1].Post? ==> Fits(size, |BoxRun(size, before).backlog|)))
  }

  function Numbers(n: nat): (r: seq<nat>)
    ensures |r| == n && forall i :: 0 <= i < n ==> r[i] == i
  {
    seq(n, i => i)
  }

  /** Nothing is lost if and only if no post found the ring too full: then what is delivered
      and what waits are all the posts, in order. */
  lemma {:induction false} NoLossExactly(size: nat, ops: seq<Op>)
    ensures var b := BoxRun(size, ops);
            NeverFull(size, ops) <==> b.delivered + b.backlog == Numbers(|b.posted|)
  {
    if ops != [] {
      var before := ops[..|ops| - 1];
      NoLossExactly(size, before);
      var b := BoxRun(size, before);
      var n := BoxRun(size, ops);
      match ops[|ops| - 1]
      case Post(record) =>
        if Fits(size, |b.backlog|) {
          assert n.delivered + n.backlog == (b.delivered + b.backlog) + [|b.posted|];
          Longer(b.delivered + b.backlog, |b.posted|);
        } else {
          KnownCount(n.delivered, |n.posted|, b);
        }
      case Retrieve(entry) =>
        assert n.delivered + n.backlog == b.delivered + b.backlog;
    }
  }

  lemma Longer(all: seq<nat>, n: nat)
    ensures all + [n] == Numbers(n + 1) <==> all == Numbers(n)
  {
    if all + [n] == Numbers(n + 1) {
      assert all == (all + [n])[..|all|];
    }
    if all == Numbers(n) { assert all + [n] == Numbers(n + 1); }
  }

  lemma KnownCount(delivered: seq<nat>, n: nat, b: Box)
    requires Known(b) && delivered == b.delivered && n == |b.posted| + 1
    ensures delivered + [] != Numbers(n)
  {
    if |delivered| == n {
      assert (b.delivered + b.backlog)[n - 1] < |b.posted|;
      assert (delivered + [])[n - 1] < n - 1 == Numbers(n)[n - 1];
    }
  }

  /** An overflowing post loses the backlog and itself, and leaves the mailbox empty. */
  lemma OverflowEmpties(size: nat, ops: seq<Op>, record: Record)
    requires !Fits(size, |BoxRun(size, ops).backlog|)
    ensures WireStep(size, WireRun(size, ops), Post(record)).queue == []
  {
    hide WireRun, BoxRun, Known;
    Framing(size, ops);
    BacklogKnown(BoxRun(size, ops));
  }

  /** A poster's records are traces (type 1) or notifications (type 2). */
  ghost predicate Typed(ops: seq<Op>) {
    forall i :: 0 <= i < |ops| && ops[i].Post? ==> TypeOf(ops[i].record) == 1 || TypeOf(ops[i].record) == 2
  }

  lemma PostersType(stack: seq<byte>, data: seq<byte>, level: nat, area: nat, text: seq<byte>)
    requires IsRecord(stack) && |data| <= 1024 && |text| < 1024 && level < U32 && area < U32
    ensures TypeOf(NotificationRecord(stack, data)) == 2 && TypeOf(TraceRecord(stack, level, area, text)) == 1
  {
    hide Write32, Read32, Copied, NotificationRecord, TraceRecord;
    RecordReads(stack, data);
    TraceReads(stack, level, area, text);
  }

  lemma {:induction false} PostedTypes(size: nat, ops: seq<Op>)
    requires Typed(ops)
    ensures forall r :: r in BoxRun(size, ops).posted ==> TypeOf(r) == 1 || TypeOf(r) == 2
  {
    hide Read32;
    if ops != [] { PostedTypes(size, ops[..|ops| - 1]); }
  }

  /** In every run, the type read tells what was retrieved: 0 exactly if less than a record was
      queued, else that of the record posted first of those waiting. */
  lemma RetrievedType(size: nat, ops: seq<Op>, entry: Record)
    requires Typed(ops)
    ensures var queue, b := WireRun(size, ops).queue, BoxRun(size, ops);
      && (TypeOf(Retrieved(queue, entry)) == 0 <==> |queue| < 1056)
      && (|queue| < 1056 <==> b.backlog == [])
      && (b.backlog != [] ==>
            b.backlog[0] < |b.posted| && TypeOf(Retrieved(queue, entry)) == TypeOf(b.posted[b.backlog[0]]))
  {
    PostedTypes(size, ops);
    Framing(size, ops);
    var queue, b := WireRun(size, ops).queue, BoxRun(size, ops);
    BacklogKnown(b);
    if b.backlog == [] {
      assert Retrieved(queue, entry) == WithType(entry, MAILBOX_EMPTY);
    } else {
      var first := b.posted[b.backlog[0]];
      FirstOff(first, Flatten(b.posted, b.backlog[1..]));
      assert Retrieved(queue, entry) == first;
      assert first in b.posted;
    }
    hide WireRun, BoxRun, Known, Read32, WithType;
  }
}

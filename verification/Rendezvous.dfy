/** The all-processor call of src/smp.c as a system of interleaved steps: one routine per
    processor, and the caller, which waits by a compare-exchange that resets the counter. */
module Rendezvous {
  import opened Sets

  const STATUS_SUCCESS := 0

  /** How far a processor's routine is: not queued; queued; back from the callback; error
      stored; counter incremented, which is its last access to the shared structure. */
  datatype Dpc = Idle | Queued | Called | Stored | Done

  /** What the caller does next: queue the routine of processor i, run its own, try the
      counter, read the error, nothing more. */
  datatype Caller = Queue(i: nat) | OwnRoutine | Wait | ReadError | Returned(status: int)

  /** `statuses` is what the callback yields on each processor.  `calls` counts its invocations
      and `reported` lists the processors whose error reached the compare-exchange. */
  datatype System = System(self: nat, statuses: seq<int>, sync: int, error: int, dpcs: seq<Dpc>, caller: Caller,
                           calls: seq<nat>, reported: seq<nat>) {
    function N(): nat { |statuses| }

    predicate Whole() { |dpcs| == |calls| == N() && self < N() && (caller.Queue? ==> caller.i <= N()) }
  }

  datatype Actor = Main | Processor(p: nat)

  function Init(statuses: seq<int>, self: nat): System {
    var n := |statuses|;
    System(self, statuses, 0, STATUS_SUCCESS, seq(n, _ => Idle), Queue(0), seq(n, _ => 0), [])
  }

  /** One step of the routine of processor p: the callback, the compare-exchange of the error
      (if there is one), the increment. */
  function RoutineStep(s: System, p: nat): (r: System)
    requires s.Whole() && p < s.N()
    ensures r.Whole() && r.caller == s.caller && r.self == s.self && r.statuses == s.statuses
  {
    match s.dpcs[p]
    case Idle => s
    case Queued => s.(dpcs := s.dpcs[p := Called], calls := s.calls[p := s.calls[p] + 1])
    case Called =>
      if s.statuses[p] == STATUS_SUCCESS then s.(dpcs := s.dpcs[p := Stored])
      else s.(dpcs := s.dpcs[p := Stored], error := if s.error == STATUS_SUCCESS then s.statuses[p] else s.error,
              reported := s.reported + [p])
    case Stored => s.(dpcs := s.dpcs[p := Done], sync := s.sync + 1)
    case Done => s
  }

  function CallerStep(s: System): (r: System)
    requires s.Whole()
    ensures r.Whole() && r.self == s.self && r.statuses == s.statuses
  {
    match s.caller
    case Queue(i) =>
      if i == s.N() then s.(caller := OwnRoutine, dpcs := s.dpcs[s.self := Queued])
      else if i == s.self then s.(caller := Queue(i + 1))
      else s.(caller := Queue(i + 1), dpcs := s.dpcs[i := Queued])
    case OwnRoutine => if s.dpcs[s.self].Done? then s.(caller := Wait) else RoutineStep(s, s.self)
    case Wait =>
      if s.sync == s.N() then s.(sync := 0)
      else if s.sync == 0 then s.(caller := ReadError)
      else s
    case ReadError => s.(caller := Returned(s.error))
    case Returned(_) => s
  }

  /** The routine of another processor runs there; the caller's own runs as part of its steps. */
  function Step(s: System, a: Actor): (r: System)
    requires s.Whole()
    ensures r.Whole() && r.self == s.self && r.statuses == s.statuses
  {
    match a
    case Main => CallerStep(s)
    case Processor(p) => if p < s.N() && p != s.self then RoutineStep(s, p) else s
  }

  function Run(s: System, schedule: seq<Actor>): (r: System)
    requires s.Whole()
    ensures r.Whole() && r.self == s.self && r.statuses == s.statuses
    decreases |schedule|
  {
    if schedule == [] then s else Run(Step(s, schedule[0]), schedule[1..])
  }

  // ------------------------------------------------------------------- invariant

  ghost function DoneSet(s: System): set<nat>
    requires s.Whole()
  {
    set p | 0 <= p < s.N() && s.dpcs[p].Done?
  }

  /** The counter has been reset, so every routine is over. */
  predicate Drained(s: System) { s.sync == 0 && (s.caller.Wait? || s.caller.ReadError? || s.caller.Returned?) }

  predicate Before(d: Dpc) { d.Idle? || d.Queued? }

  predicate Reports(s: System, p: nat)
    requires s.Whole() && p < s.N()
  {
    s.statuses[p] != STATUS_SUCCESS && (s.dpcs[p].Stored? || s.dpcs[p].Done?)
  }

  ghost predicate Counts(s: System)
    requires s.Whole()
  {
    && (forall p :: 0 <= p < s.N() ==> s.calls[p] == if Before(s.dpcs[p]) then 0 else 1)
    && (if Drained(s) then forall p :: 0 <= p < s.N() ==> s.dpcs[p].Done? else s.sync == |DoneSet(s)|)
  }

  ghost predicate Progress(s: System)
    requires s.Whole()
  {
    match s.caller
    case Queue(i) =>
      s.dpcs[s.self].Idle? && forall p :: 0 <= p < s.N() && p != s.self ==> (p < i <==> !s.dpcs[p].Idle?)
    case OwnRoutine => forall p :: 0 <= p < s.N() ==> !s.dpcs[p].Idle?
    case Wait => s.dpcs[s.self].Done? && forall p :: 0 <= p < s.N() ==> !s.dpcs[p].Idle?
    case ReadError => Drained(s)
    case Returned(status) => Drained(s) && status == s.error
  }

  ghost predicate Errors(s: System)
    requires s.Whole()
  {
    && (forall p :: 0 <= p < s.N() ==> (p in s.reported <==> Reports(s, p)))
    && (forall k :: 0 <= k < |s.reported| ==> s.reported[k] < s.N())
    && s.error == if s.reported == [] then STATUS_SUCCESS else s.statuses[s.reported[0]]
  }

  ghost predicate Inv(s: System) {
    s.Whole() && Counts(s) && Progress(s) && Errors(s)
  }

  lemma InitInv(statuses: seq<int>, self: nat)
    requires self < |statuses|
    ensures Inv(Init(statuses, self))
  {
    assert DoneSet(Init(statuses, self)) == {};
  }

  lemma DoneCount(s: System)
    requires s.Whole()
    ensures |DoneSet(s)| <= s.N() && (|DoneSet(s)| == s.N() ==> forall p :: 0 <= p < s.N() ==> s.dpcs[p].Done?)
  {
    SubsetAll(DoneSet(s), s.N());
    if |DoneSet(s)| == s.N() {
      forall p | 0 <= p < s.N() ensures s.dpcs[p].Done? { assert p in DoneSet(s); }
    }
  }

  lemma RoutineDone(s: System, p: nat)
    requires s.Whole() && p < s.N()
    ensures DoneSet(RoutineStep(s, p)) == if s.dpcs[p].Stored? then DoneSet(s) + {p} else DoneSet(s)
  {}

  lemma RoutineCounts(s: System, p: nat)
    requires Inv(s) && p < s.N() && (p == s.self ==> s.caller.OwnRoutine?)
    ensures Counts(RoutineStep(s, p))
  {
    assert p in DoneSet(s) <==> s.dpcs[p].Done?;
    hide Errors, Progress, DoneSet;
    RoutineDone(s, p);
    assert forall q :: 0 <= q < s.N() && q != p ==> RoutineStep(s, p).dpcs[q] == s.dpcs[q];
  }

  lemma RoutineProgress(s: System, p: nat)
    requires Inv(s) && p < s.N() && (p == s.self ==> s.caller.OwnRoutine?)
    ensures Progress(RoutineStep(s, p))
  {
    hide Errors, DoneSet;
  }

  lemma RoutineErrors(s: System, p: nat)
    requires Inv(s) && p < s.N()
    ensures Errors(RoutineStep(s, p))
  {
    hide Counts, Progress, Drained;
    var r := RoutineStep(s, p);
    assert s.reported != [] ==> s.reported[0] in s.reported && Reports(s, s.reported[0]);
    forall q | 0 <= q < s.N() ensures q in r.reported <==> Reports(r, q) {
      assert q in s.reported <==> Reports(s, q);
      if q != p { assert Reports(r, q) == Reports(s, q); }
    }
  }

  lemma RoutineInv(s: System, p: nat)
    requires Inv(s) && p < s.N() && (p == s.self ==> s.caller.OwnRoutine?)
    ensures Inv(RoutineStep(s, p))
  {
    RoutineCounts(s, p);
    RoutineProgress(s, p);
    RoutineErrors(s, p);
    hide Counts, Progress, Errors, RoutineStep;
  }

  lemma CallerCounts(s: System)
    requires Inv(s) && !(s.caller.OwnRoutine? && !s.dpcs[s.self].Done?)
    ensures Counts(CallerStep(s))
  {
    hide Errors, RoutineStep;
    DoneCount(s);
    assert DoneSet(CallerStep(s)) == DoneSet(s);
    if s.dpcs[s.self].Done? { assert s.self in DoneSet(s); }
  }

  lemma CallerProgress(s: System)
    requires Inv(s) && !(s.caller.OwnRoutine? && !s.dpcs[s.self].Done?)
    ensures Progress(CallerStep(s))
  {
    hide Errors, RoutineStep, Counts, DoneSet;
  }

  lemma CallerErrors(s: System)
    requires Inv(s) && !(s.caller.OwnRoutine? && !s.dpcs[s.self].Done?)
    ensures Errors(CallerStep(s))
  {
    hide Counts, RoutineStep, DoneSet, Drained;
    var r := CallerStep(s);
    forall q | 0 <= q < s.N() ensures q in r.reported <==> Reports(r, q) {
      assert q in s.reported <==> Reports(s, q);
    }
  }

  lemma CallerInv(s: System)
    requires Inv(s)
    ensures Inv(CallerStep(s))
  {
    if s.caller.OwnRoutine? && !s.dpcs[s.self].Done? {
      RoutineInv(s, s.self);
    } else {
      CallerCounts(s);
      CallerProgress(s);
      CallerErrors(s);
    }
    hide Counts, Progress, Errors, RoutineStep;
  }

  lemma StepInv(s: System, a: Actor)
    requires Inv(s)
    ensures Inv(Step(s, a))
  {
    hide Inv, CallerStep, RoutineStep;
    match a
    case Main => CallerInv(s);
    case Processor(p) => if p < s.N() && p != s.self { RoutineInv(s, p); }
  }

  lemma {:induction false} RunInv(s: System, schedule: seq<Actor>)
    requires Inv(s)
    ensures Inv(Run(s, schedule))
    decreases |schedule|
  {
    if schedule != [] {
      StepInv(s, schedule[0]);
      RunInv(Step(s, schedule[0]), schedule[1..]);
    }
    hide Inv, Step;
  }

  // ------------------------------------------------------------------- what the caller gets

  /** When the call returns, on whatever schedule: every callback has run once and every routine
      has made its last access to the shared structure; the result is success exactly if all
      callbacks succeeded, and else the error that reached the compare-exchange first. */
  lemma ReturnsWhenAllDone(statuses: seq<int>, self: nat, schedule: seq<Actor>)
    requires self < |statuses| && Run(Init(statuses, self), schedule).caller.Returned?
    ensures var s := Run(Init(statuses, self), schedule);
            && (forall p :: 0 <= p < |statuses| ==> s.calls[p] == 1 && s.dpcs[p].Done?)
            && (s.caller.status == STATUS_SUCCESS <==> forall p :: 0 <= p < |statuses| ==> statuses[p] == STATUS_SUCCESS)
            && (s.caller.status != STATUS_SUCCESS ==>
                  s.reported != [] && s.reported[0] < |statuses| && s.caller.status == statuses[s.reported[0]])
  {
    assert Run(Init(statuses, self), schedule).statuses == statuses;
    hide Run, Init, DoneSet;
    InitInv(statuses, self);
    RunInv(Init(statuses, self), schedule);
    var s := Run(Init(statuses, self), schedule);
    assert s.reported != [] ==> s.reported[0] in s.reported && Reports(s, s.reported[0]);
    forall p | 0 <= p < |statuses| && statuses[p] != STATUS_SUCCESS ensures s.caller.status != STATUS_SUCCESS {
      assert Reports(s, p) && p in s.reported;
    }
  }

  /** After that nothing touches the shared structure, whatever is scheduled. */
  lemma {:induction false} QuietAfterReturn(s: System, schedule: seq<Actor>)
    requires Inv(s) && s.caller.Returned?
    ensures Run(s, schedule) == s
    decreases |schedule|
  {
    if schedule != [] {
      assert Step(s, schedule[0]) == s;
      QuietAfterReturn(s, schedule[1..]);
    }
  }

  // ------------------------------------------------------------------- which error it is

  /** The processor whose routine an actor's next step carries on. */
  function Acting(s: System, a: Actor): (p: nat)
    requires s.Whole()
  {
    match a
    case Main => if s.caller.OwnRoutine? then s.self else s.N()
    case Processor(p) => if p != s.self then p else s.N()
  }

  /** The step is a compare-exchange of a failure by processor p. */
  predicate Fails(s: System, a: Actor, p: nat)
    requires s.Whole()
  {
    p == Acting(s, a) && p < s.N() && s.dpcs[p].Called? && s.statuses[p] != STATUS_SUCCESS
  }

  lemma StepError(s: System, a: Actor)
    requires s.Whole()
    ensures Step(s, a).error ==
            if s.error == STATUS_SUCCESS && Fails(s, a, Acting(s, a)) then s.statuses[Acting(s, a)] else s.error
  {}

  /** An error once stored is never replaced. */
  lemma {:induction false} ErrorSticks(s: System, schedule: seq<Actor>)
    requires s.Whole() && s.error != STATUS_SUCCESS
    ensures Run(s, schedule).error == s.error
    decreases |schedule|
  {
    if schedule != [] {
      StepError(s, schedule[0]);
      ErrorSticks(Step(s, schedule[0]), schedule[1..]);
    }
  }

  /** No step of the schedule, begun in state s, is a failing compare-exchange. */
  ghost predicate NoFailure(s: System, schedule: seq<Actor>)
    requires s.Whole()
  {
    forall k, p :: 0 <= k < |schedule| ==> !Fails(Run(s, schedule[..k]), schedule[k], p)
  }

  lemma NoFailureTail(s: System, schedule: seq<Actor>)
    requires s.Whole() && schedule != [] && NoFailure(s, schedule)
    ensures NoFailure(Step(s, schedule[0]), schedule[1..])
    ensures !Fails(s, schedule[0], Acting(s, schedule[0]))
  {
    assert schedule[..0] == [] && Run(s, []) == s;
    assert !Fails(Run(s, schedule[..0]), schedule[0], Acting(s, schedule[0]));
    forall k, p | 0 <= k < |schedule| - 1
      ensures !Fails(Run(Step(s, schedule[0]), schedule[1..][..k]), schedule[1..][k], p)
    {
      assert schedule[..k + 1][0] == schedule[0] && schedule[..k + 1][1..] == schedule[1..][..k];
      assert !Fails(Run(s, schedule[..k + 1]), schedule[k + 1], p);
    }
  }

  lemma {:induction false} NoFailureNoError(s: System, schedule: seq<Actor>)
    requires s.Whole() && NoFailure(s, schedule)
    ensures Run(s, schedule).error == s.error
    decreases |schedule|
  {
    hide NoFailure, Step, Fails;
    if schedule != [] {
      StepError(s, schedule[0]);
      NoFailureTail(s, schedule);
      NoFailureNoError(Step(s, schedule[0]), schedule[1..]);
    }
  }

  lemma {:induction false} RunConcat(s: System, a: seq<Actor>, b: seq<Actor>)
    requires s.Whole()
    ensures Run(s, a + b) == Run(Run(s, a), b)
    decreases |a|
  {
    hide Step;
    if a == [] {
      assert a + b == b;
    } else {
      assert (a + b)[0] == a[0] && (a + b)[1..] == a[1..] + b;
      RunConcat(Step(s, a[0]), a[1..], b);
    }
  }

  /** The error is that of the processor that makes the first failing compare-exchange of the
      schedule, and it is what the call returns. */
  lemma FirstFailureWins(statuses: seq<int>, self: nat, before: seq<Actor>, a: Actor, p: nat, after: seq<Actor>)
    requires self < |statuses|
    requires NoFailure(Init(statuses, self), before) && Fails(Run(Init(statuses, self), before), a, p)
    ensures var s := Run(Init(statuses, self), before + [a] + after);
            && p < |statuses| && s.error == statuses[p] != STATUS_SUCCESS
            && (s.caller.Returned? ==> s.caller.status == statuses[p])
  {
    var s := Init(statuses, self);
    var t := Run(s, before);
    NoFailureNoError(s, before);
    StepError(t, a);
    assert [a][0] == a && [a][1..] == [] && Run(t, [a]) == Run(Step(t, a), []) == Step(t, a);
    RunConcat(s, before, [a]);
    RunConcat(s, before + [a], after);
    ErrorSticks(Step(t, a), after);
    InitInv(statuses, self);
    RunInv(s, before + [a] + after);
    hide Run, Step, NoFailure, Counts, Errors;
  }

  /** With no failing one the call can only return success. */
  lemma NoFailureSucceeds(statuses: seq<int>, self: nat, schedule: seq<Actor>)
    requires self < |statuses| && NoFailure(Init(statuses, self), schedule)
    ensures var s := Run(Init(statuses, self), schedule);
            s.caller.Returned? ==> s.caller.status == STATUS_SUCCESS
  {
    var s := Init(statuses, self);
    NoFailureNoError(s, schedule);
    InitInv(statuses, self);
    RunInv(s, schedule);
    hide Run, NoFailure, Counts, Errors;
  }

  // ------------------------------------------------------------------- it can always return

  function DpcRank(d: Dpc): nat { match d case Idle => 4 case Queued => 3 case Called => 2 case Stored => 1 case Done => 0 }

  function SumRanks(dpcs: seq<Dpc>): nat { if dpcs == [] then 0 else DpcRank(dpcs[0]) + SumRanks(dpcs[1..]) }

  function CallerRank(s: System): nat
    requires s.Whole()
  {
    match s.caller
    case Queue(i) => s.N() - i + 6
    case OwnRoutine => 5
    case Wait => if s.sync == 0 then 3 else 4
    case ReadError => 2
    case Returned(_) => 1
  }

  function Rank(s: System): nat
    requires s.Whole()
  {
    SumRanks(s.dpcs) + CallerRank(s)
  }

  lemma {:induction false} SumUpdate(dpcs: seq<Dpc>, p: nat, d: Dpc)
    requires p < |dpcs|
    ensures SumRanks(dpcs[p := d]) == SumRanks(dpcs) - DpcRank(dpcs[p]) + DpcRank(d)
  {
    if p == 0 {
      assert dpcs[p := d][1..] == dpcs[1..];
    } else {
      assert dpcs[p := d][1..] == dpcs[1..][p - 1 := d];
      SumUpdate(dpcs[1..], p - 1, d);
    }
  }

  lemma RoutineRank(s: System, p: nat)
    requires Inv(s) && p < s.N() && !s.dpcs[p].Idle? && !s.dpcs[p].Done?
    ensures Rank(RoutineStep(s, p)) < Rank(s)
  {
    assert s.sync >= 0;
    hide Inv, SumRanks;
    SumUpdate(s.dpcs, p, RoutineStep(s, p).dpcs[p]);
    assert RoutineStep(s, p).dpcs == s.dpcs[p := RoutineStep(s, p).dpcs[p]];
  }

  /** Some step brings the call nearer to its return. */
  lemma SomeStepHelps(s: System) returns (a: Actor)
    requires Inv(s) && !s.caller.Returned?
    ensures Rank(Step(s, a)) < Rank(s)
  {
    hide Errors, SumRanks;
    a := Main;
    match s.caller {
      case Queue(i) =>
        SumUpdate(s.dpcs, s.self, Queued);
        if i < s.N() { SumUpdate(s.dpcs, i, Queued); }
      case OwnRoutine =>
        if !s.dpcs[s.self].Done? { RoutineRank(s, s.self); } else { assert s.self in DoneSet(s); }
      case Wait =>
        if s.sync != 0 && s.sync != s.N() {
          DoneCount(s);
          SomeoneBusy(s);
          var p :| 0 <= p < s.N() && !s.dpcs[p].Done?;
          RoutineRank(s, p);
          a := Processor(p);
        }
      case ReadError =>
      case _ =>
    }
  }

  lemma SomeoneBusy(s: System)
    requires s.Whole() && |DoneSet(s)| != s.N()
    ensures exists p :: 0 <= p < s.N() && !s.dpcs[p].Done?
  {
    var rest := Below(s.N()) - DoneSet(s);
    assert Below(s.N()) == DoneSet(s) + rest;
    var p :| p in rest;
  }

  /** From every state of every run the call can still return. */
  lemma {:induction false} CanReturn(s: System) returns (schedule: seq<Actor>)
    requires Inv(s)
    ensures Run(s, schedule).caller.Returned?
    decreases if s.Whole() then Rank(s) else 0
  {
    assert s.Whole();
    hide Inv, Step, Rank;
    schedule := [];
    if !s.caller.Returned? {
      var a := SomeStepHelps(s);
      StepInv(s, a);
      var rest := CanReturn(Step(s, a));
      schedule := [a] + rest;
      assert schedule[0] == a && schedule[1..] == rest;
    }
  }
}

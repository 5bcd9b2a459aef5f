/** The lock-free bucket bitmap of src/channel.c as a system of interleaved steps: a thread that
    wants a bucket looks at the bitmap in one step and takes the bit it saw in another. */
module Buckets {
  import opened Sets

  const DS_MAX_BUCKETS := 16

  type Bitmap = s: set<nat> | forall i :: i in s ==> i < DS_MAX_BUCKETS

  /** Between two calls, about to look at the bitmap, or about to take the bit found. */
  datatype Pc = Idle | Scan | Test(bit: nat)

  /** `refused` counts the calls that found no bucket. */
  datatype Thread = Thread(pc: Pc, held: Bitmap, refused: nat)

  /** `free` are the bits set in BucketsBitMap. */
  datatype System = System(free: Bitmap, threads: seq<Thread>)

  datatype Move = Acquire | Continue | Release(bit: nat)

  datatype Action = Action(t: nat, move: Move)

  /** RtlFindMostSignificantBit of a bitmap that is not zero. */
  function Msb(s: set<nat>, n: nat): (b: nat)
    requires s != {} && forall i :: i in s ==> i < n
    ensures b in s && forall i :: i in s ==> i <= b
  {
    if n - 1 in s then n - 1 else Msb(s, n - 1)
  }

  function Init(n: nat): (s: System)
    ensures |s.threads| == n
  {
    System(Below(DS_MAX_BUCKETS), seq(n, _ => Thread(Idle, {}, 0)))
  }

  /** One step of one thread; a move that its state does not allow changes nothing. */
  function Act(free: Bitmap, th: Thread, move: Move): (Bitmap, Thread)
  {
    match move
    case Acquire => if th.pc.Idle? then (free, th.(pc := Scan)) else (free, th)
    case Continue => (
      match th.pc
      case Idle => (free, th)
      case Scan =>
        if free == {} then (free, th.(pc := Idle, refused := th.refused + 1))
        else (free, th.(pc := Test(Msb(free, DS_MAX_BUCKETS))))
      case Test(bit) =>
        if bit in free then (free - {bit}, th.(pc := Idle, held := th.held + {bit}))
        else (free, th.(pc := Scan)))
    case Release(bit) =>
      if th.pc.Idle? && bit in th.held then (free + {bit}, th.(held := th.held - {bit})) else (free, th)
  }

  function Step(s: System, a: Action): (r: System)
    requires a.t < |s.threads|
    ensures |r.threads| == |s.threads|
  {
    var (free, th) := Act(s.free, s.threads[a.t], a.move);
    System(free, s.threads[a.t := th])
  }

  /** Every bucket is free or held by exactly one thread. */
  ghost predicate Inv(s: System) {
    && (forall t :: 0 <= t < |s.threads| ==> s.threads[t].held !! s.free)
    && (forall t, u :: 0 <= t < u < |s.threads| ==> s.threads[t].held !! s.threads[u].held)
    && (forall i :: 0 <= i < DS_MAX_BUCKETS ==> i in s.free || exists t :: 0 <= t < |s.threads| && i in s.threads[t].held)
  }

  ghost predicate HeldBySomeone(s: System, bit: nat) {
    exists t :: 0 <= t < |s.threads| && bit in s.threads[t].held
  }

  ghost predicate Schedules(schedule: seq<Action>, n: nat) {
    forall i :: 0 <= i < |schedule| ==> schedule[i].t < n
  }

  lemma ActBits(free: Bitmap, th: Thread, move: Move)
    requires th.held !! free
    ensures var (f, u) := Act(free, th, move);
            f + u.held == free + th.held && f !! u.held
  {}

  lemma StepInv(s: System, a: Action)
    requires Inv(s) && a.t < |s.threads|
    ensures Inv(Step(s, a))
  {
    hide Act;
    var r, th := Step(s, a), s.threads[a.t];
    ActBits(s.free, th, a.move);
    var u := r.threads[a.t];
    assert forall t :: 0 <= t < |s.threads| && t != a.t ==> r.threads[t] == s.threads[t] && s.threads[t].held !! th.held;
    forall i | 0 <= i < DS_MAX_BUCKETS
      ensures i in r.free || exists t :: 0 <= t < |r.threads| && i in r.threads[t].held
    {
      if i !in r.free && i !in u.held {
        var t :| 0 <= t < |s.threads| && i in s.threads[t].held;
        assert i in r.threads[t].held;
      }
    }
  }

  ghost function Run(s: System, schedule: seq<Action>): (r: System)
    requires Schedules(schedule, |s.threads|)
    ensures |r.threads| == |s.threads|
    decreases |schedule|
  {
    if schedule == [] then s else Run(Step(s, schedule[0]), schedule[1..])
  }

  lemma {:induction false} RunInv(s: System, schedule: seq<Action>)
    requires Inv(s) && Schedules(schedule, |s.threads|)
    ensures Inv(Run(s, schedule))
    decreases |schedule|
  {
    if schedule != [] {
      StepInv(s, schedule[0]);
      RunInv(Step(s, schedule[0]), schedule[1..]);
    }
    hide Inv, Step;
  }

  lemma InitInv(n: nat)
    ensures Inv(Init(n))
  {
    hide Below;
  }

  /** In every run no bucket is held twice, and the free and the held ones are all there are. */
  lemma Ownership(n: nat, schedule: seq<Action>, bit: nat)
    requires Schedules(schedule, n)
    ensures var s := Run(Init(n), schedule);
            && (forall t, u :: 0 <= t < n && 0 <= u < n && bit in s.threads[t].held && bit in s.threads[u].held ==> t == u)
            && (bit < 16 <==> bit in s.free || HeldBySomeone(s, bit))
            && !(bit in s.free && HeldBySomeone(s, bit))
  {
    InitInv(n);
    RunInv(Init(n), schedule);
    hide Run, Init;
  }

  /** A call fails only if every bucket was held when it looked. */
  lemma RefusedWhenAllHeld(s: System, a: Action)
    requires Inv(s) && a.t < |s.threads| && Step(s, a).threads[a.t].refused > s.threads[a.t].refused
    ensures forall i: nat :: i < DS_MAX_BUCKETS ==> HeldBySomeone(s, i)
  {
    assert s.free == {};
    forall i: nat | i < DS_MAX_BUCKETS ensures HeldBySomeone(s, i) { assert i !in s.free; }
  }

  /** The bit a release sets was clear. */
  lemma ReleaseSetsClearBit(s: System, t: nat, bit: nat)
    requires Inv(s) && t < |s.threads| && bit in s.threads[t].held
    ensures bit !in s.free
  {}

  /** A thread looks, others act, the thread finds its bit gone: then one of the others took a
      bucket in between (so calls as a whole make progress). */
  lemma {:induction false} RetryIsOthersSuccess(s: System, schedule: seq<Action>, t: nat, bit: nat) returns (k: nat)
    requires Schedules(schedule, |s.threads|) && t < |s.threads|
    requires forall i :: 0 <= i < |schedule| ==> schedule[i].t != t
    requires bit in s.free && bit !in Run(s, schedule).free
    ensures k < |schedule| && schedule[k].t != t
    ensures var before := Run(s, schedule[..k]);
            && bit in before.free && schedule[k].t < |before.threads|
            && bit in Step(before, schedule[k]).threads[schedule[k].t].held
    decreases |schedule|
  {
    var next := Step(s, schedule[0]);
    if bit !in next.free {
      k := 0;
      assert schedule[..0] == [];
    } else {
      k := RetryIsOthersSuccess(next, schedule[1..], t, bit);
      assert schedule[1..][..k] == schedule[1..k + 1];
      assert schedule[..k + 1][0] == schedule[0] && schedule[..k + 1][1..] == schedule[1..k + 1];
      k := k + 1;
    }
  }

  /** A thread that runs alone takes the highest free bucket within three steps, from every
      state with a free one; with none free it is refused within two. */
  lemma AcquireAlone(s: System, t: nat)
    requires t < |s.threads| && s.threads[t].pc.Idle?
    ensures s.free == {} ==>
      var r := Run(s, [Action(t, Acquire), Action(t, Continue)]);
      r.free == {} && r.threads[t] == s.threads[t].(refused := s.threads[t].refused + 1)
    ensures s.free != {} ==>
      var r := Run(s, [Action(t, Acquire), Action(t, Continue), Action(t, Continue)]);
      exists bit :: bit in s.free && (forall i :: i in s.free ==> i <= bit)
        && r.free == s.free - {bit} && r.threads[t].pc.Idle?
        && r.threads[t].held == s.threads[t].held + {bit}
  {
    var begin, go := Action(t, Acquire), Action(t, Continue);
    RunFirst(s, begin, [go]);
    var one := Step(s, begin);
    RunFirst(one, go, []);
    var two := Step(one, go);
    RunFirst(s, begin, [go, go]);
    RunFirst(one, go, [go]);
    RunFirst(two, go, []);
    assert [begin] + [go] == [begin, go] && [go] + [] == [go];
    assert [begin] + [go, go] == [begin, go, go] && [go] + [go] == [go, go];
    if s.free != {} {
      var three := Step(two, go);
      assert three.free == s.free - {Msb(s.free, DS_MAX_BUCKETS)};
    }
  }

  lemma RunFirst(s: System, a: Action, rest: seq<Action>)
    requires a.t < |s.threads| && Schedules(rest, |s.threads|)
    ensures Schedules([a] + rest, |s.threads|)
    ensures Run(s, [a] + rest) == Run(Step(s, a), rest)
    ensures rest == [] ==> Run(s, [a] + rest) == Step(s, a)
  {
    hide Step;
    assert ([a] + rest)[0] == a && ([a] + rest)[1..] == rest;
  }
}

/** The two-turnstile barrier of src/sync.c as a system of interleaved steps.  Every step of
    a thread is one interlocked access to shared memory (or a local test), so a semaphore
    operation is itself a sequence of steps under the semaphore's own spin lock.  Any number n
    of threads repeats BarrierEnter, BarrierExit. */
module Barrier {
  import opened Sets

  datatype Turnstile = T1 | T2 {
    function Other(): Turnstile { if T1? then T2 else T1 }
  }

  /** Where a thread is inside SemaphoreWait and SemaphoreSignal. */
  datatype WaitPc = WLock | WRead | WTest | WWrite | WRetry | WUnlock
  datatype SignalPc = GLock | GRead | GWrite | GUnlock

  /** Where a thread is inside BarrierEnter or BarrierExit.  `flip` tells the semaphore
      operations of the last arriver, made under the barrier lock, from those every thread
      makes to pass its turnstile. */
  datatype Pc =
    | Outside
    | BLock | BRead | BWrite | BTest
    | Wait(flip: bool, w: WaitPc)
    | Signal(flip: bool, g: SignalPc)
    | BUnlock

  /** `left` counts the calls completed; even means the next one is BarrierEnter. */
  datatype Thread = Thread(left: nat, pc: Pc, local: int) {
    predicate Entering() { left % 2 == 0 }

    /** The turnstile the current call passes. */
    function Own(): Turnstile { if Entering() then T1 else T2 }

    /** The call's change of the barrier count has been made. */
    predicate Arrived() { pc.BTest? || pc.Wait? || pc.Signal? || pc.BUnlock? }

    function Arrivals(): nat { if Arrived() then left + 1 else left }

    function Begun(): nat { if pc.Outside? then left else left + 1 }
  }

  datatype Semaphore = Semaphore(locked: bool, count: int)

  /** `flips` counts how often the last arriver has handed the turnstiles over. */
  datatype Shared = Shared(locked: bool, count: int, t1: Semaphore, t2: Semaphore, flips: nat) {
    function Sem(k: Turnstile): Semaphore { if k.T1? then t1 else t2 }

    function With(k: Turnstile, v: Semaphore): Shared {
      if k.T1? then this.(t1 := v) else this.(t2 := v)
    }
  }

  datatype System = System(sh: Shared, threads: seq<Thread>) {
    function N(): nat { |threads| }
  }

  /** BarrierSet for n threads. */
  function Init(n: nat): (s: System)
    ensures s.N() == n
  {
    System(Shared(false, 0, Semaphore(false, 0), Semaphore(false, 1), 0), seq(n, _ => Thread(0, Outside, 0)))
  }

  // ----------------------------------------------------------------------- steps

  /** A step inside SemaphoreWait on turnstile k. */
  function WaitStep(sh: Shared, th: Thread, k: Turnstile, flip: bool, w: WaitPc): (Shared, Thread) {
    var sem := sh.Sem(k);
    match w
    case WLock =>
      if sem.locked then (sh, th) else (sh.With(k, sem.(locked := true)), th.(pc := Wait(flip, WRead)))
    case WRead => (sh, th.(local := sem.count, pc := Wait(flip, WTest)))
    case WTest => (sh, th.(pc := Wait(flip, if th.local >= 1 then WWrite else WRetry)))
    case WWrite => (sh.With(k, sem.(count := th.local - 1)), th.(pc := Wait(flip, WUnlock)))
    case WRetry => (sh.With(k, sem.(locked := false)), th.(pc := Wait(flip, WLock)))
    case WUnlock => (sh.With(k, sem.(locked := false)), th.(pc := Signal(flip, GLock)))
  }

  /** A step inside SemaphoreSignal on turnstile k. */
  function SignalStep(sh: Shared, th: Thread, k: Turnstile, flip: bool, g: SignalPc): (Shared, Thread) {
    var sem := sh.Sem(k);
    match g
    case GLock =>
      if sem.locked then (sh, th) else (sh.With(k, sem.(locked := true)), th.(pc := Signal(flip, GRead)))
    case GRead => (sh, th.(local := sem.count, pc := Signal(flip, GWrite)))
    case GWrite =>
      (sh.With(k, sem.(count := th.local + 1)).(flips := if flip then sh.flips + 1 else sh.flips),
       th.(pc := Signal(flip, GUnlock)))
    case GUnlock =>
      (sh.With(k, sem.(locked := false)),
       if flip then th.(pc := BUnlock) else th.(pc := Outside, left := th.left + 1))
  }

  /** What thread th does next, n threads using the barrier; a thread that finds a lock taken
      tries again. */
  function Act(sh: Shared, n: nat, th: Thread): (Shared, Thread) {
    match th.pc
    case Outside => (sh, th.(pc := BLock))
    case BLock => if sh.locked then (sh, th) else (sh.(locked := true), th.(pc := BRead))
    case BRead => (sh, th.(local := sh.count, pc := BWrite))
    case BWrite =>
      var c := if th.Entering() then th.local + 1 else th.local - 1;
      (sh.(count := c), th.(local := c, pc := BTest))
    case BTest =>
      var last := th.local == (if th.Entering() then n else 0);
      (sh, th.(pc := if last then Wait(true, WLock) else BUnlock))
    case Wait(flip, w) => WaitStep(sh, th, if flip then th.Own().Other() else th.Own(), flip, w)
    case Signal(flip, g) => SignalStep(sh, th, th.Own(), flip, g)
    case BUnlock => (sh.(locked := false), th.(pc := Wait(false, WLock)))
  }

  /** One step of thread t. */
  function Step(s: System, t: nat): (r: System)
    requires t < s.N()
    ensures r.N() == s.N()
  {
    var (sh, th) := Act(s.sh, s.N(), s.threads[t]);
    System(sh, s.threads[t := th])
  }

  ghost predicate Schedules(schedule: seq<nat>, n: nat) {
    forall i :: 0 <= i < |schedule| ==> schedule[i] < n
  }

  /** A run schedules one thread after the other, in any order. */
  ghost function Run(s: System, schedule: seq<nat>): (r: System)
    requires Schedules(schedule, s.N())
    ensures r.N() == s.N()
    decreases |schedule|
  {
    if schedule == [] then s else Run(Step(s, schedule[0]), schedule[1..])
  }

  // ------------------------------------------------------------------- invariant

  /** Thread holds the barrier lock. */
  predicate InBarrier(th: Thread) {
    match th.pc
    case BRead | BWrite | BTest | BUnlock => true
    case Wait(flip, _) => flip
    case Signal(flip, _) => flip
    case _ => false
  }

  /** Thread holds the lock of turnstile k. */
  predicate InTurnstile(th: Thread, k: Turnstile) {
    match th.pc
    case Wait(flip, w) => !w.WLock? && k == (if flip then th.Own().Other() else th.Own())
    case Signal(_, g) => !g.GLock? && k == th.Own()
    case _ => false
  }

  predicate InT1(th: Thread) { InTurnstile(th, T1) }
  predicate InT2(th: Thread) { InTurnstile(th, T2) }

  /** Thread is between its wait and its signal: it carries the token. */
  predicate HasToken(th: Thread) {
    match th.pc
    case Wait(_, w) => w.WUnlock?
    case Signal(_, g) => !g.GUnlock?
    case _ => false
  }

  /** Thread has passed its turnstile but not returned yet. */
  predicate Passing(th: Thread) {
    match th.pc
    case Wait(flip, w) => !flip && w.WUnlock?
    case Signal(flip, _) => !flip
    case _ => false
  }

  /** Last arriver that has not handed over yet. */
  predicate Flipping(th: Thread) {
    match th.pc
    case Wait(flip, _) => flip
    case Signal(flip, g) => flip && !g.GUnlock?
    case _ => false
  }

  /** At most one thread satisfies p, and one does exactly if `held`. */
  ghost predicate Mutex(ths: seq<Thread>, held: bool, p: Thread -> bool) {
    && (forall t, u :: 0 <= t < |ths| && 0 <= u < |ths| && p(ths[t]) && p(ths[u]) ==> t == u)
    && (held <==> exists t :: 0 <= t < |ths| && p(ths[t]))
  }

  /** No token is in a turnstile. */
  predicate TokenOut(sh: Shared) { sh.t1.count == 0 && sh.t2.count == 0 }

  /** The turnstiles hold one token at most; which one tells whose turn it is. */
  predicate TokenIn(sh: Shared) {
    && sh.t1.count >= 0 && sh.t2.count >= 0 && sh.t1.count + sh.t2.count <= 1
    && (sh.t1.count == 1 ==> sh.flips % 2 == 1)
    && (sh.t2.count == 1 ==> sh.flips % 2 == 0)
  }

  /** What a thread last read is still there. */
  predicate Current(sh: Shared, th: Thread) {
    match th.pc
    case BWrite | BTest => th.local == sh.count
    case Wait(flip, w) =>
      var c := sh.Sem(if flip then th.Own().Other() else th.Own()).count;
      (w.WTest? || w.WWrite? ==> th.local == c) && (w.WWrite? ==> th.local >= 1)
    case Signal(_, g) => g.GWrite? ==> th.local == sh.Sem(th.Own()).count
    case _ => true
  }

  /** How far a thread can be ahead of or behind the others. */
  predicate InStep(flips: nat, th: Thread) {
    && th.left <= flips <= th.Arrivals() <= flips + 1
    && (Passing(th) ==> th.Arrivals() == flips)
    && (th.pc.BTest? || Flipping(th) ==> th.Arrivals() == flips + 1)
  }

  ghost function ArrivedSet(s: System): set<nat> {
    set t | 0 <= t < s.N() && s.threads[t].Arrivals() == s.sh.flips + 1
  }

  ghost predicate Locks(s: System) {
    && Mutex(s.threads, s.sh.locked, InBarrier)
    && Mutex(s.threads, s.sh.t1.locked, InT1)
    && Mutex(s.threads, s.sh.t2.locked, InT2)
    && Mutex(s.threads, TokenOut(s.sh), HasToken)
  }

  ghost predicate Inv(s: System) {
    && Locks(s)
    && TokenIn(s.sh)
    && (forall t :: 0 <= t < s.N() ==> Current(s.sh, s.threads[t]) && InStep(s.sh.flips, s.threads[t]))
    && (forall t, u :: 0 <= t < s.N() && 0 <= u < s.N() && Flipping(s.threads[t]) ==>
          s.threads[u].Arrivals() == s.sh.flips + 1)
    && s.sh.count == (if s.sh.flips % 2 == 0 then |ArrivedSet(s)| else s.N() - |ArrivedSet(s)|)
    && (forall t :: 0 <= t < s.N() ==> s.threads[t].pc != Wait(true, WRetry))
  }

  lemma InitInv(n: nat)
    ensures Inv(Init(n))
  {
    assert ArrivedSet(Init(n)) == {};
  }

  // ---------------------------------------------------- the locks and the token, step by step

  /** One thread moving: its predicate value and the flag change together. */
  predicate Together(before: bool, after: bool, held: bool, now: bool) {
    (after == before && now == held) || (!held && after && now) || (before && !after && !now)
  }

  lemma MutexMove(ths: seq<Thread>, held: bool, p: Thread -> bool, t: nat, th: Thread, now: bool)
    requires Mutex(ths, held, p) && t < |ths| && Together(p(ths[t]), p(th), held, now)
    ensures Mutex(ths[t := th], now, p)
  {
    var r := ths[t := th];
    assert forall u :: 0 <= u < |r| && u != t ==> r[u] == ths[u];
    if now && p(th) { assert p(r[t]); }
    if now && !p(th) {
      var u :| 0 <= u < |ths| && p(ths[u]);
      assert p(r[u]);
    }
  }

  lemma ActLocks(sh: Shared, n: nat, th: Thread)
    ensures var (r, u) := Act(sh, n, th);
            && Together(InBarrier(th), InBarrier(u), sh.locked, r.locked)
            && Together(InT1(th), InT1(u), sh.t1.locked, r.t1.locked)
            && Together(InT2(th), InT2(u), sh.t2.locked, r.t2.locked)
  {
    hide WaitStep, SignalStep;
    if th.pc.Wait? { WaitLocks(sh, n, th); } else if th.pc.Signal? { SignalLocks(sh, n, th); }
  }

  lemma WaitLocks(sh: Shared, n: nat, th: Thread)
    requires th.pc.Wait?
    ensures var (r, u) := Act(sh, n, th);
            && Together(InBarrier(th), InBarrier(u), sh.locked, r.locked)
            && Together(InT1(th), InT1(u), sh.t1.locked, r.t1.locked)
            && Together(InT2(th), InT2(u), sh.t2.locked, r.t2.locked)
  {
    hide SignalStep, Thread.Arrivals, Thread.Begun;
  }

  lemma SignalLocks(sh: Shared, n: nat, th: Thread)
    requires th.pc.Signal?
    ensures var (r, u) := Act(sh, n, th);
            && Together(InBarrier(th), InBarrier(u), sh.locked, r.locked)
            && Together(InT1(th), InT1(u), sh.t1.locked, r.t1.locked)
            && Together(InT2(th), InT2(u), sh.t2.locked, r.t2.locked)
  {
    hide WaitStep, Thread.Arrivals, Thread.Begun;
  }

  /** The token leaves a turnstile only with the thread that takes it, and comes back once. */
  lemma ActToken(sh: Shared, n: nat, th: Thread)
    requires TokenIn(sh) && Current(sh, th) && (HasToken(th) ==> TokenOut(sh))
    ensures var (r, u) := Act(sh, n, th);
            && r.t1.count >= 0 && r.t2.count >= 0 && r.t1.count + r.t2.count <= 1
            && Together(HasToken(th), HasToken(u), TokenOut(sh), TokenOut(r))
  {
    hide WaitStep, SignalStep;
    if th.pc.Wait? { WaitToken(sh, n, th); } else if th.pc.Signal? { SignalToken(sh, n, th); }
  }

  lemma WaitToken(sh: Shared, n: nat, th: Thread)
    requires th.pc.Wait? && TokenIn(sh) && Current(sh, th) && (HasToken(th) ==> TokenOut(sh))
    ensures var (r, u) := Act(sh, n, th);
            && r.t1.count >= 0 && r.t2.count >= 0 && r.t1.count + r.t2.count <= 1
            && Together(HasToken(th), HasToken(u), TokenOut(sh), TokenOut(r))
  {
    hide SignalStep;
  }

  lemma SignalToken(sh: Shared, n: nat, th: Thread)
    requires th.pc.Signal? && TokenIn(sh) && Current(sh, th) && (HasToken(th) ==> TokenOut(sh))
    ensures var (r, u) := Act(sh, n, th);
            && r.t1.count >= 0 && r.t2.count >= 0 && r.t1.count + r.t2.count <= 1
            && Together(HasToken(th), HasToken(u), TokenOut(sh), TokenOut(r))
  {
    hide WaitStep;
  }

  lemma StepLocks(s: System, t: nat)
    requires Inv(s) && t < s.N()
    ensures Locks(Step(s, t))
  {
    hide Mutex, Act, ArrivedSet, TokenOut, InBarrier, InT1, InT2, HasToken, Flipping;
    var th := s.threads[t];
    var (sh, u) := Act(s.sh, s.N(), th);
    TokenHeld(s, t);
    ActLocks(s.sh, s.N(), th);
    ActToken(s.sh, s.N(), th);
    MutexMove(s.threads, s.sh.locked, InBarrier, t, u, sh.locked);
    MutexMove(s.threads, s.sh.t1.locked, InT1, t, u, sh.t1.locked);
    MutexMove(s.threads, s.sh.t2.locked, InT2, t, u, sh.t2.locked);
    MutexMove(s.threads, TokenOut(s.sh), HasToken, t, u, TokenOut(sh));
  }

  lemma TokenHeld(s: System, t: nat)
    requires Locks(s) && t < s.N()
    ensures HasToken(s.threads[t]) ==> TokenOut(s.sh)
  {}

  // ------------------------------------------------------------------- the acting thread

  lemma ActCurrent(sh: Shared, n: nat, th: Thread)
    requires Current(sh, th)
    ensures var (r, u) := Act(sh, n, th); Current(r, u)
  {
    hide Thread.Arrivals, Thread.Begun;
  }

  lemma ActCounts(sh: Shared, n: nat, th: Thread)
    requires Current(sh, th) && InStep(sh.flips, th)
    ensures var (r, u) := Act(sh, n, th);
            && r.flips == (if th.pc == Signal(true, GWrite) then sh.flips + 1 else sh.flips)
            && u.Arrivals() == (if th.pc.BWrite? then th.Arrivals() + 1 else th.Arrivals())
            && r.count == (if !th.pc.BWrite? then sh.count else if th.Entering() then sh.count + 1 else sh.count - 1)
  {}

  lemma WaitInStep(sh: Shared, n: nat, th: Thread)
    requires th.pc.Wait? && Current(sh, th) && TokenIn(sh) && InStep(sh.flips, th)
    ensures var (r, u) := Act(sh, n, th); InStep(r.flips, u)
  {
    hide SignalStep;
  }

  lemma SignalInStep(sh: Shared, n: nat, th: Thread)
    requires th.pc.Signal? && InStep(sh.flips, th)
    ensures var (r, u) := Act(sh, n, th); InStep(r.flips, u)
  {
    hide WaitStep;
  }

  /** A thread that arrives or gets through its turnstile does so in step with the others. */
  lemma ActInStep(sh: Shared, n: nat, th: Thread)
    requires Current(sh, th) && TokenIn(sh) && InStep(sh.flips, th)
    ensures var (r, u) := Act(sh, n, th); InStep(r.flips, u)
  {
    hide Current, TokenIn, WaitStep, SignalStep;
    if th.pc.Wait? { WaitInStep(sh, n, th); } else if th.pc.Signal? { SignalInStep(sh, n, th); }
  }

  /** The token returns to the turnstile whose turn it is. */
  lemma ActParity(sh: Shared, n: nat, th: Thread)
    requires Current(sh, th) && TokenIn(sh) && InStep(sh.flips, th) && (HasToken(th) ==> TokenOut(sh))
    ensures TokenIn(Act(sh, n, th).0)
  {}

  // --------------------------------------------------------------------- the other threads

  predicate Apart(th: Thread, u: Thread) {
    && !(InBarrier(th) && InBarrier(u)) && !(InT1(th) && InT1(u)) && !(InT2(th) && InT2(u))
  }

  lemma ActOther(sh: Shared, n: nat, th: Thread, u: Thread)
    requires Current(sh, u) && Apart(th, u)
    ensures Current(Act(sh, n, th).0, u)
  {}

  lemma ThreadsApart(s: System, t: nat, u: nat)
    requires Locks(s) && t < s.N() && u < s.N() && t != u
    ensures Apart(s.threads[t], s.threads[u])
  {}

  lemma StepThreads(s: System, t: nat)
    requires Inv(s) && t < s.N()
    ensures var r := Step(s, t);
            forall u :: 0 <= u < r.N() ==> Current(r.sh, r.threads[u]) && InStep(r.sh.flips, r.threads[u])
  {
    hide Locks, ArrivedSet, TokenIn, Act, Current;
    var r := Step(s, t);
    ActCurrent(s.sh, s.N(), s.threads[t]);
    ActCounts(s.sh, s.N(), s.threads[t]);
    ActInStep(s.sh, s.N(), s.threads[t]);
    forall u | 0 <= u < r.N() && u != t
      ensures Current(r.sh, r.threads[u]) && InStep(r.sh.flips, r.threads[u])
    {
      ThreadsApart(s, t, u);
      ActOther(s.sh, s.N(), s.threads[t], s.threads[u]);
    }
  }

  // ------------------------------------------------------------------- counting arrivals

  /** The count the last arriver tests tells that everybody has arrived. */
  lemma LastArrived(s: System, t: nat)
    requires Inv(s) && t < s.N() && s.threads[t].pc.BTest?
    requires s.threads[t].local == (if s.threads[t].Entering() then s.N() else 0)
    ensures forall u :: 0 <= u < s.N() ==> s.threads[u].Arrivals() == s.sh.flips + 1
  {
    hide Locks, TokenIn, Flipping, Passing, HasToken;
    SubsetAll(ArrivedSet(s), s.N());
    assert Current(s.sh, s.threads[t]) && InStep(s.sh.flips, s.threads[t]);
    assert ArrivedSet(s) == Below(s.N());
    forall u | 0 <= u < s.N()
      ensures s.threads[u].Arrivals() == s.sh.flips + 1
    {
      assert u in ArrivedSet(s);
    }
  }

  lemma StepFlipping(s: System, t: nat)
    requires Inv(s) && t < s.N()
    ensures var r := Step(s, t);
            forall v, u :: 0 <= v < r.N() && 0 <= u < r.N() && Flipping(r.threads[v]) ==>
              r.threads[u].Arrivals() == r.sh.flips + 1
  {
    hide ArrivedSet, TokenIn, Act, Current, InStep, Mutex;
    var r, th := Step(s, t), s.threads[t];
    StepArrivals(s, t);
    FlipChange(s.sh, s.N(), th);
    if th.pc.BTest? && Flipping(r.threads[t]) { LastArrived(s, t); }
    forall v, u | 0 <= v < r.N() && 0 <= u < r.N() && Flipping(r.threads[v])
      ensures r.threads[u].Arrivals() == r.sh.flips + 1
    {
      if v != t { ThreadsApart(s, t, v); }
    }
  }

  lemma FlipChange(sh: Shared, n: nat, th: Thread)
    ensures var (r, u) := Act(sh, n, th);
            Flipping(u) ==> (Flipping(th) && th.pc != Signal(true, GWrite))
                            || (th.pc.BTest? && th.local == (if th.Entering() then n else 0))
  {}

  /** How flips, count and arrivals change in a step. */
  lemma StepArrivals(s: System, t: nat)
    requires Inv(s) && t < s.N()
    ensures var r, th := Step(s, t), s.threads[t];
            && r.sh.flips == (if th.pc == Signal(true, GWrite) then s.sh.flips + 1 else s.sh.flips)
            && r.threads[t].Arrivals() == (if th.pc.BWrite? then s.sh.flips + 1 else th.Arrivals())
            && r.sh.count == (if th.pc.BWrite? then (if s.sh.flips % 2 == 0 then s.sh.count + 1 else s.sh.count - 1) else s.sh.count)
            && (th.pc.BWrite? ==> th.Arrivals() == s.sh.flips)
  {
    hide Locks, ArrivedSet, TokenIn, Act, Current;
    ActCounts(s.sh, s.N(), s.threads[t]);
  }

  /** Who counts as arrived after a step. */
  lemma ArrivedChange(s: System, t: nat)
    requires Inv(s) && t < s.N()
    ensures var r, th := Step(s, t), s.threads[t];
            if th.pc.BWrite? then ArrivedSet(r) == ArrivedSet(s) + {t} && t !in ArrivedSet(s)
            else if th.pc == Signal(true, GWrite) then ArrivedSet(r) == {} && ArrivedSet(s) == Below(s.N())
            else ArrivedSet(r) == ArrivedSet(s)
  {
    hide Locks, TokenIn, Act, Current, InStep, Passing, HasToken;
    var r, th := Step(s, t), s.threads[t];
    StepArrivals(s, t);
    assert forall u :: 0 <= u < s.N() && u != t ==> r.threads[u] == s.threads[u];
    if th.pc == Signal(true, GWrite) {
      assert Flipping(th);
      assert forall u :: 0 <= u < s.N() ==> u in ArrivedSet(s);
      assert ArrivedSet(s) == Below(s.N());
    }
  }

  lemma StepCount(s: System, t: nat)
    requires Inv(s) && t < s.N()
    ensures var r := Step(s, t);
            r.sh.count == (if r.sh.flips % 2 == 0 then |ArrivedSet(r)| else r.N() - |ArrivedSet(r)|)
  {
    hide Locks, TokenIn, Act, Current, InStep, ArrivedSet, Flipping;
    StepArrivals(s, t);
    ArrivedChange(s, t);
  }

  /** When everybody has arrived, only the last arriver has business with the turnstile that
      is to be closed. */
  lemma OthersWait(flips: nat, th: Thread, u: Thread)
    requires InStep(flips, th) && InStep(flips, u) && Apart(th, u)
    requires th.pc.Wait? && th.pc.flip && u.Arrivals() == flips + 1
    ensures !InTurnstile(u, th.Own().Other()) && !HasToken(u)
  {}

  /** What the last arriver of a round finds: every other thread is done with the turnstile it
      closes, its lock is free and the token is in it. */
  lemma FlipFindsToken(s: System, t: nat)
    requires Inv(s) && t < s.N() && s.threads[t].pc.Wait? && s.threads[t].pc.flip
    ensures var th := s.threads[t];
            && (th.pc.w == WLock ==> !s.sh.Sem(th.Own().Other()).locked)
            && (th.pc.w != WUnlock ==> s.sh.Sem(th.Own().Other()).count == 1)
  {
    hide ArrivedSet, HasToken, InBarrier, InStep, Passing, Current;
    var th := s.threads[t];
    forall u | 0 <= u < s.N() && u != t
      ensures !InTurnstile(s.threads[u], th.Own().Other()) && !HasToken(s.threads[u])
    {
      ThreadsApart(s, t, u);
      OthersWait(s.sh.flips, th, s.threads[u]);
    }
    FlipSelf(s.sh, th);
    if th.pc.w == WLock {
      assert forall u :: 0 <= u < s.N() ==> !InTurnstile(s.threads[u], th.Own().Other());
    }
    if th.pc.w != WUnlock {
      assert forall u :: 0 <= u < s.N() ==> !HasToken(s.threads[u]);
      assert !TokenOut(s.sh);
    }
  }

  lemma FlipSelf(sh: Shared, th: Thread)
    requires th.pc.Wait? && th.pc.flip && InStep(sh.flips, th) && TokenIn(sh)
    ensures th.pc.w == WLock ==> !InT1(th) && !InT2(th)
    ensures th.pc.w != WUnlock ==> !HasToken(th) && (!TokenOut(sh) ==> sh.Sem(th.Own().Other()).count == 1)
  {}

  /** So its wait never goes round. */
  lemma StepNoRetry(s: System, t: nat)
    requires Inv(s) && t < s.N()
    ensures forall u :: 0 <= u < s.N() ==> Step(s, t).threads[u].pc != Wait(true, WRetry)
  {
    hide ArrivedSet, Locks, TokenIn;
    var th := s.threads[t];
    if th.pc.Wait? && th.pc.flip { FlipFindsToken(s, t); }
    assert Step(s, t).threads[t].pc != Wait(true, WRetry);
    assert forall u :: 0 <= u < s.N() && u != t ==> Step(s, t).threads[u] == s.threads[u];
  }

  /** Every step of every thread keeps the invariant. */
  lemma StepInv(s: System, t: nat)
    requires Inv(s) && t < s.N()
    ensures Inv(Step(s, t))
  {
    StepLocks(s, t);
    StepThreads(s, t);
    StepFlipping(s, t);
    StepCount(s, t);
    StepNoRetry(s, t);
    TokenHeld(s, t);
    ActParity(s.sh, s.N(), s.threads[t]);
    hide Locks, TokenIn, Act, Current, InStep, ArrivedSet, Flipping;
  }

  lemma {:induction false} RunInv(s: System, schedule: seq<nat>)
    requires Inv(s) && Schedules(schedule, s.N())
    ensures Inv(Run(s, schedule))
    decreases |schedule|
  {
    hide Inv;
    if schedule != [] {
      StepInv(s, schedule[0]);
      RunInv(Step(s, schedule[0]), schedule[1..]);
    }
  }

  /** So it holds whatever n threads do with a fresh barrier, in any order. */
  lemma ReachableInv(n: nat, schedule: seq<nat>)
    requires Schedules(schedule, n)
    ensures Inv(Run(Init(n), schedule))
  {
    InitInv(n);
    RunInv(Init(n), schedule);
  }

  // ------------------------------------------------------------------- what callers rely on

  /** Nobody returns from its j-th barrier call (odd j: an Enter, even j: an Exit) before every
      thread has begun its own j-th call, in any run of any number of threads. */
  lemma NobodyLeavesEarly(n: nat, schedule: seq<nat>, t: nat, u: nat, j: nat)
    requires Schedules(schedule, n) && t < n && u < n
    ensures var s := Run(Init(n), schedule);
            s.threads[t].left >= j ==> s.threads[u].Begun() >= j
  {
    hide Run, Init, Locks, TokenIn, ArrivedSet, Current, Flipping, Passing;
    ReachableInv(n, schedule);
    var s := Run(Init(n), schedule);
    assert InStep(s.sh.flips, s.threads[t]) && InStep(s.sh.flips, s.threads[u]);
  }

  /** So two threads are never more than one call apart. */
  lemma AtMostOneApart(n: nat, schedule: seq<nat>, t: nat, u: nat)
    requires Schedules(schedule, n) && t < n && u < n
    ensures var s := Run(Init(n), schedule);
            s.threads[t].left <= s.threads[u].left + 1
  {
    hide Run, Init, Locks, TokenIn, ArrivedSet, Current, Flipping, Passing;
    ReachableInv(n, schedule);
    var s := Run(Init(n), schedule);
    assert InStep(s.sh.flips, s.threads[t]) && InStep(s.sh.flips, s.threads[u]);
  }

  ghost function Carriers(s: System): set<nat> {
    set t | 0 <= t < s.N() && HasToken(s.threads[t])
  }

  /** The two turnstile counts and the threads between a wait and its signal hold one token. */
  lemma OneToken(n: nat, schedule: seq<nat>)
    requires Schedules(schedule, n)
    ensures var s := Run(Init(n), schedule); s.sh.t1.count + s.sh.t2.count + |Carriers(s)| == 1
  {
    hide Run, Init, ArrivedSet, Current, InStep, HasToken, Flipping;
    ReachableInv(n, schedule);
    var s := Run(Init(n), schedule);
    if TokenOut(s.sh) {
      var t :| 0 <= t < s.N() && HasToken(s.threads[t]);
      assert Carriers(s) == {t};
    } else {
      assert Carriers(s) == {};
    }
  }

  /** Steps the last arriver still has to make before it gives the barrier lock back. */
  function FlipRank(pc: Pc): nat {
    match pc
    case Wait(true, w) =>
      (match w case WLock => 9 case WRead => 8 case WTest => 7 case WWrite => 6 case WUnlock => 5 case WRetry => 10)
    case Signal(true, g) => (match g case GLock => 4 case GRead => 3 case GWrite => 2 case GUnlock => 1)
    case _ => 0
  }

  /** Steps a thread still has to make before it releases the turnstile lock it holds. */
  function HoldRank(pc: Pc): nat {
    match pc
    case Wait(_, w) =>
      (match w case WLock => 0 case WRead => 4 case WTest => 3 case WWrite => 2 case WUnlock => 1 case WRetry => 1)
    case Signal(_, g) => (match g case GLock => 0 case GRead => 3 case GWrite => 2 case GUnlock => 1)
    case _ => 0
  }

  /** A step of the last arriver brings it nearer to releasing the barrier, unless it finds
      the lock of the turnstile it opens held; then exactly one other thread holds that
      lock, and each step of that thread brings it nearer to releasing it. */
  lemma FlipAdvances(s: System, t: nat)
    requires Inv(s) && t < s.N() && FlipRank(s.threads[t].pc) > 0
    ensures var r, th := Step(s, t), s.threads[t];
            if th.pc == Signal(true, GLock) && s.sh.Sem(th.Own()).locked then (
              exists u :: u != t && 0 <= u < s.N() && InTurnstile(s.threads[u], th.Own())
                && HoldRank(s.threads[u].pc) <= 4
                && HoldRank(Step(s, u).threads[u].pc) < HoldRank(s.threads[u].pc))
            else (
              FlipRank(r.threads[t].pc) == FlipRank(th.pc) - 1
                && (FlipRank(th.pc) == 1 ==> r.threads[t].pc.BUnlock?))
  {
    hide ArrivedSet;
  }

  // ------------------------------------------------------- no run can reach a deadlock

  /** When everybody has arrived, the last arriver is at work. */
  ghost predicate LastActive(s: System) {
    (forall u :: 0 <= u < s.N() ==> s.threads[u].Arrivals() == s.sh.flips + 1)
    ==> s.N() == 0 || exists t :: 0 <= t < s.N() && (s.threads[t].pc.BTest? || Flipping(s.threads[t]))
  }

  lemma FullCount(s: System, t: nat)
    requires Inv(s) && t < s.N() && s.threads[t].pc.BTest?
    requires forall u :: 0 <= u < s.N() ==> s.threads[u].Arrivals() == s.sh.flips + 1
    ensures s.threads[t].local == (if s.threads[t].Entering() then s.N() else 0)
  {
    hide Locks, TokenIn, Flipping, Passing, HasToken;
    assert Current(s.sh, s.threads[t]) && InStep(s.sh.flips, s.threads[t]);
    assert forall u :: 0 <= u < s.N() ==> u in ArrivedSet(s);
    assert ArrivedSet(s) == Below(s.N());
  }

  lemma StepActive(s: System, t: nat)
    requires Inv(s) && LastActive(s) && t < s.N()
    ensures LastActive(Step(s, t))
  {
    hide Locks, ArrivedSet, TokenIn, Act, Current, InStep;
    var r, th := Step(s, t), s.threads[t];
    StepArrivals(s, t);
    ActFlow(s.sh, s.N(), th);
    assert forall u :: 0 <= u < s.N() && u != t ==> r.threads[u] == s.threads[u];
    if forall u :: 0 <= u < r.N() ==> r.threads[u].Arrivals() == r.sh.flips + 1 {
      if !th.pc.BWrite? && th.pc != Signal(true, GWrite) {
        assert forall u :: 0 <= u < s.N() && u != t ==> r.threads[u].Arrivals() == s.threads[u].Arrivals();
        var v :| 0 <= v < s.N() && (s.threads[v].pc.BTest? || Flipping(s.threads[v]));
        if v == t && th.pc.BTest? { FullCount(s, t); }
        assert r.threads[v].pc.BTest? || Flipping(r.threads[v]);
      } else if th.pc.BWrite? {
        assert r.threads[t].pc.BTest?;
      } else {
        StaysBehind(s, t);
      }
    }
  }

  lemma ActFlow(sh: Shared, n: nat, th: Thread)
    ensures var u := Act(sh, n, th).1;
            && (th.pc.BWrite? ==> u.pc.BTest?)
            && (th.pc.BTest? && th.local == (if th.Entering() then n else 0) ==> Flipping(u))
            && (Flipping(th) && th.pc != Signal(true, GWrite) ==> Flipping(u))
  {}

  lemma StaysBehind(s: System, t: nat)
    requires Inv(s) && t < s.N() && s.threads[t].pc == Signal(true, GWrite)
    ensures Step(s, t).threads[t].Arrivals() != Step(s, t).sh.flips + 1
  {
    hide Locks, ArrivedSet, TokenIn, Act, Current, Passing;
    StepArrivals(s, t);
    assert InStep(s.sh.flips, s.threads[t]);
  }

  lemma {:induction false} RunActive(s: System, schedule: seq<nat>)
    requires Inv(s) && LastActive(s) && Schedules(schedule, s.N())
    ensures LastActive(Run(s, schedule))
    decreases |schedule|
  {
    hide Inv, LastActive;
    if schedule != [] {
      StepInv(s, schedule[0]);
      StepActive(s, schedule[0]);
      RunActive(Step(s, schedule[0]), schedule[1..]);
    }
  }

  /** How far a thread is from the end of the round, given `flips` rounds are over; c is what
      the turnstile it passes holds. */
  function Rank(flips: nat, th: Thread, c: int): nat {
    var behind := th.Arrivals() == flips;
    match th.pc
    case Outside => 29
    case BLock => 28
    case BRead => 27
    case BWrite => 26
    case BTest => 25
    case BUnlock => if behind then 39 else 24
    case Wait(true, w) =>
      (match w case WLock => 23 case WRead => 22 case WTest => 21 case WWrite => 20 case WUnlock => 19 case WRetry => 0)
    case Signal(true, g) => (match g case GLock => 18 case GRead => 17 case GWrite => 16 case GUnlock => 40)
    case Wait(false, w) =>
      (match w
       case WLock => if behind then 38 else 10
       case WRead => if !behind then 13 else if c >= 1 then 37 else 41
       case WTest => if !behind then 12 else if th.local >= 1 then 36 else 40
       case WRetry => if !behind then 11 else 39
       case WWrite => 35
       case WUnlock => 34)
    case Signal(false, g) => (match g case GLock => 33 case GRead => 32 case GWrite => 31 case GUnlock => 30)
  }

  function RankIn(sh: Shared, th: Thread): nat { Rank(sh.flips, th, sh.Sem(th.Own()).count) }

  function TotalRank(sh: Shared, ths: seq<Thread>): nat {
    if ths == [] then 0 else RankIn(sh, ths[0]) + TotalRank(sh, ths[1..])
  }

  lemma {:induction false} TotalLess(sh: Shared, ths: seq<Thread>, r: Shared, us: seq<Thread>, t: nat)
    requires |ths| == |us|
    requires forall u :: 0 <= u < |ths| && u != t ==> RankIn(r, us[u]) == RankIn(sh, ths[u])
    requires t < |ths| ==> RankIn(r, us[t]) < RankIn(sh, ths[t])
    ensures if t < |ths| then TotalRank(r, us) < TotalRank(sh, ths) else TotalRank(r, us) == TotalRank(sh, ths)
    decreases |ths|
  {
    hide RankIn;
    if ths != [] {
      TotalLess(sh, ths[1..], r, us[1..], if t == 0 then |ths| else t - 1);
    }
  }

  /** A step that ends the round or brings the acting thread nearer to its end. */
  predicate Productive(sh: Shared, n: nat, th: Thread) {
    var (r, u) := Act(sh, n, th);
    r.flips != sh.flips || RankIn(r, u) < RankIn(sh, th)
  }

  /** The thread can act: no lock it wants is held, and no turnstile it tries is empty. */
  predicate Ready(sh: Shared, th: Thread) {
    match th.pc
    case BLock => !sh.locked
    case Wait(true, WLock) => !sh.Sem(th.Own().Other()).locked
    case Wait(true, WTest) => th.local >= 1
    case Wait(true, WRetry) => false
    case Wait(false, WLock) => !sh.Sem(th.Own()).locked && sh.Sem(th.Own()).count >= 1
    case Signal(_, GLock) => !sh.Sem(th.Own()).locked
    case _ => true
  }

  lemma ReadyProductive(sh: Shared, n: nat, th: Thread)
    requires Ready(sh, th) && Current(sh, th) && TokenIn(sh) && InStep(sh.flips, th)
    ensures Productive(sh, n, th)
  {}

  /** A step that leaves the round open changes no other thread's rank. */
  lemma ActRank(sh: Shared, n: nat, th: Thread, u: Thread)
    requires Apart(th, u) && Act(sh, n, th).0.flips == sh.flips
    ensures RankIn(Act(sh, n, th).0, u) == RankIn(sh, u)
  {}

  /** A thread that holds a turnstile lock can always act. */
  lemma HolderReady(s: System, t: nat)
    requires Inv(s) && t < s.N() && (InT1(s.threads[t]) || InT2(s.threads[t]))
    ensures Ready(s.sh, s.threads[t])
  {
    hide Locks, ArrivedSet, TokenIn, InStep, Flipping, Passing, HasToken;
    assert Current(s.sh, s.threads[t]);
    if s.threads[t].pc.Wait? && s.threads[t].pc.flip { FlipFindsToken(s, t); }
  }

  /** A thread that holds the barrier lock can act, unless a turnstile lock is held. */
  lemma OwnerReady(s: System, t: nat)
    requires Inv(s) && t < s.N() && InBarrier(s.threads[t]) && !s.sh.t1.locked && !s.sh.t2.locked
    ensures Ready(s.sh, s.threads[t])
  {
    hide Locks, ArrivedSet, TokenIn, InStep, Flipping, Passing, HasToken;
    assert Current(s.sh, s.threads[t]);
    if s.threads[t].pc.Wait? && s.threads[t].pc.flip { FlipFindsToken(s, t); }
  }

  /** With no lock held: a thread that waits for a turnstile and is a round behind finds the
      token in it. */
  lemma BehindReady(s: System, t: nat)
    requires Inv(s) && t < s.N() && !s.sh.t1.locked && !s.sh.t2.locked && !TokenOut(s.sh)
    requires s.threads[t].pc == Wait(false, WLock) && s.threads[t].Arrivals() != s.sh.flips + 1
    ensures Ready(s.sh, s.threads[t])
  {
    hide Locks, ArrivedSet, Current, Flipping, Passing, HasToken;
    assert InStep(s.sh.flips, s.threads[t]);
  }

  predicate Free(sh: Shared) { !sh.locked && !sh.t1.locked && !sh.t2.locked }

  lemma FreeKinds(s: System, t: nat)
    requires Locks(s) && Free(s.sh) && t < s.N()
    ensures var pc := s.threads[t].pc;
            pc.Outside? || pc.BLock? || pc == Wait(false, WLock) || pc == Signal(false, GLock)
  {
    hide HasToken, TokenOut;
    assert !InBarrier(s.threads[t]) && !InT1(s.threads[t]) && !InT2(s.threads[t]);
  }

  lemma SomeoneReadyFree(s: System) returns (t: nat)
    requires Inv(s) && LastActive(s) && s.N() > 0 && Free(s.sh)
    ensures t < s.N() && Ready(s.sh, s.threads[t])
  {
    hide TokenIn, ArrivedSet, Current, InStep, Passing;
    forall u | 0 <= u < s.N()
      ensures var pc := s.threads[u].pc;
              pc.Outside? || pc.BLock? || pc == Wait(false, WLock) || pc == Signal(false, GLock)
    {
      FreeKinds(s, u);
    }
    if v :| 0 <= v < s.N() && !s.threads[v].pc.Wait? {
      t := v;
    } else {
      assert forall u :: 0 <= u < s.N() ==> !HasToken(s.threads[u]);
      assert !TokenOut(s.sh);
      assert exists u :: 0 <= u < s.N() && s.threads[u].Arrivals() != s.sh.flips + 1;
      t :| 0 <= t < s.N() && s.threads[t].Arrivals() != s.sh.flips + 1;
      BehindReady(s, t);
    }
  }

  /** In every state of every run some thread can act. */
  lemma SomeoneReady(s: System) returns (t: nat)
    requires Inv(s) && LastActive(s) && s.N() > 0
    ensures t < s.N() && Ready(s.sh, s.threads[t])
  {
    hide TokenIn, ArrivedSet, Current, InStep, Passing, Flipping, HasToken, TokenOut, Ready, LastActive;
    if s.sh.t1.locked {
      t :| 0 <= t < s.N() && InT1(s.threads[t]);
      HolderReady(s, t);
    } else if s.sh.t2.locked {
      t :| 0 <= t < s.N() && InT2(s.threads[t]);
      HolderReady(s, t);
    } else if s.sh.locked {
      t :| 0 <= t < s.N() && InBarrier(s.threads[t]);
      OwnerReady(s, t);
    } else {
      t := SomeoneReadyFree(s);
    }
  }

  lemma StepRank(s: System, t: nat)
    requires Inv(s) && t < s.N() && Ready(s.sh, s.threads[t])
    ensures var r := Step(s, t);
            r.sh.flips != s.sh.flips || TotalRank(r.sh, r.threads) < TotalRank(s.sh, s.threads)
  {
    hide TokenIn, ArrivedSet, Current, InStep, Locks, Ready, RankIn, Act, Flipping;
    var r := Step(s, t);
    ReadyProductive(s.sh, s.N(), s.threads[t]);
    if r.sh.flips == s.sh.flips {
      forall u | 0 <= u < s.N() && u != t
        ensures RankIn(r.sh, r.threads[u]) == RankIn(s.sh, s.threads[u])
      {
        ThreadsApart(s, t, u);
        ActRank(s.sh, s.N(), s.threads[t], s.threads[u]);
      }
      TotalLess(s.sh, s.threads, r.sh, r.threads, t);
    }
  }

  /** From every state of every run the threads can finish the round. */
  lemma {:induction false} RoundCompletes(s: System) returns (schedule: seq<nat>)
    requires Inv(s) && LastActive(s) && s.N() > 0
    ensures Schedules(schedule, s.N()) && Run(s, schedule).sh.flips == s.sh.flips + 1
    decreases TotalRank(s.sh, s.threads)
  {
    hide Inv, LastActive, Act, Ready, TotalRank;
    var t := SomeoneReady(s);
    StepInv(s, t);
    StepActive(s, t);
    StepArrivals(s, t);
    StepRank(s, t);
    var rest := [];
    if Step(s, t).sh.flips == s.sh.flips { rest := RoundCompletes(Step(s, t)); }
    schedule := [t] + rest;
    assert schedule[0] == t && schedule[1..] == rest;
    assert rest == [] ==> Run(Step(s, t), rest) == Step(s, t);
  }

  lemma {:induction false} RoundsComplete(s: System, k: nat) returns (schedule: seq<nat>)
    requires Inv(s) && LastActive(s) && s.N() > 0
    ensures Schedules(schedule, s.N()) && Run(s, schedule).sh.flips == s.sh.flips + k
    decreases k
  {
    hide Inv, LastActive, Step;
    schedule := [];
    if k > 0 {
      var first := RoundCompletes(s);
      RunInv(s, first);
      RunActive(s, first);
      var rest := RoundsComplete(Run(s, first), k - 1);
      schedule := first + rest;
      RunConcat(s, first, rest);
    }
  }

  lemma {:induction false} RunConcat(s: System, a: seq<nat>, b: seq<nat>)
    requires Schedules(a, s.N()) && Schedules(b, s.N())
    ensures Schedules(a + b, s.N()) && Run(s, a + b) == Run(Run(s, a), b)
    decreases |a|
  {
    hide Step;
    if a == [] {
      assert a + b == b;
    } else {
      assert (a + b)[0] == a[0] && (a + b)[1..] == a[1..] + b;
      RunConcat(Step(s, a[0]), a[1..], b);
    }
  }

  /** No run of any number of threads reaches a deadlock: it can be continued so that every
      thread completes as many more barrier calls as one likes. */
  lemma NeverStuck(n: nat, schedule: seq<nat>, k: nat) returns (more: seq<nat>)
    requires Schedules(schedule, n)
    ensures Schedules(schedule + more, n)
    ensures var s := Run(Init(n), schedule + more); forall t :: 0 <= t < n ==> s.threads[t].left >= k
  {
    hide Inv, LastActive, Run, Step;
    more := [];
    if n == 0 {
      assert schedule + more == schedule;
      return;
    }
    var s := Run(Init(n), schedule);
    ReachableInv(n, schedule);
    InitActive(n);
    RunActive(Init(n), schedule);
    more := RoundsComplete(s, k + 1);
    RunConcat(Init(n), schedule, more);
    RunInv(s, more);
    AllInStep(Run(s, more));
  }

  lemma AllInStep(s: System)
    requires Inv(s)
    ensures forall t :: 0 <= t < s.N() ==> s.threads[t].left + 1 >= s.sh.flips
  {
    hide Locks, TokenIn, ArrivedSet, Current, Flipping;
    forall t | 0 <= t < s.N() ensures s.threads[t].left + 1 >= s.sh.flips {
      assert InStep(s.sh.flips, s.threads[t]);
    }
  }

  lemma InitActive(n: nat)
    ensures Inv(Init(n)) && LastActive(Init(n))
  {
    hide Inv;
    InitInv(n);
    if n > 0 { assert Init(n).threads[0].Arrivals() == 0; }
  }
}

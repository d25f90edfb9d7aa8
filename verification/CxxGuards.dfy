/**
 The guards of C++ function-local statics: one mutex, one counting semaphore shared by all guards,
 and any number of tasks and guards. Every FreeRTOS call and every access to shared data is a step
 of its own, so the theorems range over all interleavings. The scheduler has been started.

 A guard has the two bytes of section 2.8 (Initialization Guard Variables) of the Itanium C++ ABI.
 A task may initialize several guards at once, innermost last: a constructor may reach another static.
 */
module CxxGuards {
  import opened Common

  type Task = nat
  type GuardId = nat

  /** Maximum count of the wait semaphore; giving it beyond that has no effect. */
  const SEM_MAX: nat := 0x7FFF_FFFF

  datatype Guard = Guard(ready: bool, pending: bool)

  /** Where a task is. The comment names the statement it executes next. */
  datatype PC =
    | Outside                         // user code
    | AcqLock(g: GuardId)             // take the mutex in acquire
    | AcqTest(g: GuardId)             // test pending
    | WaitUnlock(g: GuardId)          // give the mutex at the head of the wait loop
    | WaitToken(g: GuardId)           // take the wait semaphore
    | WaitLock(g: GuardId)            // take the mutex again
    | WaitTest(g: GuardId)            // test pending at the foot of the wait loop
    | AcqDecide(g: GuardId)           // test ready, maybe set pending
    | AcqUnlock                       // give the mutex and return
    | EndLock(g: GuardId, ok: bool)   // take the mutex in release (ok) or abort (!ok)
    | EndClear(g: GuardId, ok: bool)  // assert, clear pending, maybe set ready, read the waiter count
    | Signal(left: nat)               // give the wait semaphore `left` more times
    | EndUnlock                       // give the mutex and return

  datatype TaskState = TaskState(pc: PC, stack: seq<GuardId>)

  datatype State = State(
    holder: Option<Task>,             // who holds s_static_init_mutex
    tokens: nat,                      // count of s_static_init_wait_sem
    waiting: nat,                     // s_static_init_waiting_count
    guards: map<GuardId, Guard>,
    tasks: map<Task, TaskState>)

  /** What user code does next. */
  datatype Call = Acquire(g: GuardId) | Release | Abort

  datatype Outcome = Blocked | AssertFailed | Next(s: State)

  function At(s: State, g: GuardId): Guard {
    if g in s.guards then s.guards[g] else Guard(false, false)
  }

  function Goto(s: State, t: Task, pc: PC): State
    requires t in s.tasks
  {
    s.(tasks := s.tasks[t := s.tasks[t].(pc := pc)])
  }

  function Lock(s: State, t: Task, pc: PC): Outcome
    requires t in s.tasks
  {
    if s.holder.Some? then Blocked else Next(Goto(s.(holder := Some(t)), t, pc))
  }

  function Unlock(s: State, t: Task, pc: PC): Outcome
    requires t in s.tasks
  {
    if s.holder != Some(t) then AssertFailed else Next(Goto(s.(holder := None), t, pc))
  }

  /** One step of task `t`; `c` matters only while `t` runs user code. */
  function Step(s: State, t: Task, c: Call): Outcome
    requires t in s.tasks
  {
    var me := s.tasks[t];
    match me.pc
    case Outside =>
      if c.Acquire? then Next(Goto(s, t, AcqLock(c.g)))
      else if me.stack == [] then Blocked
      else Next(Goto(s, t, EndLock(me.stack[|me.stack| - 1], c.Release?)))
    case AcqLock(g) => Lock(s, t, AcqTest(g))
    case AcqTest(g) =>
      if At(s, g).pending then Next(Goto(s.(waiting := s.waiting + 1), t, WaitUnlock(g)))
      else Next(Goto(s, t, AcqDecide(g)))
    case WaitUnlock(g) => Unlock(s, t, WaitToken(g))
    case WaitToken(g) =>
      if s.tokens == 0 then Blocked else Next(Goto(s.(tokens := s.tokens - 1), t, WaitLock(g)))
    case WaitLock(g) => Lock(s, t, WaitTest(g))
    case WaitTest(g) =>
      if At(s, g).pending then Next(Goto(s, t, WaitUnlock(g)))
      else if s.waiting == 0 then AssertFailed
      else Next(Goto(s.(waiting := s.waiting - 1), t, AcqDecide(g)))
    case AcqDecide(g) =>
      if At(s, g).ready then Next(Goto(s, t, AcqUnlock))
      else
        Next(s.(guards := s.guards[g := At(s, g).(pending := true)],
             tasks := s.tasks[t := TaskState(AcqUnlock, me.stack + [g])]))
    case AcqUnlock => Unlock(s, t, Outside)
    case EndLock(g, ok) => Lock(s, t, EndClear(g, ok))
    case EndClear(g, ok) =>
      if !At(s, g).pending || (!ok && At(s, g).ready) || me.stack == [] then AssertFailed
      else
        Next(s.(guards := s.guards[g := Guard(ok || At(s, g).ready, false)],
             tasks := s.tasks[t := TaskState(Signal(s.waiting), me.stack[..|me.stack| - 1])]))
    case Signal(left) =>
      if left == 0 then Next(Goto(s, t, EndUnlock))
      else Next(Goto(s.(tokens := if s.tokens < SEM_MAX then s.tokens + 1 else s.tokens), t, Signal(left - 1)))
    case EndUnlock => Unlock(s, t, Outside)
  }

  type Schedule = seq<(Task, Call)>

  /** Runs a schedule; stops at the first step that blocks or fails an assertion. */
  function Exec(s: State, sched: Schedule): Outcome
    decreases |sched|
  {
    if sched == [] then Next(s)
    else if sched[0].0 !in s.tasks then Blocked
    else
      match Step(s, sched[0].0, sched[0].1)
      case Next(s1) => Exec(s1, sched[1..])
      case other => other
  }

  function Init(tasks: set<Task>): State {
    State(None, 0, 0, map[], map t | t in tasks :: TaskState(Outside, []))
  }

  // ---------------------------------------------------------------------------------------------
  // The invariant
  // ---------------------------------------------------------------------------------------------

  predicate Holds(pc: PC) {
    !(pc.Outside? || pc.AcqLock? || pc.WaitToken? || pc.WaitLock? || pc.EndLock?)
  }

  predicate InLoop(pc: PC) {
    pc.WaitUnlock? || pc.WaitToken? || pc.WaitLock? || pc.WaitTest?
  }

  /** Still has to take a token before it can look at its guard again. */
  predicate Needs(pc: PC) {
    pc.WaitUnlock? || pc.WaitToken?
  }

  function InLoopOf(m: map<Task, TaskState>): set<Task> {
    set t | t in m && InLoop(m[t].pc)
  }

  function NeedyOf(m: map<Task, TaskState>): set<Task> {
    set t | t in m && Needs(m[t].pc)
  }

  function Waiters(s: State): set<Task> {
    InLoopOf(s.tasks)
  }

  function Needy(s: State): set<Task> {
    NeedyOf(s.tasks)
  }

  /** Tokens the current holder of the mutex is still going to give. */
  function Promised(s: State): nat {
    if s.holder.Some? && s.holder.value in s.tasks && s.tasks[s.holder.value].pc.Signal?
    then s.tasks[s.holder.value].pc.left else 0
  }

  ghost predicate NoneP(s: State) {
    forall g :: !At(s, g).pending
  }

  predicate Initializes(s: State, t: Task, g: GuardId) {
    t in s.tasks && g in s.tasks[t].stack
  }

  ghost predicate MutexInv(s: State) {
    && (forall t | t in s.tasks :: Holds(s.tasks[t].pc) <==> s.holder == Some(t))
    && (s.holder.Some? ==> s.holder.value in s.tasks)
  }

  ghost predicate OwnerInv(s: State) {
    && (forall g :: At(s, g).pending ==> !At(s, g).ready)
    && (forall g :: At(s, g).pending ==> exists t :: Initializes(s, t, g))
    && (forall t, g :: Initializes(s, t, g) ==> At(s, g).pending)
    && (forall t, u, g :: Initializes(s, t, g) && Initializes(s, u, g) ==> t == u)
    && (forall t | t in s.tasks :: Distinct(s.tasks[t].stack))
  }

  ghost predicate Distinct(st: seq<GuardId>) {
    forall i, j | 0 <= i < j < |st| :: st[i] != st[j]
  }

  /** A task ending an initialization ends its own innermost one; a task about to decide sees no pending guard. */
  predicate OwnsAtPc(s: State, t: Task)
    requires t in s.tasks
  {
    var me := s.tasks[t];
    if me.pc.EndLock? || me.pc.EndClear? then
      me.stack != [] && me.stack[|me.stack| - 1] == me.pc.g && At(s, me.pc.g) == Guard(false, true)
    else me.pc.AcqDecide? ==> !At(s, me.pc.g).pending
  }

  predicate InnermostPending(s: State, t: Task)
    requires t in s.tasks
  {
    var st := s.tasks[t].stack;
    st != [] ==> At(s, st[|st| - 1]) == Guard(false, true)
  }

  /** Nobody sleeps on the semaphore for ever once no initialization is in progress. */
  ghost predicate TokenInv(s: State) {
    NoneP(s) ==> s.tokens + Promised(s) >= |Needy(s)|
  }

  ghost predicate Inv(s: State) {
    && |s.tasks| <= SEM_MAX
    && MutexInv(s)
    && OwnerInv(s)
    && (forall t | t in s.tasks :: OwnsAtPc(s, t))
    && s.waiting == |Waiters(s)|
    && TokenInv(s)
  }

  // ---------------------------------------------------------------------------------------------
  // Preservation, one conjunct at a time
  // ---------------------------------------------------------------------------------------------

  /** A step touches the record of the stepping task only. */
  lemma StepIsLocal(s: State, t: Task, c: Call, s1: State)
    requires t in s.tasks && Step(s, t, c) == Next(s1)
    ensures t in s1.tasks && s1.tasks == s.tasks[t := s1.tasks[t]]
  {
  }

  /** No assertion of the source fires, and the stepping task holds the mutex exactly where its program says. */
  lemma StepLocks(s: State, t: Task, c: Call)
    requires t in s.tasks && OwnsAtPc(s, t) && (Holds(s.tasks[t].pc) <==> s.holder == Some(t))
    requires s.tasks[t].pc.WaitTest? ==> s.waiting > 0
    ensures Step(s, t, c) != AssertFailed
    ensures Step(s, t, c).Next? ==>
              (var s1 := Step(s, t, c).s;
               t in s1.tasks && (Holds(s1.tasks[t].pc) <==> s1.holder == Some(t)) &&
               (s1.holder == s.holder || (s.holder == None && s1.holder == Some(t)) || (s.holder == Some(t) && s1.holder == None)))
  {
  }

  lemma KeepsMutex(s: State, t: Task, c: Call, s1: State)
    requires t in s.tasks && Step(s, t, c) == Next(s1) && MutexInv(s) && OwnsAtPc(s, t)
    requires s.tasks[t].pc.WaitTest? ==> s.waiting > 0
    ensures MutexInv(s1)
  {
    StepLocks(s, t, c);
    StepIsLocal(s, t, c, s1);
  }

  lemma InnermostIsPending(s: State, t: Task)
    requires t in s.tasks && OwnerInv(s)
    ensures InnermostPending(s, t)
  {
    var st := s.tasks[t].stack;
    if st != [] {
      assert Initializes(s, t, st[|st| - 1]);
    }
  }

  /** How a step changes the guards, the stacks and the program position together. */
  lemma StepGuards(s: State, t: Task, c: Call, s1: State)
    requires t in s.tasks && Step(s, t, c) == Next(s1) && OwnsAtPc(s, t) && InnermostPending(s, t)
    ensures t in s1.tasks && OwnsAtPc(s1, t)
    ensures
      var me, me1 := s.tasks[t], s1.tasks[t];
      if me.pc.AcqDecide? && !At(s, me.pc.g).ready then
        s1.guards == s.guards[me.pc.g := Guard(false, true)] && me1.stack == me.stack + [me.pc.g]
      else if me.pc.EndClear? then
        s1.guards == s.guards[me.pc.g := Guard(me.pc.ok || At(s, me.pc.g).ready, false)] &&
        me.stack != [] && me1.stack == me.stack[..|me.stack| - 1]
      else
        s1.guards == s.guards && me1.stack == me.stack
  {
  }

  lemma KeepsOwner(s: State, t: Task, c: Call, s1: State)
    requires t in s.tasks && Step(s, t, c) == Next(s1) && OwnerInv(s) && OwnsAtPc(s, t)
    ensures OwnerInv(s1)
  {
    StepIsLocal(s, t, c, s1);
    InnermostIsPending(s, t);
    StepGuards(s, t, c, s1);
    var me := s.tasks[t];
    if me.pc.AcqDecide? && !At(s, me.pc.g).ready {
      GrowsOwner(s, t, me.pc.g, s1);
    } else if me.pc.EndClear? {
      ShrinksOwner(s, t, me.pc.g, s1);
    } else {
      SameOwner(s, t, s1);
    }
  }

  lemma SameOwner(s: State, t: Task, s1: State)
    requires t in s.tasks && t in s1.tasks && s1.tasks == s.tasks[t := s1.tasks[t]]
    requires s1.guards == s.guards && s1.tasks[t].stack == s.tasks[t].stack && OwnerInv(s)
    ensures OwnerInv(s1)
  {
    assert forall u, g :: Initializes(s1, u, g) <==> Initializes(s, u, g);
    assert forall g :: At(s1, g) == At(s, g);
    assert forall u | u in s1.tasks :: s1.tasks[u].stack == s.tasks[u].stack;
    assert forall u | u in s1.tasks :: Distinct(s.tasks[u].stack);
  }

  lemma GrowsOwner(s: State, t: Task, g0: GuardId, s1: State)
    requires t in s.tasks && t in s1.tasks && s1.tasks == s.tasks[t := s1.tasks[t]]
    requires OwnerInv(s) && !At(s, g0).pending
    requires s1.guards == s.guards[g0 := Guard(false, true)] && s1.tasks[t].stack == s.tasks[t].stack + [g0]
    ensures OwnerInv(s1)
  {
    assert forall u :: !Initializes(s, u, g0);
    assert forall u, g :: Initializes(s1, u, g) <==> Initializes(s, u, g) || (u == t && g == g0);
    assert forall g :: At(s1, g) == if g == g0 then Guard(false, true) else At(s, g);
    assert Initializes(s1, t, g0);
    forall g | At(s1, g).pending ensures exists u :: Initializes(s1, u, g) {
      if g != g0 {
        var u :| Initializes(s, u, g);
        assert Initializes(s1, u, g);
      }
    }
    assert !Initializes(s, t, g0) && Distinct(s.tasks[t].stack);
  }

  lemma ShrinksOwner(s: State, t: Task, g0: GuardId, s1: State)
    requires t in s.tasks && t in s1.tasks && s1.tasks == s.tasks[t := s1.tasks[t]] && OwnerInv(s)
    requires var st := s.tasks[t].stack; st != [] && st[|st| - 1] == g0 && s1.tasks[t].stack == st[..|st| - 1]
    requires g0 in s1.guards && !s1.guards[g0].pending && s1.guards == s.guards[g0 := s1.guards[g0]]
    ensures OwnerInv(s1)
  {
    var st := s.tasks[t].stack;
    assert Distinct(st) && Initializes(s, t, g0);
    LastLeaves(st);
    assert forall u, g :: Initializes(s1, u, g) <==> Initializes(s, u, g) && g != g0;
    assert forall g :: At(s1, g) == if g == g0 then s1.guards[g0] else At(s, g);
    forall g | At(s1, g).pending ensures exists u :: Initializes(s1, u, g) {
      var u :| Initializes(s, u, g);
      assert Initializes(s1, u, g);
    }
    assert forall u | u in s1.tasks && u != t :: Distinct(s.tasks[u].stack);
  }

  lemma LastLeaves(st: seq<GuardId>)
    requires st != [] && Distinct(st)
    ensures Distinct(st[..|st| - 1])
    ensures forall g :: g in st[..|st| - 1] <==> g in st && g != st[|st| - 1]
  {
    assert st == st[..|st| - 1] + [st[|st| - 1]];
  }

  lemma KeepsPc(s: State, t: Task, c: Call, s1: State)
    requires t in s.tasks && Step(s, t, c) == Next(s1) && MutexInv(s) && OwnerInv(s)
    requires forall u | u in s.tasks :: OwnsAtPc(s, u)
    ensures forall u | u in s1.tasks :: OwnsAtPc(s1, u)
  {
    StepIsLocal(s, t, c, s1);
    InnermostIsPending(s, t);
    StepGuards(s, t, c, s1);
    forall u | u in s1.tasks && u != t ensures OwnsAtPc(s1, u) {
      assert OwnsAtPc(s, u);
      if s.tasks[u].pc.EndLock? || s.tasks[u].pc.EndClear? {
        OthersGuardStays(s, t, c, s1, u, s.tasks[u].pc.g);
      } else if s.tasks[u].pc.AcqDecide? {
        assert s.holder == Some(u);
      }
    }
  }

  /** A guard another task is initializing is not changed by a step of `t`. */
  lemma OthersGuardStays(s: State, t: Task, c: Call, s1: State, u: Task, g: GuardId)
    requires t in s.tasks && Step(s, t, c) == Next(s1) && OwnerInv(s) && OwnsAtPc(s, t)
    requires u != t && Initializes(s, u, g)
    ensures At(s1, g) == At(s, g)
  {
    InnermostIsPending(s, t);
    StepGuards(s, t, c, s1);
    if s.tasks[t].pc.EndClear? {
      assert Initializes(s, t, s.tasks[t].pc.g);
    }
  }

  lemma CountsOne(m: map<Task, TaskState>, t: Task, ts: TaskState)
    requires t in m
    ensures InLoopOf(m[t := ts]) == if InLoop(ts.pc) then InLoopOf(m) + {t} else InLoopOf(m) - {t}
    ensures NeedyOf(m[t := ts]) == if Needs(ts.pc) then NeedyOf(m) + {t} else NeedyOf(m) - {t}
    ensures t in InLoopOf(m) <==> InLoop(m[t].pc)
    ensures t in NeedyOf(m) <==> Needs(m[t].pc)
  {
  }

  /** How a step changes the waiter count and the semaphore. */
  lemma StepCounts(s: State, t: Task, c: Call, s1: State)
    requires t in s.tasks && Step(s, t, c) == Next(s1)
    ensures t in s1.tasks
    ensures s1.waiting - Int(InLoop(s1.tasks[t].pc)) == s.waiting - Int(InLoop(s.tasks[t].pc))
  {
  }

  function Int(b: bool): int { if b then 1 else 0 }

  lemma KeepsCount(s: State, t: Task, c: Call, s1: State)
    requires t in s.tasks && Step(s, t, c) == Next(s1) && s.waiting == |Waiters(s)|
    ensures s1.waiting == |Waiters(s1)|
  {
    StepIsLocal(s, t, c, s1);
    StepCounts(s, t, c, s1);
    CountsOne(s.tasks, t, s1.tasks[t]);
  }

  /** What a step does to the promise of tokens, when no guard is pending afterwards. */
  lemma StepTokens(s: State, t: Task, c: Call, s1: State)
    requires t in s.tasks && Step(s, t, c) == Next(s1) && OwnsAtPc(s, t)
    requires Holds(s.tasks[t].pc) <==> s.holder == Some(t)
    requires NoneP(s1)
    ensures t in s1.tasks
    ensures s.tasks[t].pc.EndClear? ==> Promised(s1) == s.waiting
    ensures !s.tasks[t].pc.EndClear? ==>
              s1.tokens + Promised(s1) - Int(Needs(s1.tasks[t].pc)) == s.tokens + Promised(s) - Int(Needs(s.tasks[t].pc))
              || s1.tokens >= SEM_MAX
  {
    var me := s.tasks[t];
    if me.pc.AcqDecide? || me.pc.AcqTest? || me.pc.WaitTest? {
      assert !At(s1, me.pc.g).pending;
    }
  }

  lemma SubsetSize<T>(a: set<T>, b: set<T>)
    requires a <= b
    ensures |a| <= |b|
  {
    assert b == a + (b - a);
  }

  lemma KeepsTokens(s: State, t: Task, c: Call, s1: State)
    requires t in s.tasks && Step(s, t, c) == Next(s1) && OwnsAtPc(s, t)
    requires Holds(s.tasks[t].pc) <==> s.holder == Some(t)
    requires |s.tasks.Keys| <= SEM_MAX && s.waiting == |Waiters(s)| && TokenInv(s)
    ensures TokenInv(s1)
  {
    if NoneP(s1) {
      StepIsLocal(s, t, c, s1);
      StepTokens(s, t, c, s1);
      NeedyMoves(s.tasks, t, s1.tasks[t]);
      if !s.tasks[t].pc.EndClear? {
        NonePendingBefore(s, t, c, s1);
      }
    }
  }

  lemma NeedyMoves(m: map<Task, TaskState>, t: Task, ts: TaskState)
    requires t in m
    ensures |NeedyOf(m[t := ts])| - Int(Needs(ts.pc)) == |NeedyOf(m)| - Int(Needs(m[t].pc))
    ensures |NeedyOf(m)| <= |InLoopOf(m)|
    ensures |NeedyOf(m[t := ts])| <= |m.Keys|
  {
    CountsOne(m, t, ts);
    SubsetSize(NeedyOf(m), InLoopOf(m));
    assert m[t := ts].Keys == m.Keys;
    SubsetSize(NeedyOf(m[t := ts]), m.Keys);
  }

  /** Only clearing a guard can bring about a state without pending guards. */
  lemma NonePendingBefore(s: State, t: Task, c: Call, s1: State)
    requires t in s.tasks && Step(s, t, c) == Next(s1) && NoneP(s1) && !s.tasks[t].pc.EndClear?
    ensures NoneP(s)
  {
    var me := s.tasks[t];
    if me.pc.AcqDecide? {
      assert !At(s1, me.pc.g).pending;
    }
    assert s1.guards == s.guards;
    assert forall g :: At(s1, g) == At(s, g);
  }

  lemma KeepsInv(s: State, t: Task, c: Call)
    requires Inv(s) && t in s.tasks
    ensures Step(s, t, c) != AssertFailed
    ensures Step(s, t, c).Next? ==> Inv(Step(s, t, c).s)
  {
    assert OwnsAtPc(s, t);
    if s.tasks[t].pc.WaitTest? {
      assert t in Waiters(s);
    }
    StepLocks(s, t, c);
    if Step(s, t, c).Next? {
      var s1 := Step(s, t, c).s;
      StepIsLocal(s, t, c, s1);
      assert s1.tasks.Keys == s.tasks.Keys;
      assert |s1.tasks| == |s1.tasks.Keys| && |s.tasks| == |s.tasks.Keys|;
      KeepsMutex(s, t, c, s1);
      KeepsOwner(s, t, c, s1);
      KeepsPc(s, t, c, s1);
      KeepsCount(s, t, c, s1);
      KeepsTokens(s, t, c, s1);
    }
  }

  /** The assertions that Safety proves idle would fire: where the mutex is not held, or a guard is not as it should be. */
  lemma AssertionsBite(s: State, t: Task, c: Call)
    requires t in s.tasks
    ensures var pc := s.tasks[t].pc;
            Step(s, t, c) == AssertFailed <==>
            || ((pc.WaitUnlock? || pc.AcqUnlock? || pc.EndUnlock?) && s.holder != Some(t))
            || (pc.WaitTest? && !At(s, pc.g).pending && s.waiting == 0)
            || (pc.EndClear? && (!At(s, pc.g).pending || (!pc.ok && At(s, pc.g).ready) || s.tasks[t].stack == []))
  {
  }

  /** The semaphore never exceeds its maximum; giving it there has no effect. */
  lemma StepCaps(s: State, t: Task, c: Call, s1: State)
    requires t in s.tasks && Step(s, t, c) == Next(s1) && s.tokens <= SEM_MAX
    ensures s1.tokens <= SEM_MAX
    ensures s.tasks[t].pc.Signal? && s.tasks[t].pc.left > 0 ==> s1.tokens == Min(s.tokens + 1, SEM_MAX)
  {
  }

  // ---------------------------------------------------------------------------------------------
  // Theorems about all runs
  // ---------------------------------------------------------------------------------------------

  lemma {:induction false} RunKeepsInv(s: State, sched: Schedule)
    requires Inv(s)
    ensures Exec(s, sched) != AssertFailed
    ensures Exec(s, sched).Next? ==> Inv(Exec(s, sched).s)
    decreases |sched|
  {
    if sched != [] && sched[0].0 in s.tasks {
      KeepsInv(s, sched[0].0, sched[0].1);
      var out := Step(s, sched[0].0, sched[0].1);
      if out.Next? {
        RunKeepsInv(out.s, sched[1..]);
      }
    }
  }

  lemma InitInv(tasks: set<Task>)
    requires |tasks| <= SEM_MAX
    ensures Inv(Init(tasks))
  {
    var s := Init(tasks);
    assert s.tasks.Keys == tasks && |s.tasks| == |s.tasks.Keys|;
    assert forall t, g :: !Initializes(s, t, g);
    assert Waiters(s) == {} && Needy(s) == {};
  }

  /** Safety over every interleaving of any number of tasks and guards, from the initial state. */
  lemma Safety(tasks: set<Task>, sched: Schedule)
    requires |tasks| <= SEM_MAX
    ensures Exec(Init(tasks), sched) != AssertFailed
    ensures Exec(Init(tasks), sched).Next? ==>
              (var s := Exec(Init(tasks), sched).s;
               && (forall g :: At(s, g).pending <==> exists t :: Initializes(s, t, g))
               && (forall t, u, g :: Initializes(s, t, g) && Initializes(s, u, g) ==> t == u)
               && (forall g :: !(At(s, g).ready && At(s, g).pending))
               && (forall t, u | t in s.tasks && u in s.tasks && Holds(s.tasks[t].pc) && Holds(s.tasks[u].pc) :: t == u)
               && s.waiting == |Waiters(s)|
               && (NoneP(s) ==> s.tokens + Promised(s) >= |Needy(s)|))
  {
    InitInv(tasks);
    RunKeepsInv(Init(tasks), sched);
  }

  /** A guard's ready byte never falls. */
  lemma {:induction false} ReadyStays(s: State, sched: Schedule, g: GuardId)
    requires Inv(s) && Exec(s, sched).Next? && At(s, g).ready
    ensures At(Exec(s, sched).s, g).ready
    decreases |sched|
  {
    if sched != [] {
      var t, c := sched[0].0, sched[0].1;
      var s1 := Step(s, t, c).s;
      KeepsInv(s, t, c);
      ReadyStep(s, t, c, s1, g);
      ReadyStays(s1, sched[1..], g);
    }
  }

  predicate Completes(s: State, t: Task, g: GuardId)
    requires t in s.tasks
  {
    s.tasks[t].pc == EndClear(g, true)
  }

  /** Only a release makes a guard ready, and it does so only to a guard that is not ready yet. */
  lemma ReadyStep(s: State, t: Task, c: Call, s1: State, g: GuardId)
    requires Inv(s) && t in s.tasks && Step(s, t, c) == Next(s1)
    ensures At(s1, g).ready <==> At(s, g).ready || Completes(s, t, g)
    ensures Completes(s, t, g) ==> !At(s, g).ready
  {
    assert OwnsAtPc(s, t);
    InnermostIsPending(s, t);
    StepGuards(s, t, c, s1);
  }

  /** How many initializations of `g` a schedule completes with release. */
  function Completions(s: State, sched: Schedule, g: GuardId): nat
    decreases |sched|
  {
    if sched == [] || sched[0].0 !in s.tasks then 0
    else
      match Step(s, sched[0].0, sched[0].1)
      case Next(s1) => (if Completes(s, sched[0].0, g) then 1 else 0) + Completions(s1, sched[1..], g)
      case _ => 0
  }

  /** At most one initialization of each static ever completes. */
  lemma {:induction false} InitializedAtMostOnce(s: State, sched: Schedule, g: GuardId)
    requires Inv(s)
    ensures Completions(s, sched, g) <= if At(s, g).ready then 0 else 1
    decreases |sched|
  {
    if sched != [] && sched[0].0 in s.tasks {
      var t, c := sched[0].0, sched[0].1;
      KeepsInv(s, t, c);
      if Step(s, t, c).Next? {
        ReadyStep(s, t, c, Step(s, t, c).s, g);
        InitializedAtMostOnce(Step(s, t, c).s, sched[1..], g);
      }
    }
  }

  // ---------------------------------------------------------------------------------------------
  // No waiter is stuck
  // ---------------------------------------------------------------------------------------------

  predicate InCall(s: State, t: Task) {
    t in s.tasks && !s.tasks[t].pc.Outside?
  }

  /** While no guard is pending and some task is inside a guard function, one such task can run. */
  lemma Progress(s: State, u: Task) returns (t: Task)
    requires Inv(s) && NoneP(s) && InCall(s, u)
    ensures InCall(s, t) && forall c :: Step(s, t, c).Next?
  {
    t := if s.holder.Some? then s.holder.value else u;
    if s.tasks[t].pc.WaitToken? {
      assert t in Needy(s);
    }
    forall c ensures Step(s, t, c).Next? {
      KeepsInv(s, t, c);
    }
  }

  /** Bounds the steps a task can still take inside its guard function. */
  function Rank(pc: PC): nat {
    match pc
    case Outside => 0
    case AcqLock(_) => 8
    case AcqTest(_) => 7
    case WaitUnlock(_) => 6
    case WaitToken(_) => 5
    case WaitLock(_) => 4
    case WaitTest(_) => 3
    case AcqDecide(_) => 2
    case AcqUnlock => 1
    case EndLock(_, _) => 0
    case EndClear(_, _) => 0
    case Signal(left) => 2 + left
    case EndUnlock => 1
  }

  ghost function Sum(m: map<Task, TaskState>, ts: set<Task>): nat
    requires ts <= m.Keys
  {
    if ts == {} then 0 else var t :| t in ts; Rank(m[t].pc) + Sum(m, ts - {t})
  }

  lemma {:induction false} SumTakesOut(m: map<Task, TaskState>, ts: set<Task>, t: Task)
    requires ts <= m.Keys && t in ts
    ensures Sum(m, ts) == Rank(m[t].pc) + Sum(m, ts - {t})
    decreases ts
  {
    var u :| u in ts && Sum(m, ts) == Rank(m[u].pc) + Sum(m, ts - {u});
    if u != t {
      SumTakesOut(m, ts - {u}, t);
      SumTakesOut(m, ts - {t}, u);
      assert ts - {u} - {t} == ts - {t} - {u};
    }
  }

  lemma {:induction false} SumIgnores(m: map<Task, TaskState>, m1: map<Task, TaskState>, ts: set<Task>)
    requires ts <= m.Keys && ts <= m1.Keys && forall t | t in ts :: m[t] == m1[t]
    ensures Sum(m, ts) == Sum(m1, ts)
    decreases ts
  {
    if ts != {} {
      var u :| u in ts && Sum(m, ts) == Rank(m[u].pc) + Sum(m, ts - {u});
      SumIgnores(m, m1, ts - {u});
      SumTakesOut(m1, ts, u);
    }
  }

  ghost function TotalRank(s: State): nat {
    Sum(s.tasks, s.tasks.Keys)
  }

  lemma StepLowersRank(s: State, t: Task, c: Call, s1: State)
    requires t in s.tasks && Step(s, t, c) == Next(s1) && NoneP(s)
    requires !s.tasks[t].pc.Outside? && !s.tasks[t].pc.EndLock? && !s.tasks[t].pc.EndClear?
    ensures t in s1.tasks && Rank(s1.tasks[t].pc) < Rank(s.tasks[t].pc)
  {
    if s.tasks[t].pc.AcqTest? || s.tasks[t].pc.WaitTest? {
      assert !At(s, s.tasks[t].pc.g).pending;
    }
  }

  lemma CallLowersTotal(s: State, t: Task, c: Call, s1: State)
    requires Inv(s) && NoneP(s) && InCall(s, t) && Step(s, t, c) == Next(s1)
    ensures TotalRank(s1) < TotalRank(s)
  {
    assert OwnsAtPc(s, t);
    assert forall g :: At(s, g) != Guard(false, true);
    StepLowersRank(s, t, c, s1);
    StepIsLocal(s, t, c, s1);
    assert s1.tasks.Keys == s.tasks.Keys;
    SumTakesOut(s.tasks, s.tasks.Keys, t);
    SumTakesOut(s1.tasks, s.tasks.Keys, t);
    SumIgnores(s.tasks, s1.tasks, s.tasks.Keys - {t});
  }

  /** A run inside the guard functions along which no guard is pending before any step. */
  ghost predicate QuietRun(s: State, sched: Schedule)
    decreases |sched|
  {
    sched != [] ==>
      && NoneP(s) && InCall(s, sched[0].0)
      && Step(s, sched[0].0, sched[0].1).Next?
      && QuietRun(Step(s, sched[0].0, sched[0].1).s, sched[1..])
  }

  /** However the scheduler picks, such a run is short ... */
  lemma {:induction false} QuietRunsEnd(s: State, sched: Schedule)
    requires Inv(s) && QuietRun(s, sched)
    ensures |sched| <= TotalRank(s)
    decreases |sched|
  {
    if sched != [] {
      var t, c := sched[0].0, sched[0].1;
      KeepsInv(s, t, c);
      CallLowersTotal(s, t, c, Step(s, t, c).s);
      QuietRunsEnd(Step(s, t, c).s, sched[1..]);
    }
  }

  /** ... and when it cannot go on, every task has left or some task is initializing again (after an abort). */
  lemma NoWaiterIsStuck(s: State, sched: Schedule)
    requires Inv(s) && QuietRun(s, sched)
    requires forall t, c :: !QuietRun(s, sched + [(t, c)])
    ensures Exec(s, sched).Next?
    ensures var s1 := Exec(s, sched).s; !NoneP(s1) || forall t :: !InCall(s1, t)
  {
    QuietRunExec(s, sched);
    RunKeepsInv(s, sched);
    var s1 := Exec(s, sched).s;
    if NoneP(s1) {
      forall u ensures !InCall(s1, u) {
        if InCall(s1, u) {
          var t := Progress(s1, u);
          QuietRunGrows(s, sched, t, Release);
          assert false;
        }
      }
    }
  }

  lemma {:induction false} QuietRunExec(s: State, sched: Schedule)
    requires QuietRun(s, sched)
    ensures Exec(s, sched).Next?
    decreases |sched|
  {
    if sched != [] {
      QuietRunExec(Step(s, sched[0].0, sched[0].1).s, sched[1..]);
    }
  }

  lemma {:induction false} QuietRunGrows(s: State, sched: Schedule, t: Task, c: Call)
    requires QuietRun(s, sched) && Exec(s, sched).Next?
    requires var s1 := Exec(s, sched).s; NoneP(s1) && InCall(s1, t) && Step(s1, t, c).Next?
    ensures QuietRun(s, sched + [(t, c)])
    decreases |sched|
  {
    var longer := sched + [(t, c)];
    if sched == [] {
      assert longer[1..] == [];
    } else {
      assert longer[0] == sched[0] && longer[1..] == sched[1..] + [(t, c)];
      QuietRunGrows(Step(s, sched[0].0, sched[0].1).s, sched[1..], t, c);
    }
  }

  // ---------------------------------------------------------------------------------------------
  // Tokens are shared: the promise does not hold guard by guard
  // ---------------------------------------------------------------------------------------------

  lemma {:induction false} ExecAppend(s: State, a: Schedule, b: Schedule)
    requires Exec(s, a).Next?
    ensures Exec(s, a + b) == Exec(Exec(s, a).s, b)
    decreases |a|
  {
    if a == [] {
      assert a + b == b;
    } else {
      assert (a + b)[0] == a[0] && (a + b)[1..] == a[1..] + b;
      ExecAppend(Step(s, a[0].0, a[0].1).s, a[1..], b);
    }
  }

  lemma Then(s: State, a: Schedule, s1: State, b: Schedule, s2: State)
    requires Exec(s, a) == Next(s1) && Exec(s1, b) == Next(s2)
    ensures Exec(s, a + b) == Next(s2)
  {
    ExecAppend(s, a, b);
  }

  function Times(n: nat, t: Task, c: Call): Schedule {
    seq(n, i => (t, c))
  }

  /** `n` undisturbed steps of task `t` lead from `s` to `s1`. */
  ghost predicate Leads(s: State, t: Task, c: Call, n: nat, s1: State) {
    forall m: nat :: Exec(s, Times(n + m, t, c)) == Exec(s1, Times(m, t, c))
  }

  lemma LeadsOne(s: State, t: Task, c: Call, s1: State)
    requires t in s.tasks && Step(s, t, c) == Next(s1)
    ensures Leads(s, t, c, 1, s1)
  {
    forall m: nat ensures Exec(s, Times(1 + m, t, c)) == Exec(s1, Times(m, t, c)) {
      assert Times(1 + m, t, c)[1..] == Times(m, t, c);
    }
  }

  lemma LeadsOn(s: State, t: Task, c: Call, n: nat, s1: State, k: nat, s2: State)
    requires Leads(s, t, c, n, s1) && Leads(s1, t, c, k, s2)
    ensures Leads(s, t, c, n + k, s2)
  {
    forall m: nat ensures Exec(s, Times(n + k + m, t, c)) == Exec(s2, Times(m, t, c)) {
      assert Exec(s, Times(n + (k + m), t, c)) == Exec(s1, Times(k + m, t, c));
    }
  }

  lemma LeadsThere(s: State, t: Task, c: Call, n: nat, s1: State)
    requires Leads(s, t, c, n, s1)
    ensures Exec(s, Times(n, t, c)) == Next(s1)
  {
    assert Exec(s, Times(n + 0, t, c)) == Exec(s1, Times(0, t, c));
  }

  /** The state with another task state of `t`. */
  function With(s: State, t: Task, pc: PC, stack: seq<GuardId>): State {
    s.(tasks := s.tasks[t := TaskState(pc, stack)])
  }

  lemma WithTwice(s: State, t: Task, pc: PC, stack: seq<GuardId>, pc1: PC, stack1: seq<GuardId>)
    ensures With(With(s, t, pc, stack), t, pc1, stack1) == With(s, t, pc1, stack1)
  {
  }

  /** One step that does not touch the stack. */
  lemma Goes(s: State, t: Task, c: Call, pc: PC, stack: seq<GuardId>, s1: State, pc1: PC)
    requires Step(With(s, t, pc, stack), t, c) == Next(Goto(With(s1, t, pc, stack), t, pc1))
    ensures Leads(With(s, t, pc, stack), t, c, 1, With(s1, t, pc1, stack))
  {
    WithTwice(s1, t, pc, stack, pc1, stack);
    LeadsOne(With(s, t, pc, stack), t, c, With(s1, t, pc1, stack));
  }

  lemma Unchanged(s: State, t: Task)
    requires t in s.tasks
    ensures With(s, t, s.tasks[t].pc, s.tasks[t].stack) == s
  {
  }

  /** The beginning of an acquire: the mutex is taken. */
  lemma AcquireLocks(s: State, t: Task, g: GuardId, stack: seq<GuardId>)
    requires s.holder.None?
    ensures Leads(With(s, t, Outside, stack), t, Acquire(g), 2, With(s.(holder := Some(t)), t, AcqTest(g), stack))
  {
    var c := Acquire(g);
    Goes(s, t, c, Outside, stack, s, AcqLock(g));
    Goes(s, t, c, AcqLock(g), stack, s.(holder := Some(t)), AcqTest(g));
    LeadsOn(With(s, t, Outside, stack), t, c, 1, With(s, t, AcqLock(g), stack), 1, With(s.(holder := Some(t)), t, AcqTest(g), stack));
  }

  /** The end of an acquire that finds its guard not pending: the caller initializes it, unless it is ready. */
  lemma Decides(s: State, t: Task, c: Call, g: GuardId, stack: seq<GuardId>)
    requires s.holder == Some(t) && !At(s, g).pending
    ensures Leads(With(s, t, AcqDecide(g), stack), t, c, 2,
                  if At(s, g).ready then With(s.(holder := None), t, Outside, stack)
                  else With(s.(holder := None, guards := s.guards[g := Guard(false, true)]), t, Outside, stack + [g]))
  {
    var s0 := With(s, t, AcqDecide(g), stack);
    if At(s, g).ready {
      Goes(s, t, c, AcqDecide(g), stack, s, AcqUnlock);
      Goes(s, t, c, AcqUnlock, stack, s.(holder := None), Outside);
      LeadsOn(s0, t, c, 1, With(s, t, AcqUnlock, stack), 1, With(s.(holder := None), t, Outside, stack));
    } else {
      var s1 := s.(guards := s.guards[g := Guard(false, true)]);
      WithTwice(s1, t, AcqDecide(g), stack, AcqUnlock, stack + [g]);
      LeadsOne(s0, t, c, With(s1, t, AcqUnlock, stack + [g]));
      Goes(s1, t, c, AcqUnlock, stack + [g], s1.(holder := None), Outside);
      LeadsOn(s0, t, c, 1, With(s1, t, AcqUnlock, stack + [g]), 1, With(s1.(holder := None), t, Outside, stack + [g]));
    }
  }

  /** A guard that is not pending acquired without interruption: the caller initializes it, unless it is ready. */
  lemma AcquireDecides(s: State, t: Task, g: GuardId, s1: State)
    requires t in s.tasks && s.tasks[t].pc.Outside? && s.holder.None? && !At(s, g).pending
    requires s1 == if At(s, g).ready then s
                   else With(s.(guards := s.guards[g := Guard(false, true)]), t, Outside, s.tasks[t].stack + [g])
    ensures Leads(s, t, Acquire(g), 5, s1)
  {
    var c, stack, held := Acquire(g), s.tasks[t].stack, s.(holder := Some(t));
    Unchanged(s, t);
    AcquireLocks(s, t, g, stack);
    Goes(held, t, c, AcqTest(g), stack, held, AcqDecide(g));
    LeadsOn(s, t, c, 2, With(held, t, AcqTest(g), stack), 1, With(held, t, AcqDecide(g), stack));
    Decides(held, t, c, g, stack);
    assert held.(holder := None) == s;
    LeadsOn(s, t, c, 3, With(held, t, AcqDecide(g), stack), 2, s1);
  }

  /** A free guard acquired without interruption: the caller becomes its initializer. */
  lemma AcquireAlone(s: State, t: Task, g: GuardId)
    requires t in s.tasks && s.tasks[t].pc.Outside? && s.holder.None? && At(s, g) == Guard(false, false)
    ensures Exec(s, Times(5, t, Acquire(g))) ==
            Next(s.(guards := s.guards[g := Guard(false, true)],
                 tasks := s.tasks[t := TaskState(Outside, s.tasks[t].stack + [g])]))
  {
    var s1 := With(s.(guards := s.guards[g := Guard(false, true)]), t, Outside, s.tasks[t].stack + [g]);
    AcquireDecides(s, t, g, s1);
    LeadsThere(s, t, Acquire(g), 5, s1);
  }

  /** Acquiring a guard that is ready without interruption changes nothing. */
  lemma AcquireReady(s: State, t: Task, g: GuardId)
    requires t in s.tasks && s.tasks[t].pc.Outside? && s.holder.None? && At(s, g) == Guard(true, false)
    ensures Exec(s, Times(5, t, Acquire(g))) == Next(s)
  {
    AcquireDecides(s, t, g, s);
    LeadsThere(s, t, Acquire(g), 5, s);
  }

  /** Acquiring a pending guard without interruption: the caller goes to sleep. */
  lemma AcquireSleeps(s: State, t: Task, g: GuardId)
    requires t in s.tasks && s.tasks[t].pc.Outside? && s.holder.None? && At(s, g).pending
    ensures Exec(s, Times(4, t, Acquire(g))) ==
            Next(s.(waiting := s.waiting + 1, tasks := s.tasks[t := TaskState(WaitToken(g), s.tasks[t].stack)]))
  {
    var c, stack, held := Acquire(g), s.tasks[t].stack, s.(holder := Some(t));
    var more := held.(waiting := s.waiting + 1);
    Unchanged(s, t);
    AcquireLocks(s, t, g, stack);
    Goes(held, t, c, AcqTest(g), stack, more, WaitUnlock(g));
    Goes(more, t, c, WaitUnlock(g), stack, more.(holder := None), WaitToken(g));
    LeadsOn(s, t, c, 2, With(held, t, AcqTest(g), stack), 1, With(more, t, WaitUnlock(g), stack));
    LeadsOn(s, t, c, 3, With(more, t, WaitUnlock(g), stack), 1, With(more.(holder := None), t, WaitToken(g), stack));
    LeadsThere(s, t, c, 4, With(more.(holder := None), t, WaitToken(g), stack));
  }

  /** The signalling loop without interruption gives exactly `left` tokens. */
  lemma {:induction false} SignalsAll(s: State, t: Task, c: Call, left: nat, stack: seq<GuardId>)
    requires s.holder == Some(t) && s.tokens + left <= SEM_MAX
    ensures Leads(With(s, t, Signal(left), stack), t, c, left + 2, With(s.(holder := None, tokens := s.tokens + left), t, Outside, stack))
    decreases left
  {
    if left == 0 {
      SignalsEnd(s, t, c, stack);
      assert s.(holder := None, tokens := s.tokens + left) == s.(holder := None);
    } else {
      var s1 := s.(tokens := s.tokens + 1);
      SignalsOnce(s, t, c, left, stack);
      SignalsAll(s1, t, c, left - 1, stack);
      assert s1.(holder := None, tokens := s1.tokens + (left - 1)) == s.(holder := None, tokens := s.tokens + left);
      LeadsOn(With(s, t, Signal(left), stack), t, c, 1, With(s1, t, Signal(left - 1), stack), left - 1 + 2,
              With(s.(holder := None, tokens := s.tokens + left), t, Outside, stack));
    }
  }

  lemma SignalsOnce(s: State, t: Task, c: Call, left: nat, stack: seq<GuardId>)
    requires left > 0 && s.tokens < SEM_MAX
    ensures Leads(With(s, t, Signal(left), stack), t, c, 1, With(s.(tokens := s.tokens + 1), t, Signal(left - 1), stack))
  {
    Goes(s, t, c, Signal(left), stack, s.(tokens := s.tokens + 1), Signal(left - 1));
  }

  lemma SignalsEnd(s: State, t: Task, c: Call, stack: seq<GuardId>)
    requires s.holder == Some(t)
    ensures Leads(With(s, t, Signal(0), stack), t, c, 2, With(s.(holder := None), t, Outside, stack))
  {
    Goes(s, t, c, Signal(0), stack, s, EndUnlock);
    Goes(s, t, c, EndUnlock, stack, s.(holder := None), Outside);
    LeadsOn(With(s, t, Signal(0), stack), t, c, 1, With(s, t, EndUnlock, stack), 1, With(s.(holder := None), t, Outside, stack));
  }

  /**
   Ending an initialization without interruption gives one token per waiter. A release makes the guard ready, an
   abort leaves it as if nothing had happened.
   */
  lemma EndAlone(s: State, t: Task, g: GuardId, rest: seq<GuardId>, c: Call)
    requires s.holder.None? && !c.Acquire? && At(s, g) == Guard(false, true) && s.tokens + s.waiting <= SEM_MAX
    ensures Leads(With(s, t, Outside, rest + [g]), t, c, s.waiting + 5, Ended(s, t, g, rest, c == Release))
  {
    var cleared := s.(holder := Some(t), guards := s.guards[g := Guard(c == Release, false)]);
    EndClears(s, t, g, rest, c);
    SignalsAll(cleared, t, c, s.waiting, rest);
    assert cleared.(holder := None, tokens := s.tokens + s.waiting) ==
           s.(tokens := s.tokens + s.waiting, guards := s.guards[g := Guard(c == Release, false)]);
    LeadsOn(With(s, t, Outside, rest + [g]), t, c, 3, With(cleared, t, Signal(s.waiting), rest),
            s.waiting + 2, Ended(s, t, g, rest, c == Release));
  }

  function Ended(s: State, t: Task, g: GuardId, rest: seq<GuardId>, ready: bool): State {
    With(s.(tokens := s.tokens + s.waiting, guards := s.guards[g := Guard(ready, false)]), t, Outside, rest)
  }

  lemma EndClears(s: State, t: Task, g: GuardId, rest: seq<GuardId>, c: Call)
    requires s.holder.None? && !c.Acquire? && At(s, g) == Guard(false, true)
    ensures Leads(With(s, t, Outside, rest + [g]), t, c, 3,
                  With(s.(holder := Some(t), guards := s.guards[g := Guard(c == Release, false)]), t, Signal(s.waiting), rest))
  {
    var stack, held := rest + [g], s.(holder := Some(t));
    var s0 := With(s, t, Outside, stack);
    Goes(s, t, c, Outside, stack, s, EndLock(g, c == Release));
    Goes(s, t, c, EndLock(g, c == Release), stack, held, EndClear(g, c == Release));
    LeadsOn(s0, t, c, 1, With(s, t, EndLock(g, c == Release), stack), 1, With(held, t, EndClear(g, c == Release), stack));
    Clears(held, t, c, g, c == Release, rest);
    LeadsOn(s0, t, c, 2, With(held, t, EndClear(g, c == Release), stack), 1,
            With(s.(holder := Some(t), guards := s.guards[g := Guard(c == Release, false)]), t, Signal(s.waiting), rest));
  }

  lemma Clears(s: State, t: Task, c: Call, g: GuardId, ok: bool, rest: seq<GuardId>)
    requires At(s, g) == Guard(false, true)
    ensures Leads(With(s, t, EndClear(g, ok), rest + [g]), t, c, 1,
                  With(s.(guards := s.guards[g := Guard(ok, false)]), t, Signal(s.waiting), rest))
  {
    assert (rest + [g])[..|rest|] == rest;
    var s1 := s.(guards := s.guards[g := Guard(ok, false)]);
    WithTwice(s1, t, EndClear(g, ok), rest + [g], Signal(s.waiting), rest);
    LeadsOne(With(s, t, EndClear(g, ok), rest + [g]), t, c, With(s1, t, Signal(s.waiting), rest));
  }

  /** Releasing makes the guard ready. */
  lemma ReleaseAlone(s: State, t: Task, g: GuardId, rest: seq<GuardId>)
    requires t in s.tasks && s.tasks[t] == TaskState(Outside, rest + [g]) && s.holder.None?
    requires At(s, g) == Guard(false, true) && s.tokens + s.waiting <= SEM_MAX
    ensures Exec(s, Times(s.waiting + 5, t, Release)) ==
            Next(s.(tokens := s.tokens + s.waiting, guards := s.guards[g := Guard(true, false)],
                 tasks := s.tasks[t := TaskState(Outside, rest)]))
  {
    Unchanged(s, t);
    EndAlone(s, t, g, rest, Release);
    LeadsThere(s, t, Release, s.waiting + 5, Ended(s, t, g, rest, true));
  }

  /** Aborting does not. */
  lemma AbortAlone(s: State, t: Task, g: GuardId, rest: seq<GuardId>)
    requires t in s.tasks && s.tasks[t] == TaskState(Outside, rest + [g]) && s.holder.None?
    requires At(s, g) == Guard(false, true) && s.tokens + s.waiting <= SEM_MAX
    ensures Exec(s, Times(s.waiting + 5, t, Abort)) ==
            Next(s.(tokens := s.tokens + s.waiting, guards := s.guards[g := Guard(false, false)],
                 tasks := s.tasks[t := TaskState(Outside, rest)]))
  {
    Unchanged(s, t);
    EndAlone(s, t, g, rest, Abort);
    LeadsThere(s, t, Abort, s.waiting + 5, Ended(s, t, g, rest, false));
  }

  /** A waiter that gets a token tests its guard with the mutex held. */
  lemma Wakes(s: State, t: Task, c: Call, g: GuardId, stack: seq<GuardId>)
    requires s.holder.None? && s.tokens >= 1
    ensures Leads(With(s, t, WaitToken(g), stack), t, c, 2,
                  With(s.(holder := Some(t), tokens := s.tokens - 1), t, WaitTest(g), stack))
  {
    var less := s.(tokens := s.tokens - 1);
    Goes(s, t, c, WaitToken(g), stack, less, WaitLock(g));
    Goes(less, t, c, WaitLock(g), stack, less.(holder := Some(t)), WaitTest(g));
    LeadsOn(With(s, t, WaitToken(g), stack), t, c, 1, With(less, t, WaitLock(g), stack), 1, With(less.(holder := Some(t)), t, WaitTest(g), stack));
  }

  /**
   A waiter with a token whose guard is no longer pending leaves the loop. If the guard is ready it returns; after an
   abort it is the next to initialize.
   */
  lemma WaiterLeaves(s: State, t: Task, g: GuardId, c: Call)
    requires t in s.tasks && s.tasks[t].pc == WaitToken(g) && s.holder.None? && !At(s, g).pending
    requires s.tokens >= 1 && s.waiting >= 1
    ensures var woken := s.(tokens := s.tokens - 1, waiting := s.waiting - 1);
            Exec(s, Times(5, t, c)) ==
            Next(if At(s, g).ready then woken.(tasks := s.tasks[t := TaskState(Outside, s.tasks[t].stack)])
                 else woken.(guards := s.guards[g := Guard(false, true)],
                      tasks := s.tasks[t := TaskState(Outside, s.tasks[t].stack + [g])]))
  {
    var stack, awake := s.tasks[t].stack, s.(holder := Some(t), tokens := s.tokens - 1);
    var left := awake.(waiting := s.waiting - 1);
    Unchanged(s, t);
    Wakes(s, t, c, g, stack);
    Goes(awake, t, c, WaitTest(g), stack, left, AcqDecide(g));
    LeadsOn(s, t, c, 2, With(awake, t, WaitTest(g), stack), 1, With(left, t, AcqDecide(g), stack));
    Decides(left, t, c, g, stack);
    var done := if At(s, g).ready then With(left.(holder := None), t, Outside, stack)
    else With(left.(holder := None, guards := s.guards[g := Guard(false, true)]), t, Outside, stack + [g]);
    LeadsOn(s, t, c, 3, With(left, t, AcqDecide(g), stack), 2, done);
    LeadsThere(s, t, c, 5, done);
  }

  /** A waiter whose guard is still pending goes round the loop and takes a second token. */
  lemma WaiterTakesTwo(s: State, t: Task, g: GuardId)
    requires t in s.tasks && s.tasks[t].pc == WaitToken(g) && s.holder.None? && At(s, g).pending && s.tokens >= 2
    ensures Exec(s, Times(5, t, Release)) ==
            Next(s.(tokens := s.tokens - 2, tasks := s.tasks[t := s.tasks[t].(pc := WaitLock(g))]))
  {
    var c, stack, awake := Release, s.tasks[t].stack, s.(holder := Some(t), tokens := s.tokens - 1);
    var again := awake.(holder := None);
    var done := With(s.(tokens := s.tokens - 2), t, WaitLock(g), stack);
    Unchanged(s, t);
    Wakes(s, t, c, g, stack);
    Goes(awake, t, c, WaitTest(g), stack, awake, WaitUnlock(g));
    LeadsOn(s, t, c, 2, With(awake, t, WaitTest(g), stack), 1, With(awake, t, WaitUnlock(g), stack));
    Goes(awake, t, c, WaitUnlock(g), stack, again, WaitToken(g));
    LeadsOn(s, t, c, 3, With(awake, t, WaitUnlock(g), stack), 1, With(again, t, WaitToken(g), stack));
    Goes(again, t, c, WaitToken(g), stack, again.(tokens := s.tokens - 2), WaitLock(g));
    LeadsOn(s, t, c, 4, With(again, t, WaitToken(g), stack), 1, done);
    LeadsThere(s, t, c, 5, done);
  }

  /** Three tasks at work: 0 may initialize guards 0 and 1, 1 waits for guard 1, 2 for guard 0. */
  function Scene(tokens: nat, waiting: nat, g1: Guard, t0: seq<GuardId>, pc1: PC, pc2: PC): State {
    State(None, tokens, waiting, if g1 == Guard(false, false) then map[0 := Guard(false, true)] else map[0 := Guard(false, true), 1 := g1],
          map[0 := TaskState(Outside, t0), 1 := TaskState(pc1, []), 2 := TaskState(pc2, [])])
  }

  lemma SceneOpens()
    ensures Exec(Init({0, 1, 2}), Times(5, 0, Acquire(0))) ==
            Next(Scene(0, 0, Guard(false, false), [0], Outside, Outside))
  {
    var s0 := Init({0, 1, 2});
    assert s0.tasks == map[0 := TaskState(Outside, []), 1 := TaskState(Outside, []), 2 := TaskState(Outside, [])];
    AcquireAlone(s0, 0, 0);
    var s1 := Scene(0, 0, Guard(false, false), [0], Outside, Outside);
    assert [] + [0] == [0];
    assert s0.tasks[0 := TaskState(Outside, [0])] == s1.tasks;
    assert s0.guards[0 := Guard(false, true)] == s1.guards;
  }

  lemma SceneNests()
    ensures Exec(Scene(0, 0, Guard(false, false), [0], Outside, Outside),
                 Times(5, 0, Acquire(1))) == Next(Scene(0, 0, Guard(false, true), [0, 1], Outside, Outside))
  {
    var s0 := Scene(0, 0, Guard(false, false), [0], Outside, Outside);
    AcquireAlone(s0, 0, 1);
    var s1 := Scene(0, 0, Guard(false, true), [0, 1], Outside, Outside);
    assert [0] + [1] == [0, 1];
    assert s0.tasks[0 := TaskState(Outside, [0, 1])] == s1.tasks;
    assert s0.guards[1 := Guard(false, true)] == s1.guards;
  }

  lemma SceneSleeps1()
    ensures Exec(Scene(0, 0, Guard(false, true), [0, 1], Outside, Outside), Times(4, 1, Acquire(1))) ==
            Next(Scene(0, 1, Guard(false, true), [0, 1], WaitToken(1), Outside))
  {
    AcquireSleeps(Scene(0, 0, Guard(false, true), [0, 1], Outside, Outside), 1, 1);
  }

  lemma SceneSleeps2()
    ensures Exec(Scene(0, 1, Guard(false, true), [0, 1], WaitToken(1), Outside), Times(4, 2, Acquire(0))) ==
            Next(Scene(0, 2, Guard(false, true), [0, 1], WaitToken(1), WaitToken(0)))
  {
    AcquireSleeps(Scene(0, 1, Guard(false, true), [0, 1], WaitToken(1), Outside), 2, 0);
  }

  lemma SceneReleases()
    ensures Exec(Scene(0, 2, Guard(false, true), [0, 1], WaitToken(1), WaitToken(0)), Times(7, 0, Release)) ==
            Next(Scene(2, 2, Guard(true, false), [0], WaitToken(1), WaitToken(0)))
  {
    assert [0, 1] == [0] + [1];
    ReleaseAlone(Scene(0, 2, Guard(false, true), [0, 1], WaitToken(1), WaitToken(0)), 0, 1, [0]);
  }

  lemma SceneRobs()
    ensures Exec(Scene(2, 2, Guard(true, false), [0], WaitToken(1), WaitToken(0)), Times(5, 2, Release)) ==
            Next(Scene(0, 2, Guard(true, false), [0], WaitToken(1), WaitLock(0)))
  {
    WaiterTakesTwo(Scene(2, 2, Guard(true, false), [0], WaitToken(1), WaitToken(0)), 2, 0);
  }

  /**
   The claim guard by guard is false: guard 1 is ready and no longer pending, its only waiter needs a
   token, and there is none left, because the waiter of guard 0 took both.
   */
  lemma TokensCanBeStolen() returns (sched: Schedule, s: State)
    ensures Exec(Init({0, 1, 2}), sched) == Next(s)
    ensures At(s, 1) == Guard(true, false) && s.tasks == Scene(0, 2, Guard(true, false), [0], WaitToken(1), WaitLock(0)).tasks
    ensures s.tokens == 0 && Promised(s) == 0 && !NoneP(s)
  {
    SceneOpens();
    SceneNests();
    SceneSleeps1();
    SceneSleeps2();
    SceneReleases();
    SceneRobs();
    var up := Guard(false, true);
    var s0, s1 := Init({0, 1, 2}), Scene(0, 0, Guard(false, false), [0], Outside, Outside);
    sched := Times(5, 0, Acquire(0));
    Then(s0, sched, s1, Times(5, 0, Acquire(1)), Scene(0, 0, up, [0, 1], Outside, Outside));
    sched := sched + Times(5, 0, Acquire(1));
    Then(s0, sched, Scene(0, 0, up, [0, 1], Outside, Outside),
         Times(4, 1, Acquire(1)), Scene(0, 1, up, [0, 1], WaitToken(1), Outside));
    sched := sched + Times(4, 1, Acquire(1));
    Then(s0, sched, Scene(0, 1, up, [0, 1], WaitToken(1), Outside),
         Times(4, 2, Acquire(0)), Scene(0, 2, up, [0, 1], WaitToken(1), WaitToken(0)));
    sched := sched + Times(4, 2, Acquire(0));
    Then(s0, sched, Scene(0, 2, up, [0, 1], WaitToken(1), WaitToken(0)),
         Times(7, 0, Release), Scene(2, 2, Guard(true, false), [0], WaitToken(1), WaitToken(0)));
    sched := sched + Times(7, 0, Release);
    s := Scene(0, 2, Guard(true, false), [0], WaitToken(1), WaitLock(0));
    Then(s0, sched, Scene(2, 2, Guard(true, false), [0], WaitToken(1), WaitToken(0)), Times(5, 2, Release), s);
    sched := sched + Times(5, 2, Release);
    assert At(s, 0).pending;
  }
}

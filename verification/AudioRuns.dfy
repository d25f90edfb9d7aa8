/**
 What the audio tasks do when they are asked to: a stop pressed in the user interface, or requested by the
 loopback, ends its worker under any interleaving; and every task, left alone, opens what it needs, reports what it
 is doing, and closes and reports again when it is stopped or a call fails.
 */
module AudioRuns {
  import opened AudioArbiter

  // ---------------------------------------------------------------------------------------------
  // From the button to the end of the task
  // ---------------------------------------------------------------------------------------------

  /** A stop request for a living worker that runs undisturbed sets the status word and the flag. */
  lemma PressDooms(s: State, who: Who)
    requires Inv(s) && s.ui == Idle && HandleOf(s, who)
    ensures var s1 := SetStop(SetStatus(s, who, Stopping), who, true);
            Exec(s, [(Ui, PressStop(who))] + Alone(3)) == Next(s1) && Doomed(s1, who)
  {
    DeadHasNoHandle(s, who);
    FlagDooms(SetStatus(s, who, Stopping), who);
    PressRuns(s, who);
  }

  lemma FlagDooms(s: State, who: Who)
    requires Alive(s, who)
    ensures Doomed(SetStop(s, who, true), who)
  {
  }

  lemma PressRuns(s: State, who: Who)
    requires s.ui == Idle && HandleOf(s, who)
    ensures Exec(s, [(Ui, PressStop(who))] + Alone(3)) == Next(SetStop(SetStatus(s, who, Stopping), who, true))
  {
    var a := s.(ui := InReq(who, ReadHandle));
    var b := s.(ui := InReq(who, PutStopping));
    PressStops(b, who);
    UiGoes(a, 2, b);
    assert b.(ui := Idle) == s;
    assert ([(Ui, PressStop(who))] + Alone(3))[1..] == Alone(3);
  }

  lemma PressStops(s: State, who: Who)
    requires s.ui == InReq(who, PutStopping)
    ensures Exec(s, Alone(2)) == Next(SetStop(SetStatus(s.(ui := Idle), who, Stopping), who, true))
  {
    var a := SetStatus(s, who, Stopping).(ui := InReq(who, PutFlag));
    UiGoes(s, 1, a);
    UiGoes(a, 0, SetStop(a, who, true).(ui := Idle));
  }

  /** `a`, the user interface or the loopback, is at statement `r` of a request for `who`. */
  predicate Asks(s: State, a: Actor, who: Who, r: Req) {
    if a == Ui then s.ui == InReq(who, r) else a == Task(Loop) && who != Loop && s.loop.pc == LReq(who, r)
  }

  /** Statements left, of a request that finds a handle, until the flag is set. */
  function AskRank(r: Req): nat {
    if r == ReadHandle then 3 else if r == PutStopping then 2 else 1
  }

  predicate Asking(r: Req) {
    r == ReadHandle || r == PutStopping || r == PutFlag
  }

  lemma AskGoes(s: State, a: Actor, who: Who, r: Req, c: Choice)
    requires Inv(s) && Asks(s, a, who, r) && Asking(r) && Alive(s, who) && Step(s, a, c).Next?
    ensures var s1 := Step(s, a, c).s;
            Alive(s1, who) && if r == PutFlag then Doomed(s1, who) else Asks(s1, a, who, if r == ReadHandle then PutStopping else PutFlag)
  {
  }

  lemma AskStays(s: State, a: Actor, who: Who, r: Req, b: Actor, c: Choice)
    requires Inv(s) && Asks(s, a, who, r) && b != a && Step(s, b, c).Next?
    ensures Asks(Step(s, b, c).s, a, who, r)
  {
    if b == Ui {
      UiLeaves(s, c, Loop);
    } else if b == Task(Loop) {
      LoopLeavesUi(s, c);
    }
  }

  lemma LoopLeavesUi(s: State, c: Choice)
    requires LoopStep(s, c).Next?
    ensures LoopStep(s, c).s.ui == s.ui
  {
  }

  /** Whatever the others do meanwhile, the request reaches its worker, or the worker has ended before. */
  lemma {:induction false} AskIsHeard(s: State, sched: Schedule, a: Actor, who: Who, r: Req) returns (n: nat)
    requires Inv(s) && Asks(s, a, who, r) && Asking(r) && Alive(s, who)
    requires Exec(s, sched).Next? && Turns(sched, a) >= AskRank(r)
    ensures n <= |sched| && Exec(s, sched[..n]).Next?
    ensures var s1 := Exec(s, sched[..n]).s; Inv(s1) && (Doomed(s1, who) || !Alive(s1, who))
    decreases |sched|
  {
    var (b, c) := sched[0];
    var s1 := Step(s, b, c).s;
    KeepsInv(s, b, c);
    n := 1;
    if b == a {
      AskGoes(s, a, who, r, c);
    } else {
      AskStays(s, a, who, r, b, c);
    }
    if Doomed(s1, who) || !Alive(s1, who) {
      assert sched[..1][1..] == [];
    } else {
      var r1 := if b != a then r else if r == ReadHandle then PutStopping else PutFlag;
      var m := AskIsHeard(s1, sched[1..], a, who, r1);
      n := m + 1;
      assert sched[..n][1..] == sched[1..][..m];
    }
  }

  lemma {:induction false} ExecSplit(s: State, a: Schedule, b: Schedule)
    ensures Exec(s, a + b).Next? ==> Exec(s, a).Next?
    ensures Exec(s, a).Next? ==> Exec(s, a + b) == Exec(Exec(s, a).s, b)
    decreases |a|
  {
    if a == [] {
      assert a + b == b;
    } else {
      assert (a + b)[0] == a[0] && (a + b)[1..] == a[1..] + b;
      match Step(s, a[0].0, a[0].1)
      case Next(s1) => ExecSplit(s1, a[1..], b);
      case _ =>
    }
  }

  lemma {:induction false} TurnsSplit(a: Schedule, b: Schedule, who: Actor)
    ensures Turns(a + b, who) == Turns(a, who) + Turns(b, who)
  {
    if a == [] {
      assert a + b == b;
    } else {
      assert (a + b)[0] == a[0] && (a + b)[1..] == a[1..] + b;
      TurnsSplit(a[1..], b, who);
    }
  }

  lemma DeadHasNoHandle(s: State, who: Who)
    requires Inv(s)
    ensures HandleOf(s, who) <==> Alive(s, who)
  {
  }

  lemma Cut(sched: Schedule, n: nat, m: nat)
    requires n + m <= |sched|
    ensures sched[..n] + sched[n..] == sched && sched[..n + m] == sched[..n] + sched[n..][..m]
  {
  }

  lemma TurnsAfter(front: Schedule, back: Schedule, n: nat, a: Actor)
    requires n <= |front|
    ensures (front + back)[..n] == front[..n] && Turns((front + back)[n..], a) >= Turns(back, a)
  {
    assert (front + back)[n..] == front[n..] + back;
    TurnsSplit(front[n..], back, a);
  }

  /** Once asked, after `n` steps of a schedule with enough turns left. */
  lemma DoomFollows(s: State, sched: Schedule, n: nat, who: Who) returns (k: nat)
    requires n <= |sched| && Exec(s, sched).Next? && Exec(s, sched[..n]).Next? && Turns(sched[n..], Task(who)) >= 37
    requires var s1 := Exec(s, sched[..n]).s; Inv(s1) && Doomed(s1, who)
    ensures k <= |sched| && Exec(s, sched[..k]).Next?
    ensures var s1 := Exec(s, sched[..k]).s; !Alive(s1, who) && !HandleOf(s1, who)
  {
    var s1, rest := Exec(s, sched[..n]).s, sched[n..];
    Cut(sched, n, 0);
    ExecSplit(s, sched[..n], rest);
    var m := StopIsHonoured(s1, rest, who);
    Cut(sched, n, m);
    ExecSplit(s, sched[..n], rest[..m]);
    k := n + m;
  }

  /** A request once begun: after three turns of the asker and 37 of the worker, the worker has released everything. */
  lemma RequestEndsWorker(s: State, a: Actor, who: Who, front: Schedule, back: Schedule) returns (n: nat)
    requires Inv(s) && Asks(s, a, who, ReadHandle) && Alive(s, who)
    requires Exec(s, front + back).Next? && Turns(front, a) >= 3 && Turns(back, Task(who)) >= 37
    ensures n <= |front + back| && Exec(s, (front + back)[..n]).Next?
    ensures var s1 := Exec(s, (front + back)[..n]).s; !Alive(s1, who) && !HandleOf(s1, who)
  {
    ExecSplit(s, front, back);
    n := AskIsHeard(s, front, a, who, ReadHandle);
    TurnsAfter(front, back, n, Task(who));
    DeadHasNoHandle(Exec(s, front[..n]).s, who);
    if Alive(Exec(s, front[..n]).s, who) {
      n := DoomFollows(s, front + back, n, who);
    }
  }

  /** The stop button: whatever the scheduler does, pressing it ends the task and frees its controllers. */
  lemma StopButton(s: State, who: Who, front: Schedule, back: Schedule) returns (n: nat)
    requires Inv(s) && s.ui == Idle && HandleOf(s, who)
    requires Exec(s, [(Ui, PressStop(who))] + (front + back)).Next? && Turns(front, Ui) >= 3 && Turns(back, Task(who)) >= 37
    ensures n <= 1 + |front + back| && Exec(s, ([(Ui, PressStop(who))] + (front + back))[..n]).Next?
    ensures var s1 := Exec(s, ([(Ui, PressStop(who))] + (front + back))[..n]).s; !Alive(s1, who) && !HandleOf(s1, who)
  {
    var press := [(Ui, PressStop(who))];
    var sched := press + (front + back);
    var s1 := UiStep(s, PressStop(who)).s;
    KeepsInv(s, Ui, PressStop(who));
    assert sched[1..] == front + back;
    var m := RequestEndsWorker(s1, Ui, who, front, back);
    n := m + 1;
    assert sched[..n][1..] == (front + back)[..m];
  }

  // ---------------------------------------------------------------------------------------------
  // What a clash is, and what a start leaves behind
  // ---------------------------------------------------------------------------------------------

  /** The statement opens a controller another task has open: I2S0 is the meter's, I2S1 the tone's. */
  predicate OpensTaken(s: State, a: Actor, c: Choice) {
    && c.Ok?
    && (|| (a == Task(Mic) && s.mic.pc.NewChan? && s.loop.rx) || (a == Task(Dac) && s.dac.pc.NewChan? && s.loop.tx)
        || (a == Task(Loop) && s.loop.pc.LNewTx? && s.dac.chan) || (a == Task(Loop) && s.loop.pc.LNewRx? && s.mic.chan))
  }

  /** The statement hands a NULL channel to the driver. */
  predicate UsesNull(s: State, a: Actor) {
    || (a == Task(Mic) && NeedsChan(s.mic.pc) && !s.mic.chan) || (a == Task(Dac) && NeedsChan(s.dac.pc) && !s.dac.chan)
    || (a == Task(Loop) && NeedsTx(s.loop.pc) && !s.loop.tx) || (a == Task(Loop) && NeedsRx(s.loop.pc) && !s.loop.rx)
  }

  /** What Safety excludes is exactly this. */
  lemma ClashMeans(s: State, a: Actor, c: Choice)
    ensures Step(s, a, c) == Clash <==>
            || (a == Ui && s.ui.InStart? && s.ui.k == Create && c.Ok? && Alive(s, s.ui.who))
            || OpensTaken(s, a, c) || UsesNull(s, a)
    ensures forall pc: WorkerPc :: NeedsChan(pc) <==> pc in {InitChan, EnableChan, Transfer, NullChan}
    ensures forall pc: LoopPc :: NeedsTx(pc) <==> pc in {LInitTx, LEnableTx, LWrite, LNullTx}
    ensures forall pc: LoopPc :: NeedsRx(pc) <==> pc in {LInitRx, LEnableRx, LRead, LNullRx}
  {
    match a
    case Ui =>
    case Task(who) =>
      if who == Loop {
        LoopClashes(s, c);
      } else {
        WorkerClashes(s, who, c);
      }
  }

  lemma WorkerClashes(s: State, who: Who, c: Choice)
    requires who != Loop
    ensures WorkerStep(s, who, c) == Clash <==> OpensTaken(s, Task(who), c) || UsesNull(s, Task(who))
  {
  }

  lemma LoopClashes(s: State, c: Choice)
    ensures LoopStep(s, c) == Clash <==> OpensTaken(s, Task(Loop), c) || UsesNull(s, Task(Loop))
  {
  }

  /** A worker with any other status than STOPPED and ERROR counts as active. */
  lemma ActiveMeans(st: Status)
    ensures Active(st) <==> st != Stopped && st != Error
  {
  }

  /** The loopback polls the two handles and the two channels of the others. */
  lemma PollsAll(s: State)
    ensures (exists i: nat | i < 4 :: Polled(s, i)) <==> s.mic.handle || s.mic.chan || s.dac.handle || s.dac.chan
  {
    assert Polled(s, 0) == s.mic.handle && Polled(s, 1) == s.mic.chan;
    assert Polled(s, 2) == s.dac.handle && Polled(s, 3) == s.dac.chan;
  }

  /** A start that goes through makes a task that, if every call succeeds, soon runs with its channel open. */
  lemma StartedOpens(s: State, who: Who)
    requires Inv(s) && Accepts(s, who) && who != Loop
    ensures Later(Get(Started(s, who), who), who, Ok, if who == Mic then 4 else 7) == Worker(true, true, false, Running, LoopTest)
  {
    StartedWorker(s, who);
    if who == Mic {
      MicOpens();
    } else {
      DacOpens(Starting);
    }
  }

  lemma StartedWorker(s: State, who: Who)
    requires Inv(s) && Accepts(s, who) && who != Loop
    ensures Get(Started(s, who), who) == Worker(true, false, false, Starting, if who == Mic then NewChan else SayStarting)
  {
  }

  /** The loopback's begins with its flag clear, waiting. */
  lemma StartedBegins(s: State)
    requires Inv(s) && Accepts(s, Loop)
    ensures Started(s, Loop).loop == Loopback(true, false, false, false, Waiting, LBegin)
  {
  }

  /** If the task cannot be created, the status word says so, and there is no task. */
  lemma FailedStartIsError(s: State)
    requires Inv(s) && s.ui.InStart? && s.ui.k == Create
    ensures var t := UiStep(s, Failure).s;
            && UiStep(s, Failure).Next? && UiStep(t, Ok) == Next(SetStatus(s, s.ui.who, Error).(ui := Idle))
            && !HandleOf(UiStep(t, Ok).s, s.ui.who) && !Alive(UiStep(t, Ok).s, s.ui.who)
  {
  }

  // ---------------------------------------------------------------------------------------------
  // A task left alone
  // ---------------------------------------------------------------------------------------------

  /** A meter or tone task that gets the answer `c` from every call. */
  function Later(w: Worker, who: Who, c: Choice, n: nat): Worker
    decreases n
  {
    if n == 0 then w else Later(WorkerNext(w, who, c), who, c, n - 1)
  }

  lemma Turn(w: Worker, who: Who, c: Choice, n: nat, w1: Worker)
    requires WorkerNext(w, who, c) == w1
    ensures Later(w, who, c, n + 1) == Later(w1, who, c, n)
  {
  }

  /** A new task, if every call succeeds, has its channel open and says that it runs. */
  lemma MicOpens()
    ensures Later(Worker(true, false, false, Starting, NewChan), Mic, Ok, 4) == Worker(true, true, false, Running, LoopTest)
  {
    ChannelOpens(Mic);
  }

  lemma DacOpens(status: Status)
    ensures Later(Worker(true, false, false, status, SayStarting), Dac, Ok, 7) == Worker(true, true, false, Running, LoopTest)
  {
    var w := Worker(true, false, false, Starting, GpioConfig);
    Turn(Worker(true, false, false, status, SayStarting), Dac, Ok, 6, w);
    Turn(w, Dac, Ok, 5, w.(pc := GpioLevel));
    Turn(w.(pc := GpioLevel), Dac, Ok, 4, w.(pc := NewChan));
    ChannelOpens(Dac);
  }

  lemma ChannelOpens(who: Who)
    ensures Later(Worker(true, false, false, Starting, NewChan), who, Ok, 4) == Worker(true, true, false, Running, LoopTest)
  {
    var w := Worker(true, true, false, Starting, InitChan);
    Turn(Worker(true, false, false, Starting, NewChan), who, Ok, 3, w);
    Turn(w, who, Ok, 2, w.(pc := EnableChan));
    Turn(w.(pc := EnableChan), who, Ok, 1, w.(pc := SayRunning));
    Turn(w.(pc := SayRunning), who, Ok, 0, Worker(true, true, false, Running, LoopTest));
  }

  predicate Calls(pc: WorkerPc) {
    pc.GpioConfig? || pc.GpioLevel? || pc.NewChan? || pc.InitChan? || pc.EnableChan? || pc.Transfer?
  }

  /** A call fails; for the meter a timeout of a read is no failure. */
  predicate Fails(w: Worker, who: Who, c: Choice) {
    Calls(w.pc) && !c.Ok? && !(w.pc.Transfer? && who == Mic && c.Timeout?)
  }

  /** A call that fails ends the task with status ERROR, its channel deleted if it had one. */
  lemma FailureEnds(w: Worker, who: Who, c: Choice, d: Choice)
    requires WorkerInv(w) && Fails(w, who, c)
    ensures Later(WorkerNext(w, who, c), who, d, if w.chan then 6 else 5) == Worker(false, false, false, Error, Dead)
  {
    var w1 := w.(pc := SayError);
    assert WorkerNext(w, who, c) == w1;
    Turn(w1, who, d, if w.chan then 5 else 4, w.(status := Error, pc := DelChan));
    ChannelCloses(w.(status := Error, pc := DelChan), who, d);
  }

  lemma ChannelCloses(w: Worker, who: Who, d: Choice)
    requires w.pc.DelChan? && w.handle
    ensures Later(w, who, d, (if w.chan then 2 else 1) + if w.status == Error then 3 else 4) ==
            Worker(false, false, false, if w.status == Error then Error else Stopped, Dead)
  {
    var k := if w.status == Error then 3 else 4;
    var w1 := w.(chan := false, pc := TestStatus);
    if w.chan {
      Turn(w, who, d, k + 1, w.(pc := NullChan));
      Turn(w.(pc := NullChan), who, d, k, w1);
    } else {
      Turn(w, who, d, k, w1);
    }
    TaskEnds(w1, who, d);
  }

  lemma TaskEnds(w: Worker, who: Who, d: Choice)
    requires w.pc.TestStatus? && w.handle && !w.chan
    ensures Later(w, who, d, if w.status == Error then 3 else 4) ==
            Worker(false, false, false, if w.status == Error then Error else Stopped, Dead)
  {
    var w1 := w.(status := if w.status == Error then Error else Stopped, pc := ClearStop);
    if w.status == Error {
      Turn(w, who, d, 2, w1);
    } else {
      Turn(w, who, d, 3, w.(pc := SayStopped));
      Turn(w.(pc := SayStopped), who, d, 2, w1);
    }
    Turn(w1, who, d, 1, w1.(stop := false, pc := NullHandle));
    Turn(w1.(stop := false, pc := NullHandle), who, d, 0, w1.(stop := false, handle := false, pc := Dead));
  }

  /** A task that finds its flag set deletes its channel and ends with status STOPPED. */
  lemma StopEnds(w: Worker, who: Who, d: Choice)
    requires WorkerInv(w) && w.pc.LoopTest? && w.stop && w.status != Error
    ensures Later(w, who, d, 7) == Worker(false, false, false, Stopped, Dead)
  {
    Turn(w, who, d, 6, w.(pc := DelChan));
    ChannelCloses(w.(pc := DelChan), who, d);
  }

  /** Without a request it goes on, block by block. */
  lemma WorkerGoesOn(w: Worker, who: Who, c: Choice)
    requires w.pc.LoopTest? && !w.stop && (c.Ok? || (who == Mic && c.Timeout?))
    ensures Later(w, who, c, 2) == w
  {
    Turn(w, who, c, 1, w.(pc := Transfer));
    Turn(w.(pc := Transfer), who, c, 0, w);
  }

  // ---------------------------------------------------------------------------------------------
  // The loopback left alone
  // ---------------------------------------------------------------------------------------------

  function Runs(n: nat): Schedule {
    if n == 0 then [] else [(Task(Loop), Ok)] + Runs(n - 1)
  }

  /** `n` turns of the loopback, every call of which succeeds, lead from `s` to `s1`. */
  ghost predicate Leads(s: State, n: nat, s1: State) {
    forall m: nat :: Exec(s, Runs(n + m)) == Exec(s1, Runs(m))
  }

  lemma LeadsOne(s: State, s1: State)
    requires LoopStep(s, Ok) == Next(s1)
    ensures Leads(s, 1, s1)
  {
    forall m: nat ensures Exec(s, Runs(1 + m)) == Exec(s1, Runs(m)) {
      assert Runs(1 + m)[1..] == Runs(m);
    }
  }

  lemma LeadsOn(s: State, n: nat, s1: State, k: nat, s2: State)
    requires Leads(s, n, s1) && Leads(s1, k, s2)
    ensures Leads(s, n + k, s2)
  {
    forall m: nat ensures Exec(s, Runs(n + k + m)) == Exec(s2, Runs(m)) {
      assert Exec(s, Runs(n + (k + m))) == Exec(s1, Runs(k + m));
    }
  }

  /** In particular, after exactly these turns it is there. */
  lemma LeadsThere(s: State, n: nat, s1: State)
    requires Leads(s, n, s1)
    ensures Exec(s, Runs(n)) == Next(s1)
  {
    assert Exec(s, Runs(n + 0)) == Exec(s1, Runs(0));
  }

  function To(s: State, pc: LoopPc): State {
    s.(loop := s.loop.(pc := pc))
  }

  /** What a request leaves behind when nobody interferes. */
  function Asked(s: State, who: Who): State {
    if HandleOf(s, who) then SetStop(SetStatus(s, who, Stopping), who, true)
    else if StatusOf(s, who) == Error then s
    else SetStatus(s, who, Stopped)
  }

  function AfterAsking(who: Who): LoopPc {
    if who == Mic then LReq(Dac, ReadHandle) else LWaitTest(0)
  }

  lemma LoopAskStep(s: State, who: Who, r: Req)
    requires s.loop.pc == LReq(who, r)
    ensures var (s1, more, r1) := ReqStep(s, who, r);
            Leads(s, 1, To(s1, if more then LReq(who, r1) else AfterAsking(who)))
  {
    var (s1, more, r1) := ReqStep(s, who, r);
    LeadsOne(s, To(s1, if more then LReq(who, r1) else AfterAsking(who)));
  }

  function AskTurns(s: State, who: Who): nat {
    if !HandleOf(s, who) && StatusOf(s, who) == Error then 2 else 3
  }

  lemma LoopAsksOne(s: State, who: Who)
    requires who != Loop && s.loop.pc == LReq(who, ReadHandle)
    ensures Leads(s, AskTurns(s, who), To(Asked(s, who), AfterAsking(who)))
  {
    if HandleOf(s, who) {
      LoopAsksLiving(s, who);
    } else {
      LoopAsksDead(s, who);
    }
  }

  lemma LoopAsksLiving(s: State, who: Who)
    requires who != Loop && s.loop.pc == LReq(who, ReadHandle) && HandleOf(s, who)
    ensures Leads(s, 3, To(Asked(s, who), AfterAsking(who)))
  {
    LoopAskStep(s, who, ReadHandle);
    LoopPutsBoth(To(s, LReq(who, PutStopping)), who);
    AskedElsewhere(s, LReq(who, PutStopping), AfterAsking(who), who);
    LeadsOn(s, 1, To(s, LReq(who, PutStopping)), 2, To(Asked(s, who), AfterAsking(who)));
  }

  lemma LoopPutsBoth(s: State, who: Who)
    requires who != Loop && s.loop.pc == LReq(who, PutStopping) && HandleOf(s, who)
    ensures Leads(s, 2, To(Asked(s, who), AfterAsking(who)))
  {
    var b := To(SetStatus(s, who, Stopping), LReq(who, PutFlag));
    LoopAskStep(s, who, PutStopping);
    LoopAskStep(b, who, PutFlag);
    LeadsOn(s, 1, b, 1, To(Asked(s, who), AfterAsking(who)));
  }

  lemma LoopAsksDead(s: State, who: Who)
    requires who != Loop && s.loop.pc == LReq(who, ReadHandle) && !HandleOf(s, who)
    ensures Leads(s, AskTurns(s, who), To(Asked(s, who), AfterAsking(who)))
  {
    var a := To(s, LReq(who, TestError));
    var b := To(s, LReq(who, PutStopped));
    LoopAskStep(s, who, ReadHandle);
    LoopAskStep(a, who, TestError);
    if StatusOf(s, who) == Error {
      LeadsOn(s, 1, a, 1, To(s, AfterAsking(who)));
    } else {
      LoopAskStep(b, who, PutStopped);
      LeadsOn(s, 1, a, 1, b);
      LeadsOn(s, 2, b, 1, To(Asked(s, who), AfterAsking(who)));
    }
  }

  lemma AskedElsewhere(s: State, pc: LoopPc, pc1: LoopPc, who: Who)
    requires who != Loop
    ensures To(Asked(To(s, pc), who), pc1) == To(Asked(s, who), pc1)
    ensures AskTurns(To(s, pc), who) == AskTurns(s, who)
    ensures AskTurns(Asked(s, if who == Mic then Dac else Mic), who) == AskTurns(s, who)
  {
  }

  /** The loopback begins by saying that it waits and asking both other workers to stop. */
  lemma LoopAsksBoth(s: State)
    requires s.loop.pc == LBegin
    ensures var s0 := s.(loop := s.loop.(status := Waiting));
            Leads(s, 1 + AskTurns(s, Mic) + AskTurns(s, Dac), To(Asked(Asked(s0, Mic), Dac), LWaitTest(0)))
  {
    var s0 := s.(loop := s.loop.(status := Waiting));
    LoopBegins(s);
    LoopAsksMic(s0);
    LeadsOn(s, 1, To(s0, LReq(Mic, ReadHandle)), AskTurns(s, Mic), To(Asked(s0, Mic), LReq(Dac, ReadHandle)));
    LoopAsksDac(s0);
    LeadsOn(s, 1 + AskTurns(s, Mic), To(Asked(s0, Mic), LReq(Dac, ReadHandle)), AskTurns(s, Dac),
            To(Asked(Asked(s0, Mic), Dac), LWaitTest(0)));
  }

  lemma LoopAsksMic(s: State)
    ensures Leads(To(s, LReq(Mic, ReadHandle)), AskTurns(s, Mic), To(Asked(s, Mic), LReq(Dac, ReadHandle)))
  {
    AskedElsewhere(s, LReq(Mic, ReadHandle), LReq(Dac, ReadHandle), Mic);
    LoopAsksOne(To(s, LReq(Mic, ReadHandle)), Mic);
  }

  lemma LoopAsksDac(s: State)
    ensures Leads(To(Asked(s, Mic), LReq(Dac, ReadHandle)), AskTurns(s, Dac), To(Asked(Asked(s, Mic), Dac), LWaitTest(0)))
  {
    AskedElsewhere(Asked(s, Mic), LReq(Dac, ReadHandle), LWaitTest(0), Dac);
    AskedElsewhere(s, LBegin, LBegin, Dac);
    LoopAsksOne(To(Asked(s, Mic), LReq(Dac, ReadHandle)), Dac);
  }

  lemma LoopBegins(s: State)
    requires s.loop.pc == LBegin
    ensures var s0 := s.(loop := s.loop.(status := Waiting));
            Leads(s, 1, To(s0, LReq(Mic, ReadHandle))) && AskTurns(s0, Mic) == AskTurns(s, Mic) && AskTurns(s0, Dac) == AskTurns(s, Dac)
  {
    LeadsOne(s, To(s.(loop := s.loop.(status := Waiting)), LReq(Mic, ReadHandle)));
  }

  /** None of the four variables it polls says that a controller is in use. */
  predicate Free(s: State) {
    !s.mic.handle && !s.mic.chan && !s.dac.handle && !s.dac.chan
  }

  /** Once the others are gone it passes both rounds of checks ... */
  lemma LoopPasses(s: State)
    requires s.loop.pc == LWaitTest(0) && !s.loop.stop && Free(s)
    ensures Leads(s, 10, To(s, LStarting))
  {
    LoopWaitEnds(s);
    LoopChecks(To(s, LTestStop));
    LeadsOn(s, 5, To(s, LTestStop), 5, To(s, LStarting));
  }

  lemma LoopWaitEnds(s: State)
    requires s.loop.pc == LWaitTest(0) && !s.loop.stop && Free(s)
    ensures Leads(s, 5, To(s, LTestStop))
  {
    LeadsOne(s, To(s, LWaitRead(0, 0)));
    LoopReadsAll(To(s, LWaitRead(0, 0)), 0);
    LeadsOn(s, 1, To(s, LWaitRead(0, 0)), 4, To(s, LTestStop));
  }

  lemma LoopChecks(s: State)
    requires s.loop.pc == LTestStop && !s.loop.stop && Free(s)
    ensures Leads(s, 5, To(s, LStarting))
  {
    LeadsOne(s, To(s, LCheck(0)));
    LoopChecksAll(To(s, LCheck(0)), 0);
    LeadsOn(s, 1, To(s, LCheck(0)), 4, To(s, LStarting));
  }

  lemma LoopReadsAll(s: State, i: nat)
    requires i < 4 && s.loop.pc == LWaitRead(0, i) && Free(s)
    ensures Leads(s, 4 - i, To(s, LTestStop))
    decreases 4 - i
  {
    var s1 := To(s, if i < 3 then LWaitRead(0, i + 1) else LTestStop);
    LeadsOne(s, s1);
    if i < 3 {
      LoopReadsAll(s1, i + 1);
      LeadsOn(s, 1, s1, 3 - i, To(s, LTestStop));
    }
  }

  lemma LoopChecksAll(s: State, i: nat)
    requires i < 4 && s.loop.pc == LCheck(i) && Free(s)
    ensures Leads(s, 4 - i, To(s, LStarting))
    decreases 4 - i
  {
    var s1 := To(s, if i < 3 then LCheck(i + 1) else LStarting);
    LeadsOne(s, s1);
    if i < 3 {
      LoopChecksAll(s1, i + 1);
      LeadsOn(s, 1, s1, 3 - i, To(s, LStarting));
    }
  }

  /** ... while the meter holds on it polls a hundred times more, and then gives up with an error ... */
  lemma LoopGivesUp(s: State, k: nat)
    requires s.loop.pc == LWaitTest(k) && k <= 100 && !s.loop.stop && s.mic.handle
    ensures Leads(s, 2 * (100 - k) + 4, To(s, LSayError))
    decreases 100 - k
  {
    if k < 100 {
      LoopPollsOnce(s, k);
      LoopGivesUp(To(s, LWaitTest(k + 1)), k + 1);
      LeadsOn(s, 2, To(s, LWaitTest(k + 1)), 2 * (99 - k) + 4, To(s, LSayError));
    } else {
      LoopPollsLast(s);
      LoopRefuses(To(s, LTestStop));
      LeadsOn(s, 2, To(s, LTestStop), 2, To(s, LSayError));
    }
  }

  lemma LoopPollsOnce(s: State, k: nat)
    requires s.loop.pc == LWaitTest(k) && k < 100 && !s.loop.stop && s.mic.handle
    ensures Leads(s, 2, To(s, LWaitTest(k + 1)))
  {
    LeadsOne(s, To(s, LWaitRead(k, 0)));
    LeadsOne(To(s, LWaitRead(k, 0)), To(s, LWaitTest(k + 1)));
    LeadsOn(s, 1, To(s, LWaitRead(k, 0)), 1, To(s, LWaitTest(k + 1)));
  }

  lemma LoopPollsLast(s: State)
    requires s.loop.pc == LWaitTest(100) && !s.loop.stop && s.mic.handle
    ensures Leads(s, 2, To(s, LTestStop))
  {
    LeadsOne(s, To(s, LWaitRead(100, 0)));
    LeadsOne(To(s, LWaitRead(100, 0)), To(s, LTestStop));
    LeadsOn(s, 1, To(s, LWaitRead(100, 0)), 1, To(s, LTestStop));
  }

  lemma LoopRefuses(s: State)
    requires s.loop.pc == LTestStop && !s.loop.stop && s.mic.handle
    ensures Leads(s, 2, To(s, LSayError))
  {
    LeadsOne(s, To(s, LCheck(0)));
    LeadsOne(To(s, LCheck(0)), To(s, LSayError));
    LeadsOn(s, 1, To(s, LCheck(0)), 1, To(s, LSayError));
  }

  /** ... and once asked to stop, it does not wait any longer. */
  lemma LoopStopsWaiting(s: State, k: nat)
    requires s.loop.pc == LWaitTest(k) && s.loop.stop
    ensures Leads(s, 2, To(s, LDelRx))
  {
    LeadsOne(s, To(s, LTestStop));
    LeadsOne(To(s, LTestStop), To(s, LDelRx));
    LeadsOn(s, 1, To(s, LTestStop), 1, To(s, LDelRx));
  }

  /** Its own statements, all calls answered `c`. */
  function LoopLater(l: Loopback, c: Choice, n: nat): Loopback
    decreases n
  {
    if n == 0 then l else LoopLater(LoopNext(l, c), c, n - 1)
  }

  /** Before it runs: what it has opened is what its position says. */
  predicate Preparing(l: Loopback) {
    && l.handle && !l.stop && (Exclusive(l.pc) && !l.pc.LLoopTest? && !l.pc.LRead? && !l.pc.LWrite?)
    && l.rx == Open(l.pc) && l.tx == Opening(l.pc) && (l.pc.LStarting? || l.status == Starting)
  }

  /** With both controllers free it opens them, one call after the other, and says that it runs. */
  lemma {:induction false} LoopOpens(l: Loopback)
    requires Preparing(l)
    ensures LoopRank(l.pc) > 10
    ensures LoopLater(l, Ok, LoopRank(l.pc) - 10) == Loopback(true, true, true, false, Running, LLoopTest)
    decreases LoopRank(l.pc)
  {
    PreparingGoes(l);
    if l.pc.LRunning? {
      assert LoopLater(l, Ok, 1) == LoopNext(l, Ok);
    } else {
      LoopOpens(LoopNext(l, Ok));
    }
  }

  lemma PreparingGoes(l: Loopback)
    requires Preparing(l)
    ensures LoopRank(l.pc) >= 11 && (l.pc.LRunning? <==> LoopRank(l.pc) == 11)
    ensures var l1 := LoopNext(l, Ok);
            if l.pc.LRunning? then l1 == Loopback(true, true, true, false, Running, LLoopTest)
            else Preparing(l1) && LoopRank(l1.pc) == LoopRank(l.pc) - 1
  {
    assert LoopNext(l, Ok) == LoopForward(l, Ok);
  }

  predicate LoopCalls(pc: LoopPc) {
    || pc.LGpioConfig? || pc.LGpioLevel? || pc.LNewTx? || pc.LInitTx? || pc.LNewRx? || pc.LInitRx?
    || pc.LEnableTx? || pc.LEnableRx? || pc.LRead? || pc.LWrite?
  }

  /** A call that fails, except a read that times out, leads to the error path ... */
  lemma LoopFailureIsError(l: Loopback, c: Choice)
    requires LoopCalls(l.pc) && !c.Ok? && !(l.pc.LRead? && c.Timeout?)
    ensures LoopNext(l, c) == l.(pc := LSayError)
  {
  }

  /** ... where the status becomes ERROR before the cleanup. */
  lemma LoopSaysError(l: Loopback, c: Choice)
    requires l.pc.LSayError?
    ensures LoopNext(l, c) == l.(status := Error, pc := LDelRx)
  {
  }

  /** In the cleanup: what is closed already is what the position says. */
  predicate Cleaning(l: Loopback) {
    && l.handle && InCleanup(l.pc) && RxInv(l) && TxInv(l)
    && (l.pc.LClearStop? || l.pc.LNullHandle? ==> l.status == Error || l.status == Stopped)
    && (l.pc.LSayStopped? ==> l.status != Error) && (l.pc.LNullHandle? ==> !l.stop)
  }

  /** From there on, everything open is closed, and the task ends with ERROR if it failed and STOPPED otherwise. */
  lemma {:induction false} LoopCleansUp(l: Loopback, d: Choice) returns (n: nat)
    requires Cleaning(l)
    ensures n <= LoopRank(l.pc) <= 8 && LoopLater(l, d, n) == Closed(l)
    decreases LoopRank(l.pc)
  {
    var l1 := LoopNext(l, d);
    CleanupGoes(l, d);
    n := 0;
    if !l.pc.LNullHandle? {
      n := LoopCleansUp(l1, d);
    }
    n := n + 1;
  }

  function Closed(l: Loopback): Loopback {
    Loopback(false, false, false, false, if l.status == Error then Error else Stopped, LDead)
  }

  lemma CleanupGoes(l: Loopback, d: Choice)
    requires Cleaning(l)
    ensures var l1 := LoopNext(l, d);
            if l.pc.LNullHandle? then l1 == Closed(l)
            else Cleaning(l1) && Closed(l1) == Closed(l) && LoopRank(l1.pc) < LoopRank(l.pc) <= 8
  {
    assert LoopNext(l, d) == LoopCleanup(l);
  }

  /** A running loopback that finds its flag set goes to the cleanup. */
  lemma LoopStopEnds(l: Loopback, d: Choice)
    requires l == Loopback(true, true, true, true, l.status, LLoopTest)
    ensures LoopNext(l, d) == l.(pc := LDelRx) && Cleaning(l.(pc := LDelRx))
  {
  }

  /** Without a request it copies block after block; a read that times out is repeated. */
  lemma LoopGoesOn(l: Loopback)
    requires l.pc.LLoopTest? && !l.stop
    ensures LoopLater(l, Ok, 3) == l && LoopNext(LoopNext(l, Ok), Timeout) == l
    ensures LoopNext(l, Ok).pc.LRead? && LoopNext(LoopNext(l, Ok), Ok).pc.LWrite?
  {
    LoopReads(l);
    LoopCopies(l.(pc := LRead));
    assert LoopLater(l, Ok, 3) == LoopLater(l.(pc := LRead), Ok, 2) == LoopLater(l.(pc := LWrite), Ok, 1);
  }

  lemma LoopReads(l: Loopback)
    requires l.pc.LLoopTest? && !l.stop
    ensures LoopNext(l, Ok) == l.(pc := LRead)
  {
  }

  lemma LoopCopies(l: Loopback)
    requires l.pc.LRead?
    ensures LoopNext(l, Ok) == l.(pc := LWrite) && LoopNext(l, Timeout) == l.(pc := LLoopTest)
    ensures LoopNext(l.(pc := LWrite), Ok) == l.(pc := LLoopTest)
  {
  }
}

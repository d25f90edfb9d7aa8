/**
 Who may use the two I2S controllers. The microphone meter (I2S0), the DAC tone (I2S1) and the loopback
 (both) are tasks that arbitrate through task handles, channel handles, stop flags and status words only;
 there is no lock. Every access to one of these shared variables and every driver call is a step of its
 own, and the theorems range over all interleavings of the LVGL thread and the three workers.
 */
module AudioArbiter {

  datatype Who = Mic | Dac | Loop

  datatype Status = Stopped | Waiting | Starting | Running | Stopping | Error

  /** Where a meter or tone task is. The comment names the statement it executes next. */
  datatype WorkerPc =
    | Dead         // not created yet, or past its last access
    | SayStarting  // tone only: status := STARTING
    | GpioConfig   // tone only
    | GpioLevel    // tone only
    | NewChan
    | InitChan
    | EnableChan
    | SayRunning
    | LoopTest     // while (!stop)
    | Transfer     // one read or write of samples
    | SayError     // status := ERROR, then cleanup
    | DelChan      // delete the channel if there is one
    | NullChan
    | TestStatus   // if (status != ERROR)
    | SayStopped
    | ClearStop
    | NullHandle

  /** The statements of a request_stop function. */
  datatype Req = ReadHandle | TestError | PutStopped | PutStopping | PutFlag

  datatype LoopPc =
    | LDead
    | LBegin                       // status := WAITING_FOR_OTHER_AUDIO
    | LReq(who: Who, r: Req)       // inside a request_stop of another worker
    | LWaitTest(k: nat)            // head of the wait loop
    | LWaitRead(k: nat, i: nat)    // read the i-th of: mic handle, mic channel, dac handle, dac channel
    | LTestStop                    // if (stop) goto cleanup
    | LCheck(i: nat)               // the same four reads once more
    | LStarting
    | LGpioConfig
    | LGpioLevel
    | LNewTx
    | LInitTx
    | LNewRx
    | LInitRx
    | LEnableTx
    | LEnableRx
    | LRunning
    | LLoopTest
    | LRead
    | LWrite
    | LSayError
    | LDelRx
    | LNullRx
    | LDelTx
    | LNullTx
    | LTestStatus
    | LSayStopped
    | LClearStop
    | LNullHandle

  /** The statements of a start function; the loopback's has only the tests of its own variables. */
  datatype StartPc = TestLoopHandle | TestLoopStatus | TestHandle | TestStatusWord | PutNoStop | PutStarting | Create | PutError

  datatype UiPc = Idle | InReq(who: Who, r: Req) | InStart(who: Who, k: StartPc)

  datatype Worker = Worker(handle: bool, chan: bool, stop: bool, status: Status, pc: WorkerPc)
  datatype Loopback = Loopback(handle: bool, rx: bool, tx: bool, stop: bool, status: Status, pc: LoopPc)

  /** A handle or channel is true when it is not NULL. */
  datatype State = State(mic: Worker, dac: Worker, loop: Loopback, ui: UiPc)

  datatype Actor = Ui | Task(who: Who)

  /** What a call outside the model answers, or what the user presses. */
  datatype Choice = Ok | Timeout | Failure | PressStart(who: Who) | PressStop(who: Who)

  /**
   Clash: a task is created over a living one, a controller is opened while another worker has it open,
   or the driver gets a NULL channel. Stuck: the actor is dead.
   */
  datatype Outcome = Stuck | Clash | Next(s: State)

  const MAX_WAIT: nat := 100

  predicate Active(st: Status) {
    st.Waiting? || st.Starting? || st.Running? || st.Stopping?
  }

  function Get(s: State, who: Who): Worker
    requires who != Loop
  {
    if who == Mic then s.mic else s.dac
  }

  function Put(s: State, who: Who, w: Worker): State
    requires who != Loop
  {
    if who == Mic then s.(mic := w) else s.(dac := w)
  }

  function HandleOf(s: State, who: Who): bool {
    if who == Loop then s.loop.handle else Get(s, who).handle
  }

  function StatusOf(s: State, who: Who): Status {
    if who == Loop then s.loop.status else Get(s, who).status
  }

  function StopOf(s: State, who: Who): bool {
    if who == Loop then s.loop.stop else Get(s, who).stop
  }

  predicate Alive(s: State, who: Who) {
    if who == Loop then s.loop.pc != LDead else Get(s, who).pc != Dead
  }

  function SetStatus(s: State, who: Who, st: Status): State {
    if who == Loop then s.(loop := s.loop.(status := st)) else Put(s, who, Get(s, who).(status := st))
  }

  function SetStop(s: State, who: Who, b: bool): State {
    if who == Loop then s.(loop := s.loop.(stop := b)) else Put(s, who, Get(s, who).(stop := b))
  }

  /** One statement of request_stop for `who`; the second part is None when the function returns. */
  function ReqStep(s: State, who: Who, r: Req): (State, bool, Req) {
    match r
    case ReadHandle => (s, true, if HandleOf(s, who) then PutStopping else TestError)
    case TestError => (s, StatusOf(s, who) != Error, PutStopped)
    case PutStopped => (SetStatus(s, who, Stopped), false, r)
    case PutStopping => (SetStatus(s, who, Stopping), true, PutFlag)
    case PutFlag => (SetStop(s, who, true), false, r)
  }

  /** xTaskCreate: stores the handle, then the worker can run. */
  function Spawn(s: State, who: Who): State {
    if who == Loop then s.(loop := s.loop.(handle := true, pc := LBegin))
    else Put(s, who, Get(s, who).(handle := true, pc := if who == Mic then NewChan else SayStarting))
  }

  function UiStep(s: State, c: Choice): Outcome {
    match s.ui
    case Idle =>
      (match c
       case PressStart(who) => Next(s.(ui := InStart(who, if who == Loop then TestHandle else TestLoopHandle)))
       case PressStop(who) => Next(s.(ui := InReq(who, ReadHandle)))
       case _ => Stuck)
    case InReq(who, r) =>
      var (s1, more, r1) := ReqStep(s, who, r);
      Next(s1.(ui := if more then InReq(who, r1) else Idle))
    case InStart(who, k) =>
      match k
      case TestLoopHandle => Next(s.(ui := if s.loop.handle then Idle else InStart(who, TestLoopStatus)))
      case TestLoopStatus => Next(s.(ui := if Active(s.loop.status) then Idle else InStart(who, TestHandle)))
      case TestHandle => Next(s.(ui := if HandleOf(s, who) then Idle else InStart(who, TestStatusWord)))
      case TestStatusWord => Next(s.(ui := if Active(StatusOf(s, who)) then Idle else InStart(who, PutNoStop)))
      case PutNoStop => Next(SetStop(s, who, false).(ui := InStart(who, PutStarting)))
      case PutStarting =>
        Next(SetStatus(s, who, if who == Loop then Waiting else Starting).(ui := InStart(who, Create)))
      case Create =>
        if !c.Ok? then Next(s.(ui := InStart(who, PutError)))
        else if Alive(s, who) then Clash
        else Next(Spawn(s, who).(ui := Idle))
      case PutError => Next(SetStatus(s, who, Error).(ui := Idle))
  }

  /** The loopback has the controller of `who` open. */
  predicate LoopHas(s: State, who: Who) {
    if who == Mic then s.loop.rx else s.loop.tx
  }

  predicate NeedsChan(pc: WorkerPc) {
    pc.InitChan? || pc.EnableChan? || pc.Transfer? || pc.NullChan?
  }

  function WorkerStep(s: State, who: Who, c: Choice): Outcome
    requires who != Loop
  {
    var w := Get(s, who);
    if w.pc.Dead? then Stuck
    else if w.pc.NewChan? && c.Ok? && LoopHas(s, who) then Clash
    else if NeedsChan(w.pc) && !w.chan then Clash
    else Next(Put(s, who, WorkerNext(w, who, c)))
  }

  /** A worker writes only its own variables. */
  function WorkerNext(w: Worker, who: Who, c: Choice): Worker {
    match w.pc
    case Dead => w
    case SayStarting => w.(status := Starting, pc := GpioConfig)
    case GpioConfig => w.(pc := if c.Ok? then GpioLevel else SayError)
    case GpioLevel => w.(pc := if c.Ok? then NewChan else SayError)
    case NewChan => if c.Ok? then w.(chan := true, pc := InitChan) else w.(pc := SayError)
    case InitChan => w.(pc := if c.Ok? then EnableChan else SayError)
    case EnableChan => w.(pc := if c.Ok? then SayRunning else SayError)
    case SayRunning => w.(status := Running, pc := LoopTest)
    case LoopTest => w.(pc := if w.stop then DelChan else Transfer)
    // the meter goes on after a timeout, the tone does not
    case Transfer => w.(pc := if c.Ok? || (who == Mic && c.Timeout?) then LoopTest else SayError)
    case SayError => w.(status := Error, pc := DelChan)
    case DelChan => w.(pc := if w.chan then NullChan else TestStatus)
    case NullChan => w.(chan := false, pc := TestStatus)
    case TestStatus => w.(pc := if w.status == Error then ClearStop else SayStopped)
    case SayStopped => w.(status := Stopped, pc := ClearStop)
    case ClearStop => w.(stop := false, pc := NullHandle)
    case NullHandle => w.(handle := false, pc := Dead)
  }

  function Goto(s: State, pc: LoopPc): Outcome {
    Next(s.(loop := s.loop.(pc := pc)))
  }

  /** The four variables the loopback polls, in the order it reads them. */
  predicate Polled(s: State, i: nat) {
    if i == 0 then s.mic.handle else if i == 1 then s.mic.chan else if i == 2 then s.dac.handle else s.dac.chan
  }

  predicate NeedsTx(pc: LoopPc) {
    pc.LInitTx? || pc.LEnableTx? || pc.LWrite? || pc.LNullTx?
  }

  predicate NeedsRx(pc: LoopPc) {
    pc.LInitRx? || pc.LEnableRx? || pc.LRead? || pc.LNullRx?
  }

  function LoopStep(s: State, c: Choice): Outcome {
    var l := s.loop;
    if l.pc.LDead? then Stuck
    else if l.pc.LNewTx? && c.Ok? && s.dac.chan then Clash
    else if l.pc.LNewRx? && c.Ok? && s.mic.chan then Clash
    else if (NeedsTx(l.pc) && !l.tx) || (NeedsRx(l.pc) && !l.rx) then Clash
    else
      match l.pc
      case LReq(who, r) =>
        var (s1, more, r1) := ReqStep(s, who, r);
        Goto(s1, if more then LReq(who, r1) else if who == Mic then LReq(Dac, ReadHandle) else LWaitTest(0))
      case LWaitTest(k) => Goto(s, if l.stop then LTestStop else LWaitRead(k, 0))
      case LWaitRead(k, i) =>
        if Polled(s, i) then Goto(s, if k < MAX_WAIT then LWaitTest(k + 1) else LTestStop)
        else Goto(s, if i < 3 then LWaitRead(k, i + 1) else LTestStop)
      case LCheck(i) => Goto(s, if Polled(s, i) then LSayError else if i < 3 then LCheck(i + 1) else LStarting)
      case _ => Next(s.(loop := LoopNext(l, c)))
  }

  /** The statements of the loopback that touch its own variables only. */
  function LoopNext(l: Loopback, c: Choice): Loopback {
    if InCleanup(l.pc) then LoopCleanup(l) else LoopForward(l, c)
  }

  function LoopForward(l: Loopback, c: Choice): Loopback {
    match l.pc
    case LBegin => l.(status := Waiting, pc := LReq(Mic, ReadHandle))
    case LTestStop => l.(pc := if l.stop then LDelRx else LCheck(0))
    case LStarting => l.(status := Starting, pc := LGpioConfig)
    case LGpioConfig => l.(pc := if c.Ok? then LGpioLevel else LSayError)
    case LGpioLevel => l.(pc := if c.Ok? then LNewTx else LSayError)
    case LNewTx => if c.Ok? then l.(tx := true, pc := LInitTx) else l.(pc := LSayError)
    case LInitTx => l.(pc := if c.Ok? then LNewRx else LSayError)
    case LNewRx => if c.Ok? then l.(rx := true, pc := LInitRx) else l.(pc := LSayError)
    case LInitRx => l.(pc := if c.Ok? then LEnableTx else LSayError)
    case LEnableTx => l.(pc := if c.Ok? then LEnableRx else LSayError)
    case LEnableRx => l.(pc := if c.Ok? then LRunning else LSayError)
    case LRunning => l.(status := Running, pc := LLoopTest)
    case LLoopTest => l.(pc := if l.stop then LDelRx else LRead)
    case LRead => l.(pc := if c.Timeout? then LLoopTest else if c.Ok? then LWrite else LSayError)
    case LWrite => l.(pc := if c.Ok? then LLoopTest else LSayError)
    case LSayError => l.(status := Error, pc := LDelRx)
    case _ => l
  }

  predicate InCleanup(pc: LoopPc) {
    || pc.LDelRx? || pc.LNullRx? || pc.LDelTx? || pc.LNullTx?
    || pc.LTestStatus? || pc.LSayStopped? || pc.LClearStop? || pc.LNullHandle?
  }

  /** From the label `cleanup` on. */
  function LoopCleanup(l: Loopback): Loopback {
    match l.pc
    case LDelRx => l.(pc := if l.rx then LNullRx else LDelTx)
    case LNullRx => l.(rx := false, pc := LDelTx)
    case LDelTx => l.(pc := if l.tx then LNullTx else LTestStatus)
    case LNullTx => l.(tx := false, pc := LTestStatus)
    case LTestStatus => l.(pc := if l.status == Error then LClearStop else LSayStopped)
    case LSayStopped => l.(status := Stopped, pc := LClearStop)
    case LClearStop => l.(stop := false, pc := LNullHandle)
    case LNullHandle => l.(handle := false, pc := LDead)
    case _ => l
  }

  function Step(s: State, a: Actor, c: Choice): Outcome {
    match a
    case Ui => UiStep(s, c)
    case Task(who) => if who == Loop then LoopStep(s, c) else WorkerStep(s, who, c)
  }

  type Schedule = seq<(Actor, Choice)>

  function Exec(s: State, sched: Schedule): Outcome
    decreases |sched|
  {
    if sched == [] then Next(s)
    else
      match Step(s, sched[0].0, sched[0].1)
      case Next(s1) => Exec(s1, sched[1..])
      case other => other
  }

  function Init(): State {
    State(Worker(false, false, false, Stopped, Dead), Worker(false, false, false, Stopped, Dead),
          Loopback(false, false, false, false, Stopped, LDead), Idle)
  }

  // ---------------------------------------------------------------------------------------------
  // The invariant
  // ---------------------------------------------------------------------------------------------

  predicate MayOwn(pc: WorkerPc) {
    NeedsChan(pc) || pc.SayRunning? || pc.LoopTest? || pc.SayError? || pc.DelChan?
  }

  predicate MustOwn(pc: WorkerPc) {
    NeedsChan(pc) || pc.SayRunning? || pc.LoopTest?
  }

  predicate WorkerInv(w: Worker) {
    && (w.handle <==> w.pc != Dead)
    && (MustOwn(w.pc) ==> w.chan) && (w.chan ==> MayOwn(w.pc))
  }

  /** The loopback has passed its checks and has not failed yet. */
  predicate Exclusive(pc: LoopPc) {
    pc.LStarting? || pc.LGpioConfig? || pc.LGpioLevel? || pc.LNewTx? || Opening(pc)
  }

  /** It has opened I2S1 ... */
  predicate Opening(pc: LoopPc) {
    pc.LInitTx? || pc.LNewRx? || Open(pc)
  }

  /** ... and I2S0. */
  predicate Open(pc: LoopPc) {
    pc.LInitRx? || pc.LEnableTx? || pc.LEnableRx? || pc.LRunning? || pc.LLoopTest? || pc.LRead? || pc.LWrite?
  }

  predicate TxInv(l: Loopback) {
    && (Opening(l.pc) || l.pc.LNullTx? ==> l.tx)
    && (l.tx ==> Opening(l.pc) || l.pc.LSayError? || l.pc.LDelRx? || l.pc.LNullRx? || l.pc.LDelTx? || l.pc.LNullTx?)
  }

  predicate RxInv(l: Loopback) {
    && (Open(l.pc) || l.pc.LNullRx? ==> l.rx)
    && (l.rx ==> Open(l.pc) || l.pc.LSayError? || l.pc.LDelRx? || l.pc.LNullRx?)
  }

  predicate LoopShape(l: Loopback) {
    && (l.handle <==> l.pc != LDead)
    && (l.pc.LReq? ==> l.pc.who != Loop)
    && (l.pc.LWaitTest? || l.pc.LWaitRead? ==> l.pc.k <= MAX_WAIT)
    && (l.pc.LWaitRead? || l.pc.LCheck? ==> l.pc.i < 4)
  }

  predicate LoopInv(l: Loopback) {
    LoopShape(l) && TxInv(l) && RxInv(l)
  }

  /** What the loopback knows about the other two workers. */
  predicate CrossInv(s: State) {
    var l := s.loop;
    && (l.rx || l.tx || Exclusive(l.pc) ==> s.mic.pc.Dead? && s.dac.pc.Dead?)
    && (l.pc.LCheck? && l.pc.i >= 1 ==> s.mic.pc.Dead?)
    && (l.pc.LCheck? && l.pc.i >= 3 ==> s.dac.pc.Dead?)
  }

  /** What a start function knows once it has passed its tests. */
  predicate UiInv(s: State) {
    s.ui.InStart? ==>
      var k := s.ui.k;
      && (s.ui.who != Loop && k != TestLoopHandle ==> s.loop.pc.LDead?)
      && (s.ui.who == Loop ==> k != TestLoopHandle && k != TestLoopStatus)
      && (k != TestLoopHandle && k != TestLoopStatus && k != TestHandle ==> !Alive(s, s.ui.who))
  }

  /** A dead worker's status word is STOPPED, ERROR or STOPPING, unless a start of it is under way. */
  predicate StatusInv(s: State, who: Who) {
    Finished(s, who) && !Launching(s, who) ==> StatusOf(s, who) in {Stopped, Error, Stopping}
  }

  predicate Finished(s: State, who: Who) {
    if who == Loop then s.loop.pc.LDead? || s.loop.pc.LClearStop? || s.loop.pc.LNullHandle?
    else var pc := Get(s, who).pc; pc.Dead? || pc.ClearStop? || pc.NullHandle?
  }

  predicate Launching(s: State, who: Who) {
    s.ui.InStart? && s.ui.who == who && (s.ui.k == Create || s.ui.k == PutError)
  }

  /** Handles and channels of every worker. */
  predicate OwnInv(s: State) {
    WorkerInv(s.mic) && WorkerInv(s.dac) && LoopInv(s.loop) && CrossInv(s)
  }

  predicate Inv(s: State) {
    OwnInv(s) && UiInv(s) && StatusInv(s, Mic) && StatusInv(s, Dac) && StatusInv(s, Loop)
  }

  predicate Rests(st: Status) {
    st == Stopped || st == Error || st == Stopping
  }

  // ---------------------------------------------------------------------------------------------
  // Preservation
  // ---------------------------------------------------------------------------------------------

  predicate SameOwners(s: State, s1: State) {
    && s1.mic.handle == s.mic.handle && s1.mic.chan == s.mic.chan && s1.mic.pc == s.mic.pc
    && s1.dac.handle == s.dac.handle && s1.dac.chan == s.dac.chan && s1.dac.pc == s.dac.pc
    && s1.loop.handle == s.loop.handle && s1.loop.rx == s.loop.rx && s1.loop.tx == s.loop.tx && s1.loop.pc == s.loop.pc
  }

  lemma ReqIsHarmless(s: State, who: Who, r: Req)
    ensures var s1 := ReqStep(s, who, r).0; SameOwners(s, s1) && s1.ui == s.ui
    ensures forall v: Who :: StatusOf(ReqStep(s, who, r).0, v) == StatusOf(s, v) || Rests(StatusOf(ReqStep(s, who, r).0, v))
  {
  }

  lemma SpawnKeeps(s: State, who: Who)
    requires OwnInv(s) && !Alive(s, who) && (who != Loop ==> s.loop.pc.LDead?)
    ensures OwnInv(Spawn(s, who))
  {
  }

  lemma OwnersStay(s: State, s1: State)
    requires OwnInv(s) && SameOwners(s, s1)
    ensures OwnInv(s1)
  {
  }

  lemma UiSpawnsOnly(s: State, c: Choice)
    requires s.ui.InStart? && s.ui.k == Create ==> !Alive(s, s.ui.who)
    ensures UiStep(s, c) != Clash
    ensures UiStep(s, c).Next? && !(s.ui.InStart? && s.ui.k == Create && c.Ok?) ==> SameOwners(s, UiStep(s, c).s)
    ensures s.ui.InStart? && s.ui.k == Create && c.Ok? ==> UiStep(s, c) == Next(Spawn(s, s.ui.who).(ui := Idle))
  {
    if s.ui.InReq? {
      ReqIsHarmless(s, s.ui.who, s.ui.r);
    }
  }

  lemma UiKeepsOwners(s: State, c: Choice, s1: State)
    requires OwnInv(s) && UiInv(s) && UiStep(s, c) == Next(s1)
    ensures OwnInv(s1)
  {
    UiSpawnsOnly(s, c);
    if s.ui.InStart? && s.ui.k == Create && c.Ok? {
      SpawnKeeps(s, s.ui.who);
      OwnersStay(Spawn(s, s.ui.who), s1);
    } else {
      OwnersStay(s, s1);
    }
  }

  lemma UiKeepsUi(s: State, c: Choice)
    requires UiInv(s) && OwnInv(s)
    ensures UiStep(s, c).Next? ==> UiInv(UiStep(s, c).s)
  {
  }

  lemma UiKeepsStatus(s: State, c: Choice, who: Who)
    requires UiInv(s) && StatusInv(s, who)
    ensures UiStep(s, c).Next? ==> StatusInv(UiStep(s, c).s, who)
  {
    if s.ui.InReq? {
      ReqIsHarmless(s, s.ui.who, s.ui.r);
    }
  }

  lemma WorkerKeepsOwn(w: Worker, who: Who, c: Choice)
    requires WorkerInv(w) && !w.pc.Dead?
    ensures WorkerInv(WorkerNext(w, who, c))
    ensures NeedsChan(w.pc) ==> w.chan
  {
  }

  predicate Ended(pc: WorkerPc) {
    pc.Dead? || pc.ClearStop? || pc.NullHandle?
  }

  lemma WorkerRests(w: Worker, who: Who, c: Choice)
    requires Ended(w.pc) ==> Rests(w.status)
    ensures Ended(WorkerNext(w, who, c).pc) ==> Rests(WorkerNext(w, who, c).status)
  {
  }

  lemma WorkerKeeps(s: State, who: Who, c: Choice)
    requires Inv(s) && who != Loop
    ensures WorkerStep(s, who, c) != Clash
    ensures WorkerStep(s, who, c).Next? ==> Inv(WorkerStep(s, who, c).s)
  {
    if Alive(s, who) {
      WorkerKeepsOwn(Get(s, who), who, c);
      WorkerRests(Get(s, who), who, c);
    }
  }

  predicate LoopEnded(pc: LoopPc) {
    pc.LDead? || pc.LClearStop? || pc.LNullHandle?
  }

  lemma ForwardKeepsTx(l: Loopback, c: Choice)
    requires TxInv(l) && !InCleanup(l.pc)
    ensures TxInv(LoopForward(l, c))
    ensures NeedsTx(l.pc) ==> l.tx
  {
  }

  lemma ForwardKeepsRx(l: Loopback, c: Choice)
    requires RxInv(l) && !InCleanup(l.pc)
    ensures RxInv(LoopForward(l, c))
    ensures NeedsRx(l.pc) ==> l.rx
  {
  }

  lemma CleanupKeepsTx(l: Loopback)
    requires TxInv(l) && InCleanup(l.pc)
    ensures TxInv(LoopCleanup(l))
    ensures NeedsTx(l.pc) ==> l.tx
  {
  }

  lemma CleanupKeepsRx(l: Loopback)
    requires RxInv(l) && InCleanup(l.pc)
    ensures RxInv(LoopCleanup(l))
    ensures NeedsRx(l.pc) ==> l.rx
  {
  }

  lemma LoopKeepsChannels(l: Loopback, c: Choice)
    requires TxInv(l) && RxInv(l)
    ensures TxInv(LoopNext(l, c)) && RxInv(LoopNext(l, c))
    ensures NeedsTx(l.pc) ==> l.tx
    ensures NeedsRx(l.pc) ==> l.rx
  {
    if InCleanup(l.pc) {
      CleanupKeepsTx(l);
      CleanupKeepsRx(l);
    } else {
      ForwardKeepsTx(l, c);
      ForwardKeepsRx(l, c);
    }
  }

  /** These statements read variables of the other workers. */
  predicate Reaches(pc: LoopPc) {
    pc.LReq? || pc.LWaitTest? || pc.LWaitRead? || pc.LCheck?
  }

  lemma LoopKeepsShape(l: Loopback, c: Choice)
    requires LoopShape(l) && !l.pc.LDead?
    ensures LoopShape(LoopNext(l, c))
    ensures !Reaches(l.pc) && LoopNext(l, c).pc.LCheck? ==> LoopNext(l, c).pc.i == 0
  {
    if InCleanup(l.pc) {
      CleanupKeepsShape(l);
    }
  }

  lemma CleanupKeepsShape(l: Loopback)
    requires InCleanup(l.pc) && l.handle
    ensures var l1 := LoopCleanup(l); LoopShape(l1) && (InCleanup(l1.pc) || l1.pc.LDead?)
  {
  }

  predicate NeedsBoth(l: Loopback) {
    l.rx || l.tx || Exclusive(l.pc)
  }

  lemma LoopStaysExclusive(l: Loopback, c: Choice)
    requires !Reaches(l.pc) && NeedsBoth(LoopNext(l, c))
    ensures NeedsBoth(l)
  {
  }

  lemma LoopRests(l: Loopback, c: Choice)
    requires !l.pc.LDead? && (LoopEnded(l.pc) ==> Rests(l.status))
    ensures LoopEnded(LoopNext(l, c).pc) ==> Rests(LoopNext(l, c).status)
  {
    if InCleanup(l.pc) {
      CleanupRests(l);
    } else {
      ForwardNeverEnds(l, c);
    }
  }

  lemma CleanupRests(l: Loopback)
    requires InCleanup(l.pc)
    requires LoopEnded(l.pc) ==> Rests(l.status)
    ensures LoopEnded(LoopCleanup(l).pc) ==> Rests(LoopCleanup(l).status)
  {
  }

  lemma ForwardNeverEnds(l: Loopback, c: Choice)
    requires !InCleanup(l.pc) && !l.pc.LDead?
    ensures !LoopEnded(LoopForward(l, c).pc)
  {
  }

  /** A step that reaches for other variables changes no handle and no channel, and learns what it read. */
  lemma LoopReaches(s: State, c: Choice)
    requires LoopInv(s.loop) && CrossInv(s) && WorkerInv(s.mic) && WorkerInv(s.dac) && Reaches(s.loop.pc)
    ensures LoopStep(s, c).Next?
    ensures var s1 := LoopStep(s, c).s;
            && LoopInv(s1.loop) && CrossInv(s1) && s1.ui == s.ui && !s1.loop.pc.LDead? && !LoopEnded(s1.loop.pc)
            && SameOwners(s.(loop := s1.loop), s1)
            && forall v: Who :: StatusOf(s1, v) == StatusOf(s, v) || Rests(StatusOf(s1, v))
  {
    if s.loop.pc.LReq? {
      ReqIsHarmless(s, s.loop.pc.who, s.loop.pc.r);
    } else {
      LoopPolls(s, c);
    }
  }

  lemma LoopPolls(s: State, c: Choice)
    requires Reaches(s.loop.pc) && !s.loop.pc.LReq? && LoopShape(s.loop) && CrossInv(s) && WorkerInv(s.mic) && WorkerInv(s.dac)
    requires !s.loop.tx && !s.loop.rx
    ensures LoopStep(s, c).Next?
    ensures var s1 := LoopStep(s, c).s;
            && s1 == s.(loop := s.loop.(pc := s1.loop.pc)) && LoopShape(s1.loop) && CrossInv(s1)
            && (Reaches(s1.loop.pc) || s1.loop.pc.LTestStop? || s1.loop.pc.LStarting? || s1.loop.pc.LSayError?)
  {
  }

  lemma LoopStepOwn(s: State, c: Choice)
    requires LoopInv(s.loop) && CrossInv(s) && WorkerInv(s.mic) && WorkerInv(s.dac)
    requires !s.loop.pc.LDead? && !Reaches(s.loop.pc)
    ensures LoopStep(s, c) == Next(s.(loop := LoopNext(s.loop, c)))
  {
    LoopKeepsChannels(s.loop, c);
  }

  lemma LoopKeeps(s: State, c: Choice, s1: State)
    requires Inv(s) && LoopStep(s, c) == Next(s1)
    ensures Inv(s1)
  {
    if Reaches(s.loop.pc) {
      LoopReaches(s, c);
    } else {
      LoopKeepsOwn(s, c, s1);
    }
  }

  lemma LoopKeepsOwn(s: State, c: Choice, s1: State)
    requires Inv(s) && LoopStep(s, c) == Next(s1) && !Reaches(s.loop.pc)
    ensures Inv(s1)
  {
    LoopStepOwn(s, c);
    LoopKeepsChannels(s.loop, c);
    LoopKeepsShape(s.loop, c);
    LoopRests(s.loop, c);
    if NeedsBoth(s1.loop) {
      LoopStaysExclusive(s.loop, c);
    }
  }

  lemma KeepsInv(s: State, a: Actor, c: Choice)
    requires Inv(s)
    ensures Step(s, a, c) != Clash
    ensures Step(s, a, c).Next? ==> Inv(Step(s, a, c).s)
  {
    match a
    case Ui =>
      UiSpawnsOnly(s, c);
      if UiStep(s, c).Next? {
        UiKeepsOwners(s, c, UiStep(s, c).s);
        UiKeepsUi(s, c);
        UiKeepsStatus(s, c, Mic);
        UiKeepsStatus(s, c, Dac);
        UiKeepsStatus(s, c, Loop);
      }
    case Task(who) =>
      if who != Loop {
        WorkerKeeps(s, who, c);
      } else if !s.loop.pc.LDead? {
        LoopMoves(s, c);
        LoopKeeps(s, c, LoopStep(s, c).s);
      }
  }

  lemma LoopMoves(s: State, c: Choice)
    requires LoopInv(s.loop) && CrossInv(s) && WorkerInv(s.mic) && WorkerInv(s.dac) && !s.loop.pc.LDead?
    ensures LoopStep(s, c).Next?
  {
    if Reaches(s.loop.pc) {
      LoopReaches(s, c);
    } else {
      LoopStepOwn(s, c);
    }
  }

  // ---------------------------------------------------------------------------------------------
  // Safety over every schedule
  // ---------------------------------------------------------------------------------------------

  lemma {:induction false} RunKeepsInv(s: State, sched: Schedule)
    requires Inv(s)
    ensures Exec(s, sched) != Clash
    ensures Exec(s, sched).Next? ==> Inv(Exec(s, sched).s)
    decreases |sched|
  {
    if sched != [] {
      var (a, c) := sched[0];
      KeepsInv(s, a, c);
      match Step(s, a, c)
      case Next(s1) => RunKeepsInv(s1, sched[1..]);
      case _ =>
    }
  }

  /**
   In every interleaving: no task is created over a living one, no controller is opened twice, the driver
   never sees a NULL channel, the meter and the loopback never both own I2S0 nor the tone and the
   loopback I2S1, and a NULL task handle means a dead worker with no channel.
   */
  lemma Safety(sched: Schedule)
    ensures Exec(Init(), sched) != Clash
    ensures Exec(Init(), sched).Next? ==>
              var s := Exec(Init(), sched).s;
              && !(s.mic.chan && s.loop.rx) && !(s.dac.chan && s.loop.tx)
              && (!s.mic.handle ==> s.mic.pc.Dead? && !s.mic.chan)
              && (!s.dac.handle ==> s.dac.pc.Dead? && !s.dac.chan)
              && (!s.loop.handle ==> s.loop.pc.LDead? && !s.loop.rx && !s.loop.tx)
              && (s.loop.rx || s.loop.tx ==> !s.mic.handle && !s.dac.handle)
  {
    RunKeepsInv(Init(), sched);
  }

  // ---------------------------------------------------------------------------------------------
  // A stop request is honoured
  // ---------------------------------------------------------------------------------------------

  /** Statements a worker with its stop flag set may still execute, itself included. */
  function WorkerRank(pc: WorkerPc): nat {
    match pc
    case Dead => 0
    case NullHandle => 1
    case ClearStop => 2
    case SayStopped => 3
    case TestStatus => 4
    case NullChan => 5
    case DelChan => 6
    case SayError => 7
    case LoopTest => 8
    case Transfer => 9
    case SayRunning => 9
    case EnableChan => 10
    case InitChan => 11
    case NewChan => 12
    case GpioLevel => 13
    case GpioConfig => 14
    case SayStarting => 15
  }

  function ReqRank(r: Req): nat {
    match r
    case ReadHandle => 3
    case TestError => 2
    case PutStopping => 2
    case PutStopped => 1
    case PutFlag => 1
  }

  function LoopRank(pc: LoopPc): nat {
    match pc
    case LDead => 0
    case LNullHandle => 1
    case LClearStop => 2
    case LSayStopped => 3
    case LTestStatus => 4
    case LNullTx => 5
    case LDelTx => 6
    case LNullRx => 7
    case LDelRx => 8
    case LSayError => 9
    case LLoopTest => 10
    case LWrite => 11
    case LRead => 12
    case LRunning => 11
    case LEnableRx => 12
    case LEnableTx => 13
    case LInitRx => 14
    case LNewRx => 15
    case LInitTx => 16
    case LNewTx => 17
    case LGpioLevel => 18
    case LGpioConfig => 19
    case LStarting => 20
    case LCheck(i) => if i < 4 then 24 - i else 21
    case LTestStop => 25
    case LWaitTest(_) => 26
    case LWaitRead(_, i) => if i < 4 then 30 - i else 27
    case LReq(who, r) => if who == Mic then 33 + ReqRank(r) else 30 + ReqRank(r)
    case LBegin => 37
  }

  function RankOf(s: State, who: Who): (r: nat)
    ensures r <= 37
    ensures r == 0 <==> !Alive(s, who)
  {
    if who == Loop then LoopRank(s.loop.pc) else WorkerRank(Get(s, who).pc)
  }

  /** Asked to stop and not finished yet; the flag is already cleared before the last statement. */
  predicate Doomed(s: State, who: Who) {
    Alive(s, who) && (StopOf(s, who) || (if who == Loop then s.loop.pc.LNullHandle? else Get(s, who).pc.NullHandle?))
  }

  lemma OwnStepSinks(s: State, who: Who, c: Choice)
    requires Inv(s) && Doomed(s, who)
    ensures Step(s, Task(who), c).Next?
    ensures var s1 := Step(s, Task(who), c).s; RankOf(s1, who) < RankOf(s, who) && (Alive(s1, who) ==> Doomed(s1, who))
  {
    KeepsInv(s, Task(who), c);
    if who == Loop {
      LoopMoves(s, c);
      if Reaches(s.loop.pc) {
        LoopReaches(s, c);
        ReachesSink(s, c);
      } else {
        LoopStepOwn(s, c);
        LoopSinks(s.loop, c);
      }
    } else {
      WorkerSinks(Get(s, who), who, c);
    }
  }

  lemma WorkerSinks(w: Worker, who: Who, c: Choice)
    requires !w.pc.Dead? && (w.stop || w.pc.NullHandle?)
    ensures var w1 := WorkerNext(w, who, c);
            WorkerRank(w1.pc) < WorkerRank(w.pc) && (w1.pc.Dead? || w1.stop || w1.pc.NullHandle?)
  {
  }

  lemma LoopSinks(l: Loopback, c: Choice)
    requires !l.pc.LDead? && !Reaches(l.pc) && (l.stop || l.pc.LNullHandle?)
    ensures var l1 := LoopNext(l, c);
            LoopRank(l1.pc) < LoopRank(l.pc) && (l1.pc.LDead? || l1.stop || l1.pc.LNullHandle?)
  {
    if InCleanup(l.pc) {
      CleanupSinks(l);
    } else {
      ForwardSinks(l, c);
    }
  }

  lemma CleanupSinks(l: Loopback)
    requires InCleanup(l.pc) && (l.stop || l.pc.LNullHandle?)
    ensures var l1 := LoopCleanup(l);
            LoopRank(l1.pc) < LoopRank(l.pc) && (l1.pc.LDead? || l1.stop || l1.pc.LNullHandle?)
  {
  }

  lemma ForwardSinks(l: Loopback, c: Choice)
    requires !l.pc.LDead? && !InCleanup(l.pc) && !Reaches(l.pc) && l.stop
    ensures LoopRank(LoopForward(l, c).pc) < LoopRank(l.pc) && LoopForward(l, c).stop
  {
  }

  lemma ReachesSink(s: State, c: Choice)
    requires LoopInv(s.loop) && Reaches(s.loop.pc) && s.loop.stop && LoopStep(s, c).Next?
    ensures var s1 := LoopStep(s, c).s; LoopRank(s1.loop.pc) < LoopRank(s.loop.pc) && s1.loop.stop
  {
  }

  /** Nobody else moves a worker or takes a stop request back. */
  lemma OthersLeaveDoomed(s: State, a: Actor, c: Choice, who: Who)
    requires Inv(s) && Doomed(s, who) && a != Task(who) && Step(s, a, c).Next?
    ensures var s1 := Step(s, a, c).s; RankOf(s1, who) == RankOf(s, who) && Doomed(s1, who)
  {
    match a
    case Ui => UiLeaves(s, c, who);
    case Task(v) =>
      if v == Loop {
        LoopLeaves(s, c, who);
      }
  }

  lemma UiLeaves(s: State, c: Choice, who: Who)
    requires UiInv(s) && Alive(s, who) && UiStep(s, c).Next?
    ensures var s1 := UiStep(s, c).s;
            && (if who == Loop then s1.loop.pc == s.loop.pc else Get(s1, who).pc == Get(s, who).pc)
            && (StopOf(s, who) ==> StopOf(s1, who))
  {
  }

  lemma LoopLeaves(s: State, c: Choice, who: Who)
    requires who != Loop && LoopStep(s, c).Next? && LoopShape(s.loop)
    ensures var s1 := LoopStep(s, c).s;
            Get(s1, who).pc == Get(s, who).pc && (StopOf(s, who) ==> StopOf(s1, who))
  {
  }

  function Turns(sched: Schedule, a: Actor): nat {
    if sched == [] then 0 else (if sched[0].0 == a then 1 else 0) + Turns(sched[1..], a)
  }

  /** Whatever the others do, a worker asked to stop has released everything after at most 37 turns of its own. */
  lemma {:induction false} StopIsHonoured(s: State, sched: Schedule, who: Who) returns (n: nat)
    requires Inv(s) && Doomed(s, who) && Exec(s, sched).Next? && Turns(sched, Task(who)) >= RankOf(s, who)
    ensures n <= |sched| && Exec(s, sched[..n]).Next?
    ensures var s1 := Exec(s, sched[..n]).s; Inv(s1) && !Alive(s1, who) && !HandleOf(s1, who)
    decreases |sched|
  {
    var (a, c) := sched[0];
    var s1 := Step(s, a, c).s;
    KeepsInv(s, a, c);
    if a == Task(who) {
      OwnStepSinks(s, who, c);
    } else {
      OthersLeaveDoomed(s, a, c, who);
    }
    if Alive(s1, who) {
      var m := StopIsHonoured(s1, sched[1..], who);
      n := m + 1;
      assert sched[..n][1..] == sched[1..][..m];
    } else {
      n := 1;
      assert sched[..1][1..] == [];
    }
  }

  // ---------------------------------------------------------------------------------------------
  // Status words that outlive their task
  // ---------------------------------------------------------------------------------------------

  /** No task, yet the status word says STOPPING. */
  predicate Stale(s: State, who: Who) {
    !HandleOf(s, who) && StatusOf(s, who) == Stopping
  }

  predicate AboutToPutStopping(s: State, a: Actor, who: Who) {
    || (a == Ui && s.ui == InReq(who, PutStopping))
    || (a == Task(Loop) && s.loop.pc == LReq(who, PutStopping))
  }

  predicate AboutToDropHandle(s: State, a: Actor, who: Who) {
    a == Task(who) && if who == Loop then s.loop.pc.LNullHandle? else Get(s, who).pc.NullHandle?
  }

  /**
   Exactly the two ways a status word gets stuck: a stop request writes STOPPING although the handle it
   read has become NULL meanwhile, or a task ends after its cleanup was overtaken by such a write.
   */
  lemma StaleArises(s: State, a: Actor, c: Choice, who: Who)
    requires Inv(s) && !Stale(s, who) && Step(s, a, c).Next?
    ensures Stale(Step(s, a, c).s, who) <==>
            || (AboutToPutStopping(s, a, who) && !HandleOf(s, who))
            || (AboutToDropHandle(s, a, who) && StatusOf(s, who) == Stopping)
  {
    match a
    case Ui => UiStales(s, c, who);
    case Task(v) =>
      if v == Loop {
        LoopStales(s, c, who);
      } else {
        WorkerStales(Get(s, v), v, c);
      }
  }

  lemma UiStales(s: State, c: Choice, who: Who)
    requires UiInv(s) && !Stale(s, who) && UiStep(s, c).Next?
    ensures Stale(UiStep(s, c).s, who) <==> s.ui == InReq(who, PutStopping) && !HandleOf(s, who)
  {
  }

  lemma WorkerStales(w: Worker, who: Who, c: Choice)
    requires WorkerInv(w) && !w.pc.Dead?
    ensures var w1 := WorkerNext(w, who, c);
            !w1.handle && w1.status == Stopping <==> w.pc.NullHandle? && w.status == Stopping
  {
  }

  lemma LoopStales(s: State, c: Choice, who: Who)
    requires Inv(s) && !Stale(s, who) && LoopStep(s, c).Next?
    ensures Stale(LoopStep(s, c).s, who) <==>
            || (s.loop.pc == LReq(who, PutStopping) && !HandleOf(s, who))
            || (who == Loop && s.loop.pc.LNullHandle? && s.loop.status == Stopping)
  {
    if Reaches(s.loop.pc) {
      ReachesStales(s, c, who);
    } else {
      LoopStepOwn(s, c);
      LoopDrops(s.loop, c);
    }
  }

  lemma ReachesStales(s: State, c: Choice, who: Who)
    requires LoopInv(s.loop) && !Stale(s, who) && Reaches(s.loop.pc) && LoopStep(s, c).Next?
    ensures Stale(LoopStep(s, c).s, who) <==> s.loop.pc == LReq(who, PutStopping) && !HandleOf(s, who)
  {
  }

  lemma LoopDrops(l: Loopback, c: Choice)
    requires l.handle && !l.pc.LDead?
    ensures !LoopNext(l, c).handle <==> l.pc.LNullHandle?
    ensures l.pc.LNullHandle? ==> LoopNext(l, c).status == l.status
  {
  }

  /** When a start from the user interface goes through. */
  predicate Accepts(s: State, who: Who) {
    && !HandleOf(s, who) && !Active(StatusOf(s, who))
    && (who != Loop ==> !HandleOf(s, Loop) && !Active(StatusOf(s, Loop)))
  }

  function Alone(n: nat): Schedule {
    if n == 0 then [] else [(Ui, Ok)] + Alone(n - 1)
  }

  lemma UiGoes(s: State, n: nat, s1: State)
    requires UiStep(s, Ok) == Next(s1)
    ensures Exec(s, Alone(n + 1)) == Exec(s1, Alone(n))
  {
    assert Alone(n + 1)[1..] == Alone(n);
  }

  /** The state after a start that went through: the worker exists with its stop flag clear. */
  function Started(s: State, who: Who): State {
    Spawn(SetStatus(SetStop(s, who, false), who, if who == Loop then Waiting else Starting), who)
  }

  /** A start that runs undisturbed creates the worker, with its stop flag clear, or changes nothing. */
  lemma StartVerdict(s: State, who: Who) returns (n: nat, s1: State)
    requires Inv(s) && s.ui == Idle
    ensures Exec(s, [(Ui, PressStart(who))] + Alone(n)) == Next(s1)
    ensures s1 == if Accepts(s, who) then Started(s, who) else s
  {
    var s0 := UiStep(s, PressStart(who)).s;
    n, s1 := StartRuns(s0);
    assert ([(Ui, PressStart(who))] + Alone(n))[1..] == Alone(n);
  }

  lemma StartRuns(s: State) returns (n: nat, s1: State)
    requires OwnInv(s) && UiInv(s) && s.ui.InStart? && s.ui.k in {TestLoopHandle, TestLoopStatus, TestHandle, TestStatusWord}
    ensures Exec(s, Alone(n)) == Next(s1)
    ensures var who := s.ui.who;
            var pass :=
              && (s.ui.k == TestLoopHandle ==> !HandleOf(s, Loop))
              && (s.ui.k == TestLoopHandle || s.ui.k == TestLoopStatus ==> !Active(StatusOf(s, Loop)))
              && (s.ui.k != TestStatusWord ==> !HandleOf(s, who))
              && !Active(StatusOf(s, who));
            s1 == if pass then Started(s, who).(ui := Idle) else s.(ui := Idle)
    decreases match s.ui.k case TestLoopHandle => 3 case TestLoopStatus => 2 case TestHandle => 1 case _ => 0
  {
    var t := UiStep(s, Ok).s;
    UiKeepsUi(s, Ok);
    if t.ui == Idle {
      n, s1 := 1, t;
      UiGoes(s, 0, t);
    } else if t.ui.k == PutNoStop {
      n := 4;
      s1 := CreateRuns(t);
      UiGoes(s, 3, t);
    } else {
      n, s1 := StartRuns(t);
      UiGoes(s, n, t);
      n := n + 1;
    }
  }

  lemma CreateRuns(s: State) returns (s1: State)
    requires OwnInv(s) && UiInv(s) && s.ui.InStart? && s.ui.k == PutNoStop
    ensures Exec(s, Alone(3)) == Next(s1) && s1 == Started(s, s.ui.who).(ui := Idle)
  {
    var a := UiStep(s, Ok).s;
    var b := UiStep(a, Ok).s;
    s1 := UiStep(b, Ok).s;
    UiGoes(s, 2, a);
    UiGoes(a, 1, b);
    UiGoes(b, 0, s1);
  }

  /** A stop request for a dead worker clears whatever its status word was stuck at, except an error. */
  lemma StopClears(s: State, who: Who) returns (n: nat)
    requires s.ui == Idle && !HandleOf(s, who)
    ensures Exec(s, [(Ui, PressStop(who))] + Alone(n)) ==
            Next(SetStatus(s, who, if StatusOf(s, who) == Error then Error else Stopped))
  {
    var a := UiStep(s, PressStop(who)).s;
    var b := UiStep(a, Ok).s;
    var d := UiStep(b, Ok).s;
    if StatusOf(s, who) == Error {
      n := 2;
      UiGoes(b, 0, d);
    } else {
      n := 3;
      UiGoes(d, 0, UiStep(d, Ok).s);
      UiGoes(b, 1, d);
    }
    UiGoes(a, n - 1, b);
    assert ([(Ui, PressStop(who))] + Alone(n))[1..] == Alone(n);
  }

  /** With every task dead, a stop request for `who` and one for the loopback make a start go through. */
  lemma StopsReopen(s: State, who: Who)
    requires Inv(s) && s.ui == Idle && !HandleOf(s, who) && !HandleOf(s, Loop)
    ensures var s1 := SetStatus(s, who, if StatusOf(s, who) == Error then Error else Stopped);
            Accepts(SetStatus(s1, Loop, if StatusOf(s1, Loop) == Error then Error else Stopped), who)
    ensures !Accepts(s, who) <==> Stale(s, who) || Stale(s, Loop)
  {
  }

  lemma {:induction false} ExecThen(s: State, sched: Schedule, s1: State, a: Actor, c: Choice)
    requires Exec(s, sched) == Next(s1)
    ensures Exec(s, sched + [(a, c)]) == Step(s1, a, c)
    decreases |sched|
  {
    if sched == [] {
      assert (sched + [(a, c)])[1..] == [];
    } else {
      assert (sched + [(a, c)])[1..] == sched[1..] + [(a, c)];
      ExecThen(Step(s, sched[0].0, sched[0].1).s, sched[1..], s1, a, c);
    }
  }

  lemma Extend(sched: Schedule, s: State, a: Actor, c: Choice) returns (sched1: Schedule, s1: State)
    requires Exec(Init(), sched) == Next(s) && Step(s, a, c).Next?
    ensures Exec(Init(), sched1) == Next(s1) && Next(s1) == Step(s, a, c)
  {
    ExecThen(Init(), sched, s, a, c);
    sched1, s1 := sched + [(a, c)], Step(s, a, c).s;
  }

  /** A reachable state in which no task exists and the meter cannot be started: its status word is stale. */
  lemma StaleIsReachable() returns (sched: Schedule, s: State)
    ensures Exec(Init(), sched) == Next(s)
    ensures s.ui == Idle && !s.mic.handle && !s.dac.handle && !s.loop.handle
    ensures Stale(s, Mic) && !Accepts(s, Mic)
  {
    sched, s := MeterAtItsEnd();
    sched, s := Extend(sched, s, Ui, PressStop(Mic));
    sched, s := Extend(sched, s, Ui, Ok);
    sched, s := Extend(sched, s, Task(Mic), Ok);
    sched, s := Extend(sched, s, Ui, Ok);
    sched, s := Extend(sched, s, Ui, Ok);
  }

  /** The meter was started, failed to open its channel, and is about to drop its handle. */
  lemma MeterAtItsEnd() returns (sched: Schedule, s: State)
    ensures Exec(Init(), sched) == Next(s)
    ensures s == Init().(mic := Worker(true, false, false, Error, NullHandle))
  {
    sched, s := MeterStarts();
    sched, s := Extend(sched, s, Task(Mic), Failure);
    sched, s := Extend(sched, s, Task(Mic), Ok);
    sched, s := Extend(sched, s, Task(Mic), Ok);
    sched, s := Extend(sched, s, Task(Mic), Ok);
    sched, s := Extend(sched, s, Task(Mic), Ok);
  }

  lemma MeterStarts() returns (sched: Schedule, s: State)
    ensures Exec(Init(), sched) == Next(s)
    ensures s == Init().(mic := Worker(true, false, false, Starting, NewChan))
  {
    var n;
    n, s := StartVerdict(Init(), Mic);
    sched := [(Ui, PressStart(Mic))] + Alone(n);
  }
}

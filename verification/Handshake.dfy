/**
 The handshake between the NMPC client and its MUSCOD worker thread
 (addons/muscod/src/nmpc_base.cpp), as interleaved steps over one mutex, one
 condition variable and the two ready flags. Polling loops are blocking waits.
 The solver's feedback is an unknown function of all requests it has been given.
 */
module Handshake {
  import opened Options

  type Vector = seq<real>

  datatype Request = Request(sd: Vector, pf: Vector)

  type Solver = seq<Request> -> Vector

  datatype Thread = Client | Worker

  datatype Owner = Free | ByClient | ByWorker

  datatype ClientPc =
    // initialize_thread
    | CInitWait | CInitWaiting | CInitUnlock
    | CIdle
    // provide_iv
    | PWaitReady | PCheck | PLock | PWriteSd | PWritePf | PClear | PSignal | PUnlock
    // retrieve_qc
    | RWaitReady | RCheck | RLock | RRead | RClear | RUnlock
    // stop_thread
    | SWaitReady | SLock | SQuit | SSignal | SUnlock | SJoin | CDone

  datatype WorkerPc =
    // set up
    | WInitLock | WInitData | WInitSignal | WInitUnlock
    // execution loop
    | WLock | WMarkReady | WWait | WWaiting | WWoken | WCopySd | WCopyPf | WUnlockCopied
    | WFeedback | WLockResult | WCheckQuit | WPutQc | WMarkQc | WUnlockResult | WPrepare
    | WExitUnlock | WExit

  /** Mutex, waiters of the condition variable, flags and program counters. */
  datatype Ctl = Ctl(owner: Owner, clientWaits: bool, workerWaits: bool, ivReady: bool, qcReady: bool, quit: bool,
                     client: ClientPc, worker: WorkerPc)

  /**
   Exchange vectors (m...), the client's request and control, the worker's copies, and the history: requests
   handed over, requests given to the solver, how many of them are answered, controls retrieved.
   */
  datatype Data = Data(mSd: Vector, mPf: Vector, mQc: Vector, request: Request, qc: Vector,
                       sd: Vector, pf: Vector, wqc: Vector,
                       provided: seq<Request>, given: seq<Request>, answered: nat, results: seq<Vector>)

  datatype State = State(c: Ctl, d: Data)

  /** The client holds the mutex while it creates the thread; all flags are down. */
  const START := State(Ctl(ByClient, false, false, false, false, false, CInitWait, WInitLock),
                       Data([], [], [], Request([], []), [], [], [], [], [], [], 0, []))

  /** What the client does next when it is idle. */
  datatype Call = Provide(r: Request, wait: bool) | Retrieve(wait: bool) | Stop

  /** A client that retrieves every control before it provides the next request. */
  predicate InTurn(d: Data, call: Call) {
    call.Provide? ==> |d.results| == |d.provided|
  }

  // ----- Steps -----

  /** pthread_cond_signal: wakes one waiter, if there is any. */
  function Signal(c: Ctl, pick: Thread): Option<Ctl> {
    if !c.clientWaits && !c.workerWaits then Some(c)
    else
      match pick
      case Client => if c.clientWaits then Some(c.(clientWaits := false)) else None
      case Worker => if c.workerWaits then Some(c.(workerWaits := false)) else None
  }

  function ClientSignal(c: Ctl, pick: Thread, next: ClientPc): Option<Ctl> {
    match Signal(c, pick) case None => None case Some(n) => Some(n.(client := next))
  }

  function ClientLock(c: Ctl, next: ClientPc): Option<Ctl> {
    if c.owner == Free then Some(c.(owner := ByClient, client := next)) else None
  }

  function ClientUnlock(c: Ctl, next: ClientPc): Option<Ctl> {
    Some(c.(owner := Free, client := next))
  }

  function WorkerLock(c: Ctl, next: WorkerPc): Option<Ctl> {
    if c.owner == Free then Some(c.(owner := ByWorker, worker := next)) else None
  }

  function WorkerUnlock(c: Ctl, next: WorkerPc): Option<Ctl> {
    Some(c.(owner := Free, worker := next))
  }

  /** Control flow of one client step; None if it is blocked. Reading a flag locks and unlocks the mutex. */
  function ClientControl(c: Ctl, call: Call, pick: Thread): Option<Ctl> {
    match c.client
    case CInitWait => Some(c.(client := CInitWaiting, owner := Free, clientWaits := true))
    case CInitWaiting => if c.clientWaits then None else ClientLock(c, CInitUnlock)
    case CInitUnlock => ClientUnlock(c, CIdle)
    case CIdle =>
      (match call
       case Provide(_, wait) => Some(c.(client := if wait then PWaitReady else PCheck))
       case Retrieve(wait) => Some(c.(client := if wait then RWaitReady else RCheck))
       case Stop => Some(c.(client := SWaitReady)))
    case PWaitReady => if c.owner == Free && c.ivReady then Some(c.(client := PCheck)) else None
    case PCheck => if c.owner == Free then Some(c.(client := if c.ivReady then PLock else CIdle)) else None
    case PLock => ClientLock(c, PWriteSd)
    case PWriteSd => Some(c.(client := PWritePf))
    case PWritePf => Some(c.(client := PClear))
    case PClear => Some(c.(client := PSignal, ivReady := false))
    case PSignal => ClientSignal(c, pick, PUnlock)
    case PUnlock => ClientUnlock(c, CIdle)
    case RWaitReady => if c.owner == Free && c.qcReady then Some(c.(client := RCheck)) else None
    case RCheck => if c.owner == Free then Some(c.(client := if c.qcReady then RLock else CIdle)) else None
    case RLock => ClientLock(c, RRead)
    case RRead => Some(c.(client := RClear))
    case RClear => Some(c.(client := RUnlock, qcReady := false))
    case RUnlock => ClientUnlock(c, CIdle)
    case SWaitReady => if c.owner == Free && c.ivReady then Some(c.(client := SLock)) else None
    case SLock => ClientLock(c, SQuit)
    case SQuit => Some(c.(client := SSignal, quit := true))
    case SSignal => ClientSignal(c, pick, SUnlock)
    case SUnlock => ClientUnlock(c, SJoin)
    case SJoin => if c.worker.WExit? then Some(c.(client := CDone)) else None
    case CDone => None
  }

  /** What the client's step does to the data. */
  function ClientData(pc: ClientPc, d: Data, call: Call): Data {
    match pc
    case CIdle => if call.Provide? then d.(request := call.r) else d
    case PWriteSd => d.(mSd := d.request.sd)
    case PWritePf => d.(mPf := d.request.pf)
    case PClear => d.(provided := d.provided + [d.request])
    case RRead => d.(qc := d.mQc, results := d.results + [d.mQc])
    case _ => d
  }

  /** Control flow of one worker step; None if it is blocked. */
  function WorkerControl(c: Ctl, pick: Thread): Option<Ctl> {
    match c.worker
    case WInitLock => WorkerLock(c, WInitData)
    case WInitData => Some(c.(worker := WInitSignal))
    case WInitSignal => (match Signal(c, pick) case None => None case Some(n) => Some(n.(worker := WInitUnlock)))
    case WInitUnlock => WorkerUnlock(c, WLock)
    case WLock => WorkerLock(c, WMarkReady)
    case WMarkReady => Some(c.(worker := WWait, ivReady := true))
    case WWait => Some(c.(worker := WWaiting, owner := Free, workerWaits := true))
    case WWaiting => if c.workerWaits then None else WorkerLock(c, WWoken)
    case WWoken => Some(c.(worker := if c.quit then WExitUnlock else WCopySd))
    case WCopySd => Some(c.(worker := WCopyPf))
    case WCopyPf => Some(c.(worker := WUnlockCopied))
    case WUnlockCopied => WorkerUnlock(c, WFeedback)
    case WFeedback => Some(c.(worker := WLockResult))
    case WLockResult => WorkerLock(c, WCheckQuit)
    case WCheckQuit => Some(c.(worker := if c.quit then WExitUnlock else WPutQc))
    case WPutQc => Some(c.(worker := WMarkQc))
    case WMarkQc => Some(c.(worker := WUnlockResult, qcReady := true))
    case WUnlockResult => WorkerUnlock(c, WPrepare)
    case WPrepare => Some(c.(worker := WLock))
    case WExitUnlock => WorkerUnlock(c, WExit)
    case WExit => None
  }

  /** What the worker's step does to the data. */
  function WorkerData(f: Solver, pc: WorkerPc, d: Data): Data {
    match pc
    case WInitData => d.(mSd := [], mPf := [], mQc := [])
    case WCopySd => d.(sd := d.mSd)
    case WCopyPf => d.(pf := d.mPf)
    case WFeedback =>
      var given := d.given + [Request(d.sd, d.pf)];
      d.(given := given, wqc := f(given))
    case WPutQc => d.(mQc := d.wqc)
    case WMarkQc => d.(answered := d.answered + 1)
    case _ => d
  }

  function ClientStep(s: State, call: Call, pick: Thread): Option<State> {
    match ClientControl(s.c, call, pick)
    case None => None
    case Some(c) => Some(State(c, ClientData(s.c.client, s.d, call)))
  }

  function WorkerStep(f: Solver, s: State, pick: Thread): Option<State> {
    match WorkerControl(s.c, pick)
    case None => None
    case Some(c) => Some(State(c, WorkerData(f, s.c.worker, s.d)))
  }

  // ----- The invariant -----

  predicate ClientHolds(pc: ClientPc) {
    match pc
    case CInitWait | CInitUnlock | PWriteSd | PWritePf | PClear | PSignal | PUnlock | RRead | RClear | RUnlock
       | SQuit | SSignal | SUnlock => true
    case _ => false
  }

  predicate WorkerHolds(pc: WorkerPc) {
    match pc
    case WInitData | WInitSignal | WInitUnlock | WMarkReady | WWait | WWoken | WCopySd | WCopyPf | WUnlockCopied
       | WCheckQuit | WPutQc | WMarkQc | WUnlockResult | WExitUnlock => true
    case _ => false
  }

  predicate Initializing(pc: WorkerPc) {
    pc.WInitLock? || pc.WInitData? || pc.WInitSignal?
  }

  predicate Quitting(pc: ClientPc) {
    pc.SSignal? || pc.SUnlock? || pc.SJoin? || pc.CDone?
  }

  /** The worker waits for the condition and has not been woken. */
  predicate Parked(c: Ctl) {
    c.worker.WWaiting? && c.workerWaits
  }

  /** Mutual exclusion: whoever is in a critical section owns the mutex. */
  predicate LockInv(c: Ctl) {
    && (c.owner == ByClient <==> ClientHolds(c.client))
    && (c.owner == ByWorker <==> WorkerHolds(c.worker))
  }

  predicate WaitersInv(c: Ctl) {
    && (c.clientWaits <==> Initializing(c.worker) && c.client.CInitWaiting?)
    && (c.workerWaits ==> c.worker.WWaiting?)
    && (c.client.CInitWait? ==> c.worker.WInitLock?)
    && (Initializing(c.worker) ==> c.client.CInitWait? || c.client.CInitWaiting?)
    && (c.worker.WInitUnlock? ==> c.client.CInitWaiting?)
  }

  predicate QuitInv(c: Ctl) {
    && (c.quit <==> Quitting(c.client))
    && (c.quit ==> c.worker.WWaiting? || c.worker.WWoken? || c.worker.WExitUnlock? || c.worker.WExit?)
    && (c.quit ==> (Parked(c) <==> c.client.SSignal?))
    && (c.worker.WExitUnlock? || c.worker.WExit? ==> c.quit)
    && (c.client.CDone? ==> c.worker.WExit?)
  }

  /** The ready flag is up only while the worker is about to wait, waits, or is being stopped. */
  predicate ReadyInv(c: Ctl) {
    && (c.ivReady && !c.quit ==> c.worker.WWait? || Parked(c))
    && (Parked(c) && !c.client.PSignal? ==> c.ivReady)
    && (c.worker.WWait? ==> c.ivReady)
    && (c.client.PLock? || c.client.SLock? ==> c.ivReady)
    && (c.client.PWriteSd? || c.client.PWritePf? || c.client.PClear? || c.client.SQuit? ==> c.ivReady && Parked(c))
    && (c.client.PSignal? ==> !c.ivReady && Parked(c))
    && (c.client.PUnlock? ==> c.worker.WWaiting? && !Parked(c))
  }

  predicate Control(c: Ctl) {
    LockInv(c) && WaitersInv(c) && QuitInv(c) && ReadyInv(c)
  }

  /** A request has been handed over that the solver has not been given yet. */
  predicate Mail(c: Ctl) {
    c.client.PSignal? ||
    (!c.quit && ((c.worker.WWaiting? && !c.workerWaits) || c.worker.WWoken? || c.worker.WCopySd? ||
                 c.worker.WCopyPf? || c.worker.WUnlockCopied? || c.worker.WFeedback?))
  }

  /** The solver has computed a control that is not announced yet. */
  predicate Answering(pc: WorkerPc) {
    pc.WLockResult? || pc.WCheckQuit? || pc.WPutQc? || pc.WMarkQc?
  }

  /** The mailbox holds the newest request until the solver has been given it. */
  ghost predicate MailInv(c: Ctl, d: Data) {
    && (if Mail(c) then d.provided == d.given + [Request(d.mSd, d.mPf)] else d.given == d.provided)
    && (c.client.PWritePf? ==> d.mSd == d.request.sd)
    && (c.client.PClear? ==> Request(d.mSd, d.mPf) == d.request)
    && (c.worker.WCopyPf? || c.worker.WUnlockCopied? || c.worker.WFeedback? ==> d.sd == d.mSd)
    && (c.worker.WUnlockCopied? || c.worker.WFeedback? ==> d.pf == d.mPf)
  }

  /** The published control answers the first `answered` requests. */
  ghost predicate AnswerInv(f: Solver, c: Ctl, d: Data) {
    && |d.given| == d.answered + (if Answering(c.worker) then 1 else 0)
    && (Answering(c.worker) ==> d.wqc == f(d.given))
    && (c.worker.WMarkQc? ==> d.mQc == d.wqc)
    && (d.answered > 0 && !c.worker.WMarkQc? ==> d.mQc == f(d.given[..d.answered]))
    && (Initializing(c.worker) ==> d.answered == 0)
  }

  predicate Taking(pc: ClientPc) {
    pc.RLock? || pc.RRead? || pc.RClear?
  }

  /** A control is announced only if there is one. */
  predicate AnnouncedInv(c: Ctl, d: Data) {
    && (c.qcReady ==> d.answered > 0)
    && (Taking(c.client) ==> c.qcReady)
  }

  ghost predicate Inv(f: Solver, s: State) {
    Control(s.c) && MailInv(s.c, s.d) && AnswerInv(f, s.c, s.d) && AnnouncedInv(s.c, s.d)
  }

  predicate Starting(pc: ClientPc) {
    pc.CInitWait? || pc.CInitWaiting? || pc.CInitUnlock? || pc.CIdle?
  }

  predicate Providing(pc: ClientPc) {
    pc.PWaitReady? || pc.PCheck? || pc.PLock? || pc.PWriteSd? || pc.PWritePf?
  }

  predicate Sending(pc: ClientPc) {
    pc.PClear? || pc.PSignal? || pc.PUnlock?
  }

  predicate Retrieving(pc: ClientPc) {
    pc.RWaitReady? || pc.RCheck? || pc.RLock? || pc.RRead? || pc.RClear? || pc.RUnlock?
  }

  predicate Asking(pc: ClientPc) {
    pc.SWaitReady? || pc.SLock? || pc.SQuit?
  }

  predicate Stopping(pc: ClientPc) {
    Asking(pc) || Quitting(pc)
  }

  predicate SettingUp(pc: WorkerPc) {
    Initializing(pc) || pc.WInitUnlock?
  }

  predicate Receiving(pc: WorkerPc) {
    pc.WLock? || pc.WMarkReady? || pc.WWait? || pc.WWaiting? || pc.WWoken?
  }

  predicate Copying(pc: WorkerPc) {
    pc.WCopySd? || pc.WCopyPf? || pc.WUnlockCopied? || pc.WFeedback?
  }

  predicate Finishing(pc: WorkerPc) {
    pc.WUnlockResult? || pc.WPrepare?
  }

  predicate Publishing(pc: WorkerPc) {
    Answering(pc) || Finishing(pc)
  }

  lemma StartingKeepsControl(c: Ctl, call: Call, pick: Thread)
    requires Control(c) && Starting(c.client) && ClientControl(c, call, pick).Some?
    ensures Control(ClientControl(c, call, pick).value)
  {
  }

  lemma ProvidingKeepsControl(c: Ctl, call: Call, pick: Thread)
    requires Control(c) && Providing(c.client) && ClientControl(c, call, pick).Some?
    ensures Control(ClientControl(c, call, pick).value)
  {
  }

  lemma SendingKeepsControl(c: Ctl, call: Call, pick: Thread)
    requires Control(c) && Sending(c.client) && ClientControl(c, call, pick).Some?
    ensures Control(ClientControl(c, call, pick).value)
  {
  }

  lemma RetrievingKeepsControl(c: Ctl, call: Call, pick: Thread)
    requires Control(c) && Retrieving(c.client) && ClientControl(c, call, pick).Some?
    ensures Control(ClientControl(c, call, pick).value)
  {
  }

  lemma AskingKeepsControl(c: Ctl, call: Call, pick: Thread)
    requires Control(c) && Asking(c.client) && ClientControl(c, call, pick).Some?
    ensures Control(ClientControl(c, call, pick).value)
  {
  }

  lemma QuittingKeepsControl(c: Ctl, call: Call, pick: Thread)
    requires Control(c) && Quitting(c.client) && ClientControl(c, call, pick).Some?
    ensures Control(ClientControl(c, call, pick).value)
  {
  }

  lemma ClientKeepsControl(c: Ctl, call: Call, pick: Thread)
    requires Control(c) && ClientControl(c, call, pick).Some?
    ensures Control(ClientControl(c, call, pick).value)
  {
    if Starting(c.client) {
      StartingKeepsControl(c, call, pick);
    } else if Providing(c.client) {
      ProvidingKeepsControl(c, call, pick);
    } else if Sending(c.client) {
      SendingKeepsControl(c, call, pick);
    } else if Retrieving(c.client) {
      RetrievingKeepsControl(c, call, pick);
    } else if Asking(c.client) {
      AskingKeepsControl(c, call, pick);
    } else {
      QuittingKeepsControl(c, call, pick);
    }
  }

  lemma SettingUpKeepsControl(c: Ctl, pick: Thread)
    requires Control(c) && SettingUp(c.worker) && WorkerControl(c, pick).Some?
    ensures Control(WorkerControl(c, pick).value)
  {
  }

  lemma ReceivingKeepsControl(c: Ctl, pick: Thread)
    requires Control(c) && Receiving(c.worker) && WorkerControl(c, pick).Some?
    ensures Control(WorkerControl(c, pick).value)
  {
  }

  lemma CopyingKeepsControl(c: Ctl, pick: Thread)
    requires Control(c) && Copying(c.worker) && WorkerControl(c, pick).Some?
    ensures Control(WorkerControl(c, pick).value)
  {
  }

  lemma AnsweringKeepsControl(c: Ctl, pick: Thread)
    requires Control(c) && Answering(c.worker) && WorkerControl(c, pick).Some?
    ensures Control(WorkerControl(c, pick).value)
  {
  }

  lemma LeavingKeepsControl(c: Ctl, pick: Thread)
    requires Control(c) && (Finishing(c.worker) || c.worker.WExitUnlock?) && WorkerControl(c, pick).Some?
    ensures Control(WorkerControl(c, pick).value)
  {
  }

  lemma WorkerKeepsControl(c: Ctl, pick: Thread)
    requires Control(c) && WorkerControl(c, pick).Some?
    ensures Control(WorkerControl(c, pick).value)
  {
    if SettingUp(c.worker) {
      SettingUpKeepsControl(c, pick);
    } else if Receiving(c.worker) {
      ReceivingKeepsControl(c, pick);
    } else if Copying(c.worker) {
      CopyingKeepsControl(c, pick);
    } else if Answering(c.worker) {
      AnsweringKeepsControl(c, pick);
    } else {
      LeavingKeepsControl(c, pick);
    }
  }

  lemma ProvidingKeepsMail(s: State, call: Call, pick: Thread)
    requires Control(s.c) && MailInv(s.c, s.d) && ClientStep(s, call, pick).Some?
    requires Providing(s.c.client) || Sending(s.c.client)
    ensures MailInv(ClientStep(s, call, pick).value.c, ClientStep(s, call, pick).value.d)
  {
  }

  lemma StartingKeepsMail(s: State, call: Call, pick: Thread)
    requires Control(s.c) && MailInv(s.c, s.d) && ClientStep(s, call, pick).Some?
    requires Starting(s.c.client)
    ensures MailInv(ClientStep(s, call, pick).value.c, ClientStep(s, call, pick).value.d)
  {
  }

  lemma RetrievingKeepsMail(s: State, call: Call, pick: Thread)
    requires Control(s.c) && MailInv(s.c, s.d) && ClientStep(s, call, pick).Some?
    requires Retrieving(s.c.client)
    ensures MailInv(ClientStep(s, call, pick).value.c, ClientStep(s, call, pick).value.d)
  {
  }

  lemma StoppingKeepsMail(s: State, call: Call, pick: Thread)
    requires Control(s.c) && MailInv(s.c, s.d) && ClientStep(s, call, pick).Some?
    requires Stopping(s.c.client)
    ensures MailInv(ClientStep(s, call, pick).value.c, ClientStep(s, call, pick).value.d)
  {
  }

  lemma ClientKeepsMail(s: State, call: Call, pick: Thread)
    requires Control(s.c) && MailInv(s.c, s.d) && ClientStep(s, call, pick).Some?
    ensures MailInv(ClientStep(s, call, pick).value.c, ClientStep(s, call, pick).value.d)
  {
    if Providing(s.c.client) || Sending(s.c.client) {
      ProvidingKeepsMail(s, call, pick);
    } else if Stopping(s.c.client) {
      StoppingKeepsMail(s, call, pick);
    } else if Retrieving(s.c.client) {
      RetrievingKeepsMail(s, call, pick);
    } else {
      StartingKeepsMail(s, call, pick);
    }
  }

  lemma ProviderLeavesWorker(c: Ctl, call: Call, pick: Thread)
    requires ClientControl(c, call, pick).Some? && (Providing(c.client) || Sending(c.client))
    ensures ClientControl(c, call, pick).value.worker == c.worker
  {
  }

  lemma StopperLeavesWorker(c: Ctl, call: Call, pick: Thread)
    requires ClientControl(c, call, pick).Some? && Stopping(c.client)
    ensures ClientControl(c, call, pick).value.worker == c.worker
  {
  }

  lemma RetrieverLeavesWorker(c: Ctl, call: Call, pick: Thread)
    requires ClientControl(c, call, pick).Some? && (Starting(c.client) || Retrieving(c.client))
    ensures ClientControl(c, call, pick).value.worker == c.worker
  {
  }

  lemma ClientLeavesWorker(c: Ctl, call: Call, pick: Thread)
    requires ClientControl(c, call, pick).Some?
    ensures ClientControl(c, call, pick).value.worker == c.worker
  {
    if Providing(c.client) || Sending(c.client) {
      ProviderLeavesWorker(c, call, pick);
    } else if Stopping(c.client) {
      StopperLeavesWorker(c, call, pick);
    } else {
      RetrieverLeavesWorker(c, call, pick);
    }
  }

  lemma ClientLeavesAnswers(pc: ClientPc, d: Data, call: Call)
    ensures var n := ClientData(pc, d, call);
            n.given == d.given && n.answered == d.answered && n.wqc == d.wqc && n.mQc == d.mQc
  {
  }

  lemma SameAnswers(f: Solver, c: Ctl, d: Data, c': Ctl, d': Data)
    requires AnswerInv(f, c, d) && c'.worker == c.worker
    requires d'.given == d.given && d'.answered == d.answered && d'.wqc == d.wqc && d'.mQc == d.mQc
    ensures AnswerInv(f, c', d')
  {
  }

  lemma ClientKeepsAnswer(f: Solver, s: State, call: Call, pick: Thread)
    requires AnswerInv(f, s.c, s.d) && ClientStep(s, call, pick).Some?
    ensures AnswerInv(f, ClientStep(s, call, pick).value.c, ClientStep(s, call, pick).value.d)
  {
    ClientLeavesWorker(s.c, call, pick);
    ClientLeavesAnswers(s.c.client, s.d, call);
    SameAnswers(f, s.c, s.d, ClientControl(s.c, call, pick).value, ClientData(s.c.client, s.d, call));
  }

  lemma ClientFlagFalls(c: Ctl, call: Call, pick: Thread)
    requires ClientControl(c, call, pick).Some?
    ensures ClientControl(c, call, pick).value.qcReady ==> c.qcReady
  {
  }

  lemma RetrieverTakesAnnounced(c: Ctl, call: Call, pick: Thread)
    requires ClientControl(c, call, pick).Some? && Retrieving(c.client) && (Taking(c.client) ==> c.qcReady)
    ensures var n := ClientControl(c, call, pick).value; Taking(n.client) ==> n.qcReady
  {
  }

  lemma StarterTakesNothing(c: Ctl, call: Call, pick: Thread)
    requires ClientControl(c, call, pick).Some? && Starting(c.client)
    ensures !Taking(ClientControl(c, call, pick).value.client)
  {
  }

  lemma ProviderTakesNothing(c: Ctl, call: Call, pick: Thread)
    requires ClientControl(c, call, pick).Some? && Providing(c.client)
    ensures !Taking(ClientControl(c, call, pick).value.client)
  {
  }

  lemma SenderTakesNothing(c: Ctl, call: Call, pick: Thread)
    requires ClientControl(c, call, pick).Some? && Sending(c.client)
    ensures !Taking(ClientControl(c, call, pick).value.client)
  {
  }

  lemma AskerOnlyStops(c: Ctl, call: Call, pick: Thread)
    requires ClientControl(c, call, pick).Some? && Asking(c.client)
    ensures Stopping(ClientControl(c, call, pick).value.client) && ClientControl(c, call, pick).value.qcReady == c.qcReady
  {
  }

  lemma QuitterOnlyStops(c: Ctl, call: Call, pick: Thread)
    requires ClientControl(c, call, pick).Some? && Quitting(c.client)
    ensures Stopping(ClientControl(c, call, pick).value.client) && ClientControl(c, call, pick).value.qcReady == c.qcReady
  {
  }

  lemma StoppingOnlyStops(c: Ctl, call: Call, pick: Thread)
    requires ClientControl(c, call, pick).Some? && Stopping(c.client)
    ensures Stopping(ClientControl(c, call, pick).value.client) && ClientControl(c, call, pick).value.qcReady == c.qcReady
  {
    if Asking(c.client) {
      AskerOnlyStops(c, call, pick);
    } else {
      QuitterOnlyStops(c, call, pick);
    }
  }

  /** Only a retrieve that has seen the flag takes the control. */
  lemma OnlyTakesAnnounced(c: Ctl, call: Call, pick: Thread)
    requires ClientControl(c, call, pick).Some? && (Taking(c.client) ==> c.qcReady)
    ensures var n := ClientControl(c, call, pick).value; Taking(n.client) ==> n.qcReady
  {
    if Retrieving(c.client) {
      RetrieverTakesAnnounced(c, call, pick);
    } else if Starting(c.client) {
      StarterTakesNothing(c, call, pick);
    } else if Providing(c.client) {
      ProviderTakesNothing(c, call, pick);
    } else if Sending(c.client) {
      SenderTakesNothing(c, call, pick);
    } else {
      StoppingOnlyStops(c, call, pick);
    }
  }

  lemma ClientKeepsAnnounced(s: State, call: Call, pick: Thread)
    requires AnnouncedInv(s.c, s.d) && ClientStep(s, call, pick).Some?
    ensures AnnouncedInv(ClientStep(s, call, pick).value.c, ClientStep(s, call, pick).value.d)
  {
    ClientFlagFalls(s.c, call, pick);
    OnlyTakesAnnounced(s.c, call, pick);
    ClientLeavesAnswers(s.c.client, s.d, call);
  }

  lemma ClientKeepsInv(f: Solver, s: State, call: Call, pick: Thread)
    requires Inv(f, s) && ClientStep(s, call, pick).Some?
    ensures Inv(f, ClientStep(s, call, pick).value)
  {
    ClientKeepsControl(s.c, call, pick);
    ClientKeepsMail(s, call, pick);
    ClientKeepsAnswer(f, s, call, pick);
    ClientKeepsAnnounced(s, call, pick);
  }

  lemma ReceivingKeepsMail(f: Solver, s: State, pick: Thread)
    requires Control(s.c) && MailInv(s.c, s.d) && WorkerStep(f, s, pick).Some?
    requires SettingUp(s.c.worker) || Receiving(s.c.worker)
    ensures MailInv(WorkerStep(f, s, pick).value.c, WorkerStep(f, s, pick).value.d)
  {
  }

  lemma CopyingKeepsMail(f: Solver, s: State, pick: Thread)
    requires Control(s.c) && MailInv(s.c, s.d) && WorkerStep(f, s, pick).Some?
    requires Copying(s.c.worker)
    ensures MailInv(WorkerStep(f, s, pick).value.c, WorkerStep(f, s, pick).value.d)
  {
  }

  lemma AnsweringKeepsMail(f: Solver, s: State, pick: Thread)
    requires Control(s.c) && MailInv(s.c, s.d) && WorkerStep(f, s, pick).Some?
    requires Answering(s.c.worker)
    ensures MailInv(WorkerStep(f, s, pick).value.c, WorkerStep(f, s, pick).value.d)
  {
  }

  lemma LeavingKeepsMail(f: Solver, s: State, pick: Thread)
    requires Control(s.c) && MailInv(s.c, s.d) && WorkerStep(f, s, pick).Some?
    requires Finishing(s.c.worker) || s.c.worker.WExitUnlock?
    ensures MailInv(WorkerStep(f, s, pick).value.c, WorkerStep(f, s, pick).value.d)
  {
  }

  lemma WorkerKeepsMail(f: Solver, s: State, pick: Thread)
    requires Control(s.c) && MailInv(s.c, s.d) && WorkerStep(f, s, pick).Some?
    ensures MailInv(WorkerStep(f, s, pick).value.c, WorkerStep(f, s, pick).value.d)
  {
    if SettingUp(s.c.worker) || Receiving(s.c.worker) {
      ReceivingKeepsMail(f, s, pick);
    } else if Copying(s.c.worker) {
      CopyingKeepsMail(f, s, pick);
    } else if Answering(s.c.worker) {
      AnsweringKeepsMail(f, s, pick);
    } else {
      LeavingKeepsMail(f, s, pick);
    }
  }

  lemma FeedbackKeepsAnswer(f: Solver, s: State, pick: Thread)
    requires AnswerInv(f, s.c, s.d) && s.c.worker.WFeedback?
    ensures AnswerInv(f, WorkerStep(f, s, pick).value.c, WorkerStep(f, s, pick).value.d)
  {
    assert (s.d.given + [Request(s.d.sd, s.d.pf)])[..|s.d.given|] == s.d.given;
    assert s.d.given[..|s.d.given|] == s.d.given;
  }

  lemma PublishingKeepsAnswer(f: Solver, s: State, pick: Thread)
    requires Control(s.c) && AnswerInv(f, s.c, s.d) && WorkerStep(f, s, pick).Some? && Answering(s.c.worker)
    ensures AnswerInv(f, WorkerStep(f, s, pick).value.c, WorkerStep(f, s, pick).value.d)
  {
    assert s.d.given[..|s.d.given|] == s.d.given;
  }

  lemma SettingUpKeepsAnswer(f: Solver, s: State, pick: Thread)
    requires Control(s.c) && AnswerInv(f, s.c, s.d) && WorkerStep(f, s, pick).Some?
    requires SettingUp(s.c.worker)
    ensures AnswerInv(f, WorkerStep(f, s, pick).value.c, WorkerStep(f, s, pick).value.d)
  {
  }

  /** Neither setting up nor at work on an answer. */
  predicate Elsewhere(pc: WorkerPc) {
    !SettingUp(pc) && !Answering(pc) && !pc.WFeedback?
  }

  lemma OthersLeaveAnswers(f: Solver, pc: WorkerPc, d: Data)
    requires Elsewhere(pc)
    ensures var n := WorkerData(f, pc, d);
            n.given == d.given && n.answered == d.answered && n.wqc == d.wqc && n.mQc == d.mQc
  {
  }

  lemma ReceiverStaysElsewhere(c: Ctl, pick: Thread)
    requires WorkerControl(c, pick).Some? && Receiving(c.worker)
    ensures var pc := WorkerControl(c, pick).value.worker; !Answering(pc) && !Initializing(pc)
  {
  }

  lemma OthersStayElsewhere(c: Ctl, pick: Thread)
    requires WorkerControl(c, pick).Some? && Elsewhere(c.worker)
    ensures var pc := WorkerControl(c, pick).value.worker; !Answering(pc) && !Initializing(pc)
  {
    if Receiving(c.worker) {
      ReceiverStaysElsewhere(c, pick);
    }
  }

  lemma OthersKeepAnswer(f: Solver, s: State, pick: Thread)
    requires AnswerInv(f, s.c, s.d) && WorkerStep(f, s, pick).Some? && Elsewhere(s.c.worker)
    ensures AnswerInv(f, WorkerStep(f, s, pick).value.c, WorkerStep(f, s, pick).value.d)
  {
    OthersLeaveAnswers(f, s.c.worker, s.d);
    OthersStayElsewhere(s.c, pick);
  }

  lemma WorkerKeepsAnswer(f: Solver, s: State, pick: Thread)
    requires Control(s.c) && AnswerInv(f, s.c, s.d) && WorkerStep(f, s, pick).Some?
    ensures AnswerInv(f, WorkerStep(f, s, pick).value.c, WorkerStep(f, s, pick).value.d)
  {
    if s.c.worker.WFeedback? {
      FeedbackKeepsAnswer(f, s, pick);
    } else if Answering(s.c.worker) {
      PublishingKeepsAnswer(f, s, pick);
    } else if SettingUp(s.c.worker) {
      SettingUpKeepsAnswer(f, s, pick);
    } else {
      OthersKeepAnswer(f, s, pick);
    }
  }

  lemma ReceivingKeepsAnnounced(f: Solver, s: State, pick: Thread)
    requires AnnouncedInv(s.c, s.d) && WorkerStep(f, s, pick).Some? && (SettingUp(s.c.worker) || Receiving(s.c.worker))
    ensures AnnouncedInv(WorkerStep(f, s, pick).value.c, WorkerStep(f, s, pick).value.d)
  {
  }

  lemma PublishingKeepsAnnounced(f: Solver, s: State, pick: Thread)
    requires AnnouncedInv(s.c, s.d) && WorkerStep(f, s, pick).Some? && !SettingUp(s.c.worker) && !Receiving(s.c.worker)
    ensures AnnouncedInv(WorkerStep(f, s, pick).value.c, WorkerStep(f, s, pick).value.d)
  {
  }

  lemma WorkerKeepsAnnounced(f: Solver, s: State, pick: Thread)
    requires AnnouncedInv(s.c, s.d) && WorkerStep(f, s, pick).Some?
    ensures AnnouncedInv(WorkerStep(f, s, pick).value.c, WorkerStep(f, s, pick).value.d)
  {
    if SettingUp(s.c.worker) || Receiving(s.c.worker) {
      ReceivingKeepsAnnounced(f, s, pick);
    } else {
      PublishingKeepsAnnounced(f, s, pick);
    }
  }

  lemma WorkerKeepsInv(f: Solver, s: State, pick: Thread)
    requires Inv(f, s) && WorkerStep(f, s, pick).Some?
    ensures Inv(f, WorkerStep(f, s, pick).value)
  {
    WorkerKeepsControl(s.c, pick);
    WorkerKeepsMail(f, s, pick);
    WorkerKeepsAnswer(f, s, pick);
    WorkerKeepsAnnounced(f, s, pick);
  }

  // ----- A client that takes turns -----

  /** The retrieved controls are what a sequential controller would have returned for the same requests. */
  ghost predicate Sequential(f: Solver, d: Data) {
    |d.results| <= |d.provided| && forall i :: 0 <= i < |d.results| ==> d.results[i] == f(d.provided[..i + 1])
  }

  ghost predicate TurnInv(f: Solver, s: State) {
    && Sequential(f, s.d) && |s.d.results| <= s.d.answered
    && |s.d.provided| <= |s.d.results| + 1
    && (Providing(s.c.client) || s.c.client.PClear? ==> |s.d.provided| == |s.d.results|)
    && (s.c.client.RClear? ==> s.d.answered == |s.d.results|)
    && (!s.c.client.RClear? ==> (s.c.qcReady <==> s.d.answered == |s.d.results| + 1))
  }

  lemma PrefixesStay(provided: seq<Request>, r: Request)
    ensures forall i {:trigger provided[..i]} :: 0 <= i <= |provided| ==> (provided + [r])[..i] == provided[..i]
  {
  }

  lemma ProvidingKeepsTurns(f: Solver, s: State, call: Call, pick: Thread)
    requires Inv(f, s) && TurnInv(f, s) && ClientStep(s, call, pick).Some?
    requires Providing(s.c.client) || Sending(s.c.client)
    ensures TurnInv(f, ClientStep(s, call, pick).value)
  {
    PrefixesStay(s.d.provided, s.d.request);
  }

  lemma RetrievingKeepsTurns(f: Solver, s: State, call: Call, pick: Thread)
    requires Inv(f, s) && TurnInv(f, s) && ClientStep(s, call, pick).Some?
    requires Retrieving(s.c.client)
    ensures TurnInv(f, ClientStep(s, call, pick).value)
  {
    assert s.d.provided[..|s.d.provided|] == s.d.provided;
  }

  lemma StartingKeepsTurns(f: Solver, s: State, call: Call, pick: Thread)
    requires TurnInv(f, s) && ClientStep(s, call, pick).Some? && Starting(s.c.client)
    requires s.c.client.CIdle? ==> InTurn(s.d, call)
    ensures TurnInv(f, ClientStep(s, call, pick).value)
  {
  }

  lemma StoppingKeepsTurns(f: Solver, s: State, call: Call, pick: Thread)
    requires TurnInv(f, s) && ClientStep(s, call, pick).Some? && Stopping(s.c.client)
    ensures TurnInv(f, ClientStep(s, call, pick).value)
  {
    StoppingOnlyStops(s.c, call, pick);
  }

  lemma ClientKeepsTurns(f: Solver, s: State, call: Call, pick: Thread)
    requires Inv(f, s) && TurnInv(f, s) && ClientStep(s, call, pick).Some?
    requires s.c.client.CIdle? ==> InTurn(s.d, call)
    ensures TurnInv(f, ClientStep(s, call, pick).value)
  {
    if Providing(s.c.client) || Sending(s.c.client) {
      ProvidingKeepsTurns(f, s, call, pick);
    } else if Retrieving(s.c.client) {
      RetrievingKeepsTurns(f, s, call, pick);
    } else if Starting(s.c.client) {
      StartingKeepsTurns(f, s, call, pick);
    } else {
      StoppingKeepsTurns(f, s, call, pick);
    }
  }

  lemma WorkerKeepsTurns(f: Solver, s: State, pick: Thread)
    requires Inv(f, s) && TurnInv(f, s) && WorkerStep(f, s, pick).Some?
    ensures TurnInv(f, WorkerStep(f, s, pick).value)
  {
  }

  // ----- Runs -----

  datatype Event = OfClient(call: Call, pick: Thread) | OfWorker(pick: Thread)

  function Step(f: Solver, s: State, e: Event): Option<State> {
    match e
    case OfClient(call, pick) => ClientStep(s, call, pick)
    case OfWorker(pick) => WorkerStep(f, s, pick)
  }

  /** The state after the events, in this order; None if one of them cannot happen. */
  function Exec(f: Solver, events: seq<Event>): Option<State> {
    if events == [] then Some(START)
    else
      match Exec(f, events[..|events| - 1])
      case None => None
      case Some(s) => Step(f, s, events[|events| - 1])
  }

  /** Each request of this run is provided after all earlier controls are retrieved. */
  predicate TakesTurns(f: Solver, events: seq<Event>) {
    events == [] ||
    var before, e := events[..|events| - 1], events[|events| - 1];
    && TakesTurns(f, before)
    && (match Exec(f, before)
        case None => true
        case Some(s) => e.OfClient? && s.c.client.CIdle? ==> InTurn(s.d, e.call))
  }

  lemma {:induction false} RunsKeepInv(f: Solver, events: seq<Event>)
    requires Exec(f, events).Some?
    ensures Inv(f, Exec(f, events).value)
  {
    if events != [] {
      var before, e := events[..|events| - 1], events[|events| - 1];
      RunsKeepInv(f, before);
      match e
      case OfClient(call, pick) => ClientKeepsInv(f, Exec(f, before).value, call, pick);
      case OfWorker(pick) => WorkerKeepsInv(f, Exec(f, before).value, pick);
    }
  }

  lemma {:induction false} RunsKeepTurns(f: Solver, events: seq<Event>)
    requires Exec(f, events).Some? && TakesTurns(f, events)
    ensures TurnInv(f, Exec(f, events).value)
  {
    if events != [] {
      var before, e := events[..|events| - 1], events[|events| - 1];
      RunsKeepTurns(f, before);
      RunsKeepInv(f, before);
      match e
      case OfClient(call, pick) => ClientKeepsTurns(f, Exec(f, before).value, call, pick);
      case OfWorker(pick) => WorkerKeepsTurns(f, Exec(f, before).value, pick);
    }
  }

  /** In every run the two threads are never both in a critical section. */
  lemma MutualExclusion(f: Solver, events: seq<Event>)
    requires Exec(f, events).Some?
    ensures var c := Exec(f, events).value.c; !(ClientHolds(c.client) && WorkerHolds(c.worker))
  {
    RunsKeepInv(f, events);
  }

  /**
   In every run each signal wakes the thread it is meant for, and the worker leaves its wait only with a new
   request in the mailbox or to quit.
   */
  lemma NoWakeupIsLost(f: Solver, events: seq<Event>, pick: Thread)
    requires Exec(f, events).Some?
    ensures var c := Exec(f, events).value.c;
            && (c.client.PSignal? || c.client.SSignal? ==>
                  Parked(c) && Signal(c, Worker) == Some(c.(workerWaits := false)) && Signal(c, Client).None?)
            && (c.worker.WInitSignal? ==>
                  c.clientWaits && Signal(c, Client) == Some(c.(clientWaits := false)) && Signal(c, Worker).None?)
    ensures var s := Exec(f, events).value;
            s.c.worker.WWoken? && !s.c.quit ==> s.d.provided == s.d.given + [Request(s.d.mSd, s.d.mPf)]
  {
    RunsKeepInv(f, events);
  }

  /**
   In every run, of any client: the solver is given the requests in the order they were provided, each once and
   untorn, with at most one outstanding.
   */
  lemma RequestsArriveInOrder(f: Solver, events: seq<Event>)
    requires Exec(f, events).Some?
    ensures var d := Exec(f, events).value.d;
            d.given <= d.provided && |d.provided| <= |d.given| + 1 && |d.given| <= d.answered + 1
  {
    RunsKeepInv(f, events);
  }

  /** In every run, of any client: a control that is read answers a request that was provided before. */
  lemma ControlReadIsAnAnswer(f: Solver, events: seq<Event>)
    requires Exec(f, events).Some? && Exec(f, events).value.c.client.RRead?
    ensures var d := Exec(f, events).value.d;
            0 < d.answered <= |d.provided| && d.mQc == f(d.provided[..d.answered])
  {
    RunsKeepInv(f, events);
    var d := Exec(f, events).value.d;
    assert d.given[..d.answered] == d.provided[..d.answered];
  }

  /** If the client takes turns, each control is the solver's answer to the request provided just before it. */
  lemma ControlsAreFresh(f: Solver, events: seq<Event>)
    requires Exec(f, events).Some? && TakesTurns(f, events)
    ensures Sequential(f, Exec(f, events).value.d)
    ensures var s := Exec(f, events).value; s.c.client.RRead? ==> s.d.mQc == f(s.d.provided)
  {
    RunsKeepInv(f, events);
    RunsKeepTurns(f, events);
    var d := Exec(f, events).value.d;
    assert d.provided[..|d.provided|] == d.provided;
  }

  // ----- Progress -----

  ghost predicate Stuck(f: Solver, s: State) {
    && (forall call, pick :: ClientStep(s, call, pick).None?)
    && (forall pick :: WorkerStep(f, s, pick).None?)
  }

  /**
   In every run, of any client: no deadlock, except that a stopped client is done and that a client may wait for
   a control when every request is answered and the last control has been taken.
   */
  lemma NoDeadlock(f: Solver, events: seq<Event>)
    requires Exec(f, events).Some? && Stuck(f, Exec(f, events).value)
    ensures var s := Exec(f, events).value;
            || (s.c.client.CDone? && s.c.worker.WExit?)
            || (s.c.client.RWaitReady? && !s.c.qcReady && Parked(s.c) && s.d.answered == |s.d.provided|)
  {
    RunsKeepInv(f, events);
    var s := Exec(f, events).value;
    assert ClientStep(s, Stop, Client).None? && ClientStep(s, Stop, Worker).None?;
    assert WorkerStep(f, s, Client).None? && WorkerStep(f, s, Worker).None?;
    StuckControl(s.c, Stop);
  }

  lemma StuckControl(c: Ctl, call: Call)
    requires Control(c)
    requires ClientControl(c, call, Client).None? && ClientControl(c, call, Worker).None?
    requires WorkerControl(c, Client).None? && WorkerControl(c, Worker).None?
    ensures (c.client.CDone? && c.worker.WExit?) || (c.client.RWaitReady? && !c.qcReady && Parked(c))
  {
    match c.owner
    case Free =>
    case ByClient =>
    case ByWorker =>
  }

  /** A client that takes turns gets stuck only by asking for a control it did not request. */
  lemma TurnTakerNeverStarves(f: Solver, events: seq<Event>)
    requires Exec(f, events).Some? && TakesTurns(f, events) && Stuck(f, Exec(f, events).value)
    ensures var s := Exec(f, events).value; s.c.client.CDone? || |s.d.results| == |s.d.provided|
  {
    NoDeadlock(f, events);
    RunsKeepTurns(f, events);
  }

  /** Worker steps from here to the announcement of a control. */
  function ToAnswer(pc: WorkerPc): nat {
    match pc
    case WWaiting => 10
    case WWoken => 9
    case WCopySd => 8
    case WCopyPf => 7
    case WUnlockCopied => 6
    case WFeedback => 5
    case WLockResult => 4
    case WCheckQuit => 3
    case WPutQc => 2
    case WMarkQc => 1
    case _ => 0
  }

  /** Worker steps from here to the next wait with the ready flag up. */
  function ToReady(pc: WorkerPc): nat {
    match pc
    case WMarkReady => 1
    case WLock => 2
    case WPrepare => 3
    case WUnlockResult => 4
    case _ => ToAnswer(pc) + 4
  }

  function WorkerSteps(c: Ctl, n: nat): Option<Ctl>
    decreases n
  {
    if n == 0 then Some(c)
    else
      match WorkerControl(c, Worker)
      case None => None
      case Some(next) => WorkerSteps(next, n - 1)
  }

  /** A request is on its way: in the mailbox or with the solver. */
  predicate Busy(c: Ctl) {
    Mail(c) || Answering(c.worker)
  }

  lemma StepTowardsAnswer(c: Ctl)
    requires Control(c) && c.client.RWaitReady? && !c.qcReady && Busy(c)
    ensures WorkerControl(c, Worker).Some?
    ensures var n := WorkerControl(c, Worker).value;
            && n.client.RWaitReady?
            && (if n.qcReady then ToAnswer(c.worker) == 1 else Busy(n) && ToAnswer(n.worker) + 1 == ToAnswer(c.worker))
  {
  }

  lemma {:induction false} AnswerComes(c: Ctl)
    requires Control(c) && c.client.RWaitReady? && !c.qcReady && Busy(c)
    ensures WorkerSteps(c, ToAnswer(c.worker)).Some? && WorkerSteps(c, ToAnswer(c.worker)).value.qcReady
    decreases ToAnswer(c.worker)
  {
    StepTowardsAnswer(c);
    WorkerKeepsControl(c, Worker);
    var n := WorkerControl(c, Worker).value;
    if n.qcReady {
      assert WorkerSteps(n, 0) == Some(n);
    } else {
      AnswerComes(n);
    }
  }

  /** Any client that waits while a request is unanswered gets a control after at most ten worker steps. */
  lemma ControlArrives(f: Solver, events: seq<Event>)
    requires Exec(f, events).Some?
    requires var s := Exec(f, events).value;
             s.c.client.RWaitReady? && !s.c.qcReady && s.d.answered < |s.d.provided|
    ensures var c := Exec(f, events).value.c;
            ToAnswer(c.worker) <= 10 &&
            WorkerSteps(c, ToAnswer(c.worker)).Some? && WorkerSteps(c, ToAnswer(c.worker)).value.qcReady
  {
    RunsKeepInv(f, events);
    AnswerComes(Exec(f, events).value.c);
  }

  lemma PublishingGetsReady(c: Ctl)
    requires Control(c) && c.client.PWaitReady? && !c.ivReady && Publishing(c.worker)
    ensures WorkerControl(c, Worker).Some?
    ensures var n := WorkerControl(c, Worker).value;
            && n.client.PWaitReady?
            && (if n.ivReady then ToReady(c.worker) == 1 else ToReady(n.worker) + 1 == ToReady(c.worker))
  {
  }

  lemma ReceivingGetsReady(c: Ctl)
    requires Control(c) && c.client.PWaitReady? && !c.ivReady && !Publishing(c.worker)
    ensures WorkerControl(c, Worker).Some?
    ensures var n := WorkerControl(c, Worker).value;
            && n.client.PWaitReady?
            && (if n.ivReady then ToReady(c.worker) == 1 else ToReady(n.worker) + 1 == ToReady(c.worker))
  {
  }

  lemma StepTowardsReady(c: Ctl)
    requires Control(c) && c.client.PWaitReady? && !c.ivReady
    ensures WorkerControl(c, Worker).Some?
    ensures var n := WorkerControl(c, Worker).value;
            && n.client.PWaitReady?
            && (if n.ivReady then ToReady(c.worker) == 1 else ToReady(n.worker) + 1 == ToReady(c.worker))
  {
    if Publishing(c.worker) {
      PublishingGetsReady(c);
    } else {
      ReceivingGetsReady(c);
    }
  }

  lemma {:induction false} ReadyComes(c: Ctl)
    requires Control(c) && c.client.PWaitReady? && !c.ivReady
    ensures WorkerSteps(c, ToReady(c.worker)).Some? && WorkerSteps(c, ToReady(c.worker)).value.ivReady
    decreases ToReady(c.worker)
  {
    StepTowardsReady(c);
    WorkerKeepsControl(c, Worker);
    var n := WorkerControl(c, Worker).value;
    if n.ivReady {
      assert WorkerSteps(n, 0) == Some(n);
    } else {
      ReadyComes(n);
    }
  }

  /** Any client that waits to provide a request can do so after at most fourteen worker steps. */
  lemma WorkerGetsReady(f: Solver, events: seq<Event>)
    requires Exec(f, events).Some?
    requires Exec(f, events).value.c.client.PWaitReady? && !Exec(f, events).value.c.ivReady
    ensures var c := Exec(f, events).value.c;
            ToReady(c.worker) <= 14 &&
            WorkerSteps(c, ToReady(c.worker)).Some? && WorkerSteps(c, ToReady(c.worker)).value.ivReady
  {
    RunsKeepInv(f, events);
    ReadyComes(Exec(f, events).value.c);
  }

  // ----- A client that does not take turns -----

  /** The states that can be reached after these events. */
  ghost function After(f: Solver, events: seq<Event>): State -> bool {
    s => exists more :: Exec(f, events + more) == Some(s)
  }

  /** With a state, every state that one more step leads to is in the set. */
  ghost predicate Closed(f: Solver, reach: State -> bool) {
    forall s, e :: reach(s) && Step(f, s, e).Some? ==> reach(Step(f, s, e).value)
  }

  lemma LastEvent(f: Solver, events: seq<Event>, e: Event)
    ensures Exec(f, events + [e]) == match Exec(f, events) case None => None case Some(s) => Step(f, s, e)
  {
    assert (events + [e])[..|events|] == events;
  }

  lemma OneMoreEvent(f: Solver, events: seq<Event>, more: seq<Event>, s: State, e: Event)
    requires Exec(f, events + more) == Some(s)
    ensures Exec(f, events + (more + [e])) == Step(f, s, e)
  {
    assert events + (more + [e]) == (events + more) + [e];
    LastEvent(f, events + more, e);
  }

  lemma AfterIsClosed(f: Solver, events: seq<Event>)
    ensures Closed(f, After(f, events))
  {
    forall s, e | After(f, events)(s) && Step(f, s, e).Some?
      ensures After(f, events)(Step(f, s, e).value)
    {
      var more :| Exec(f, events + more) == Some(s);
      OneMoreEvent(f, events, more, s, e);
    }
  }

  lemma AfterStarts(f: Solver, events: seq<Event>)
    requires Exec(f, events).Some?
    ensures After(f, events)(Exec(f, events).value)
  {
    assert events + [] == events;
  }

  /** One more step of the client, with this control flow. */
  lemma ClientGoes(f: Solver, reach: State -> bool, s0: State, call: Call, c: Ctl) returns (s: State)
    requires Closed(f, reach) && reach(s0) && ClientControl(s0.c, call, Worker) == Some(c)
    ensures reach(s) && s == State(c, ClientData(s0.c.client, s0.d, call))
  {
    s := State(c, ClientData(s0.c.client, s0.d, call));
    assert Step(f, s0, OfClient(call, Worker)) == Some(s);
  }

  /** One more step of the worker, with this control flow. */
  lemma WorkerGoes(f: Solver, reach: State -> bool, s0: State, c: Ctl) returns (s: State)
    requires Closed(f, reach) && reach(s0) && WorkerControl(s0.c, Client) == Some(c)
    ensures reach(s) && s == State(c, WorkerData(f, s0.c.worker, s0.d))
  {
    s := State(c, WorkerData(f, s0.c.worker, s0.d));
    assert Step(f, s0, OfWorker(Client)) == Some(s);
  }

  /** The worker is parked and the client idle. */
  predicate Idle(s: State) {
    s.c == Ctl(Free, false, true, true, s.c.qcReady, false, CIdle, WWaiting)
  }

  /** The worker sets up while the client waits. */
  lemma SetUp(f: Solver, reach: State -> bool) returns (s: State)
    requires Closed(f, reach) && reach(START)
    ensures reach(s)
    ensures s == State(Ctl(Free, false, false, false, false, false, CInitWaiting, WLock), START.d)
  {
    s := ClientGoes(f, reach, START, Stop, Ctl(Free, true, false, false, false, false, CInitWaiting, WInitLock));
    s := WorkerGoes(f, reach, s, s.c.(owner := ByWorker, worker := WInitData));
    s := WorkerGoes(f, reach, s, s.c.(worker := WInitSignal));
    s := WorkerGoes(f, reach, s, s.c.(worker := WInitUnlock, clientWaits := false));
    s := WorkerGoes(f, reach, s, s.c.(owner := Free, worker := WLock));
  }

  /** Both threads start and the worker parks. */
  lemma StartUp(f: Solver, reach: State -> bool) returns (s: State)
    requires Closed(f, reach) && reach(START)
    ensures reach(s) && Idle(s) && !s.c.qcReady && s.d == START.d
  {
    s := SetUp(f, reach);
    s := ClientGoes(f, reach, s, Stop, s.c.(owner := ByClient, client := CInitUnlock));
    s := ClientGoes(f, reach, s, Stop, s.c.(owner := Free, client := CIdle));
    s := WaitFrom(f, reach, s);
  }

  /** The worker enters its wait. */
  lemma WaitFrom(f: Solver, reach: State -> bool, s0: State) returns (s: State)
    requires Closed(f, reach) && reach(s0) && s0.c == Ctl(Free, false, false, false, s0.c.qcReady, false, CIdle, WLock)
    ensures reach(s) && Idle(s) && s.c.qcReady == s0.c.qcReady && s.d == s0.d
  {
    s := WorkerGoes(f, reach, s0, s0.c.(owner := ByWorker, worker := WMarkReady));
    s := WorkerGoes(f, reach, s, s.c.(ivReady := true, worker := WWait));
    s := WorkerGoes(f, reach, s, s.c.(owner := Free, workerWaits := true, worker := WWaiting));
  }

  /** provide_iv has been entered while the worker is parked. */
  predicate Entered(s: State) {
    (s.c.client.PWaitReady? || s.c.client.PCheck?) &&
    s.c == Ctl(Free, false, true, true, s.c.qcReady, false, s.c.client, WWaiting)
  }

  lemma WriteRequest(f: Solver, reach: State -> bool, s0: State) returns (s: State)
    requires Closed(f, reach) && reach(s0) && Entered(s0)
    ensures reach(s)
    ensures s == State(s0.c.(owner := ByClient, client := PClear),
                       s0.d.(mSd := s0.d.request.sd, mPf := s0.d.request.pf))
  {
    s := s0;
    if s0.c.client.PWaitReady? {
      s := ClientGoes(f, reach, s0, Stop, s0.c.(client := PCheck));
    }
    s := ClientGoes(f, reach, s, Stop, s.c.(client := PLock));
    s := ClientGoes(f, reach, s, Stop, s.c.(owner := ByClient, client := PWriteSd));
    s := ClientGoes(f, reach, s, Stop, s.c.(client := PWritePf));
    s := ClientGoes(f, reach, s, Stop, s.c.(client := PClear));
  }

  /** A request is handed over, which wakes the worker. */
  lemma HandOver(f: Solver, reach: State -> bool, s0: State) returns (s: State)
    requires Closed(f, reach) && reach(s0) && s0.c.client.PClear? && Parked(s0.c) && !s0.c.clientWaits
    ensures reach(s)
    ensures s.c == s0.c.(client := CIdle, owner := Free, ivReady := false, workerWaits := false)
    ensures s.d == s0.d.(provided := s0.d.provided + [s0.d.request])
  {
    s := ClientGoes(f, reach, s0, Stop, s0.c.(client := PSignal, ivReady := false));
    s := ClientGoes(f, reach, s, Stop, s.c.(client := PUnlock, workerWaits := false));
    s := ClientGoes(f, reach, s, Stop, s.c.(client := CIdle, owner := Free));
  }

  /** provide_iv without waiting, while the worker is parked. */
  lemma ProvideAtOnce(f: Solver, reach: State -> bool, s0: State, r: Request) returns (s: State)
    requires Closed(f, reach) && reach(s0) && Idle(s0)
    ensures reach(s)
    ensures s.c == s0.c.(ivReady := false, workerWaits := false)
    ensures s.d == s0.d.(request := r, mSd := r.sd, mPf := r.pf, provided := s0.d.provided + [r])
  {
    s := ClientGoes(f, reach, s0, Provide(r, false), s0.c.(client := PCheck));
    s := WriteRequest(f, reach, s);
    s := HandOver(f, reach, s);
  }

  /** retrieve_qc without waiting, before the worker has an answer: nothing is retrieved. */
  lemma RetrieveInVain(s: State)
    requires s.c.client.CIdle? && s.c.owner.Free? && !s.c.qcReady
    ensures ClientStep(s, Retrieve(false), Worker) == Some(State(s.c.(client := RCheck), s.d))
    ensures ClientStep(State(s.c.(client := RCheck), s.d), Stop, Worker) == Some(s)
  {
  }

  /** The woken worker copies the request. */
  lemma CopyRequest(f: Solver, reach: State -> bool, s0: State) returns (s: State)
    requires Closed(f, reach) && reach(s0) && s0.c == Ctl(Free, false, false, false, false, false, CIdle, WWaiting)
    ensures reach(s) && s.c == s0.c.(worker := WFeedback)
    ensures s.d == s0.d.(sd := s0.d.mSd, pf := s0.d.mPf)
  {
    s := WorkerGoes(f, reach, s0, s0.c.(owner := ByWorker, worker := WWoken));
    s := WorkerGoes(f, reach, s, s.c.(worker := WCopySd));
    s := WorkerGoes(f, reach, s, s.c.(worker := WCopyPf));
    s := WorkerGoes(f, reach, s, s.c.(worker := WUnlockCopied));
    s := WorkerGoes(f, reach, s, s.c.(owner := Free, worker := WFeedback));
  }

  /** The woken worker copies the request and gives it to the solver. */
  lemma Solve(f: Solver, reach: State -> bool, s0: State) returns (s: State)
    requires Closed(f, reach) && reach(s0) && s0.c == Ctl(Free, false, false, false, false, false, CIdle, WWaiting)
    ensures reach(s) && s.c == s0.c.(worker := WLockResult)
    ensures var given := s0.d.given + [Request(s0.d.mSd, s0.d.mPf)];
            s.d == s0.d.(sd := s0.d.mSd, pf := s0.d.mPf, given := given, wqc := f(given))
  {
    s := CopyRequest(f, reach, s0);
    s := WorkerGoes(f, reach, s, s.c.(worker := WLockResult));
  }

  /** The worker announces the control. */
  lemma Announce(f: Solver, reach: State -> bool, s0: State) returns (s: State)
    requires Closed(f, reach) && reach(s0) && s0.c == Ctl(Free, false, false, false, false, false, CIdle, WLockResult)
    ensures reach(s) && s.c == s0.c.(qcReady := true, worker := WPrepare)
    ensures s.d == s0.d.(mQc := s0.d.wqc, answered := s0.d.answered + 1)
  {
    s := WorkerGoes(f, reach, s0, s0.c.(owner := ByWorker, worker := WCheckQuit));
    s := WorkerGoes(f, reach, s, s.c.(worker := WPutQc));
    s := WorkerGoes(f, reach, s, s.c.(worker := WMarkQc));
    s := WorkerGoes(f, reach, s, s.c.(qcReady := true, worker := WUnlockResult));
    s := WorkerGoes(f, reach, s, s.c.(owner := Free, worker := WPrepare));
  }

  /** The worker prepares and waits for the next request. */
  lemma Park(f: Solver, reach: State -> bool, s0: State) returns (s: State)
    requires Closed(f, reach) && reach(s0) && s0.c == Ctl(Free, false, false, false, true, false, CIdle, WPrepare)
    ensures reach(s) && Idle(s) && s.c.qcReady && s.d == s0.d
  {
    s := WorkerGoes(f, reach, s0, s0.c.(worker := WLock));
    s := WaitFrom(f, reach, s);
  }

  /** retrieve_qc without waiting, up to the read, while the control is announced. */
  lemma ReadAtOnce(f: Solver, reach: State -> bool, s0: State) returns (s: State)
    requires Closed(f, reach) && reach(s0) && s0.c.client.CIdle? && s0.c.owner.Free? && s0.c.qcReady
    ensures reach(s) && s == State(s0.c.(client := RRead, owner := ByClient), s0.d)
  {
    s := ClientGoes(f, reach, s0, Retrieve(false), s0.c.(client := RCheck));
    s := ClientGoes(f, reach, s, Stop, s.c.(client := RLock));
    s := ClientGoes(f, reach, s, Stop, s.c.(client := RRead, owner := ByClient));
  }

  /** retrieve_qc without waiting, while the control is announced. */
  lemma RetrieveAtOnce(f: Solver, reach: State -> bool, s0: State) returns (s: State)
    requires Closed(f, reach) && reach(s0) && s0.c.client.CIdle? && s0.c.owner.Free? && s0.c.qcReady
    ensures reach(s) && s.d == s0.d.(qc := s0.d.mQc, results := s0.d.results + [s0.d.mQc])
  {
    s := ReadAtOnce(f, reach, s0);
    s := ClientGoes(f, reach, s, Stop, s.c.(client := RClear));
  }

  /** The woken worker answers the request and waits for the next one. */
  lemma AnswerAndPark(f: Solver, reach: State -> bool, s0: State) returns (s: State)
    requires Closed(f, reach) && reach(s0) && s0.c == Ctl(Free, false, false, false, false, false, CIdle, WWaiting)
    ensures reach(s) && Idle(s) && s.c.qcReady
    ensures s.d.provided == s0.d.provided && s.d.results == s0.d.results
    ensures s.d.mQc == f(s0.d.given + [Request(s0.d.mSd, s0.d.mPf)])
  {
    s := Solve(f, reach, s0);
    s := Announce(f, reach, s);
    s := Park(f, reach, s);
  }

  /** get_feedback without waiting: the retrieve comes too early and the answer stays announced. */
  lemma AnswerStays(f: Solver, reach: State -> bool, r: Request) returns (s: State)
    requires Closed(f, reach) && reach(START)
    ensures reach(s) && Idle(s) && s.c.qcReady
    ensures s.d.provided == [r] && s.d.results == [] && s.d.mQc == f([r])
  {
    s := StartUp(f, reach);
    s := ProvideAtOnce(f, reach, s, r);
    RetrieveInVain(s);
    s := AnswerAndPark(f, reach, s);
  }

  /**
   get_feedback twice without waiting: the second retrieve, made after the second request was provided, returns the
   answer to the first request. This client does not take turns.
   */
  lemma StaleControl(f: Solver, first: Request, second: Request) returns (events: seq<Event>)
    ensures Exec(f, events).Some?
    ensures var d := Exec(f, events).value.d; d.provided == [first, second] && d.results == [f([first])]
  {
    var reach := After(f, []);
    AfterIsClosed(f, []);
    AfterStarts(f, []);
    var s := AnswerStays(f, reach, first);
    s := ProvideAtOnce(f, reach, s, second);
    s := RetrieveAtOnce(f, reach, s);
    var more :| Exec(f, [] + more) == Some(s);
    events := [] + more;
  }

  // ----- Exactly when the control that is read is the newest -----

  /** Whenever a request of this run is handed over, no earlier control is announced. */
  predicate FlagDownAtHandOvers(f: Solver, events: seq<Event>) {
    events == [] ||
    var before, e := events[..|events| - 1], events[|events| - 1];
    && FlagDownAtHandOvers(f, before)
    && (match Exec(f, before)
        case None => true
        case Some(s) => e.OfClient? && s.c.client.PClear? ==> !s.c.qcReady)
  }

  /** An announced control answers the newest request. */
  predicate NewestAnnounced(s: State) {
    s.c.qcReady ==> s.d.answered == |s.d.provided|
  }

  lemma ClientKeepsNewest(s: State, call: Call, pick: Thread)
    requires NewestAnnounced(s) && ClientStep(s, call, pick).Some?
    requires s.c.client.PClear? ==> !s.c.qcReady
    ensures NewestAnnounced(ClientStep(s, call, pick).value)
  {
    ClientFlagFalls(s.c, call, pick);
  }

  lemma WorkerKeepsNewest(f: Solver, s: State, pick: Thread)
    requires Inv(f, s) && NewestAnnounced(s) && WorkerStep(f, s, pick).Some?
    ensures NewestAnnounced(WorkerStep(f, s, pick).value)
  {
    if !s.c.worker.WMarkQc? {
      WorkerFlagStays(s.c, pick);
    }
  }

  lemma WorkerFlagStays(c: Ctl, pick: Thread)
    requires WorkerControl(c, pick).Some? && !c.worker.WMarkQc?
    ensures WorkerControl(c, pick).value.qcReady == c.qcReady
  {
  }

  lemma {:induction false} RunsKeepNewest(f: Solver, events: seq<Event>)
    requires Exec(f, events).Some? && FlagDownAtHandOvers(f, events)
    ensures NewestAnnounced(Exec(f, events).value)
  {
    if events != [] {
      var before, e := events[..|events| - 1], events[|events| - 1];
      RunsKeepNewest(f, before);
      RunsKeepInv(f, before);
      match e
      case OfClient(call, pick) => ClientKeepsNewest(Exec(f, before).value, call, pick);
      case OfWorker(pick) => WorkerKeepsNewest(f, Exec(f, before).value, pick);
    }
  }

  /** If the flag is down at all hand-overs, every control that is read answers all requests up to the newest. */
  lemma NewestIsRead(f: Solver, events: seq<Event>)
    requires Exec(f, events).Some? && FlagDownAtHandOvers(f, events) && Exec(f, events).value.c.client.RRead?
    ensures Exec(f, events).value.d.mQc == f(Exec(f, events).value.d.provided)
  {
    RunsKeepNewest(f, events);
    ControlReadIsAnAnswer(f, events);
    RunsKeepInv(f, events);
    var d := Exec(f, events).value.d;
    assert d.provided[..|d.provided|] == d.provided;
  }

  /** A client that takes turns hands its requests over with the flag down. */
  lemma {:induction false} TurnTakersLowerTheFlag(f: Solver, events: seq<Event>)
    requires TakesTurns(f, events)
    ensures FlagDownAtHandOvers(f, events)
  {
    if events != [] {
      var before := events[..|events| - 1];
      TurnTakersLowerTheFlag(f, before);
      if Exec(f, before).Some? {
        RunsKeepTurns(f, before);
        RunsKeepInv(f, before);
      }
    }
  }

  /** provide_iv has been entered and its request is not handed over yet. */
  predicate Handing(pc: ClientPc) {
    Providing(pc) || pc.PClear?
  }

  /** A request is about to be handed over to a worker that is ready for it, while no control is announced. */
  predicate HandsOver(c: Ctl) {
    Handing(c.client) && c.ivReady && !c.qcReady
  }

  /** After this many requests another one is handed over, and then an announced control answers the last of them. */
  ghost predicate NewestFrom(m: nat, s: State) {
    && |s.d.provided| >= m
    && (|s.d.provided| == m ==> HandsOver(s.c))
    && (|s.d.provided| == m + 1 ==> NewestAnnounced(s))
  }

  lemma ProviderGoesOn(c: Ctl, call: Call, pick: Thread)
    requires HandsOver(c) && !c.client.PClear? && ClientControl(c, call, pick).Some?
    ensures HandsOver(ClientControl(c, call, pick).value)
  {
  }

  lemma ClientKeepsNewestFrom(m: nat, s: State, call: Call, pick: Thread)
    requires NewestFrom(m, s) && ClientStep(s, call, pick).Some?
    ensures NewestFrom(m, ClientStep(s, call, pick).value)
  {
    ClientProvides(s, call, pick);
    ClientFlagFalls(s.c, call, pick);
    if |s.d.provided| == m && !s.c.client.PClear? {
      ProviderGoesOn(s.c, call, pick);
    }
  }

  /** While a request is handed over, all the worker does is to park. */
  lemma WorkerParks(f: Solver, s: State, pick: Thread)
    requires Inv(f, s) && HandsOver(s.c) && WorkerStep(f, s, pick).Some?
    ensures var n := WorkerStep(f, s, pick).value; HandsOver(n.c) && n.d == s.d
  {
    assert s.c.worker.WWait? || Parked(s.c);
  }

  lemma ClientProvides(s: State, call: Call, pick: Thread)
    requires ClientStep(s, call, pick).Some?
    ensures var n := ClientStep(s, call, pick).value;
            n.d.answered == s.d.answered && n.d.provided == s.d.provided + if s.c.client.PClear? then [s.d.request] else []
  {
  }

  lemma WorkerKeepsNewestFrom(f: Solver, m: nat, s: State, pick: Thread)
    requires Inv(f, s) && NewestFrom(m, s) && WorkerStep(f, s, pick).Some?
    ensures NewestFrom(m, WorkerStep(f, s, pick).value)
  {
    if |s.d.provided| == m {
      WorkerParks(f, s, pick);
    } else if NewestAnnounced(s) {
      WorkerKeepsNewest(f, s, pick);
    }
  }

  lemma {:induction false} RunsKeepNewestFrom(f: Solver, events: seq<Event>, more: seq<Event>, m: nat)
    requires Exec(f, events).Some? && NewestFrom(m, Exec(f, events).value) && Exec(f, events + more).Some?
    ensures NewestFrom(m, Exec(f, events + more).value)
    decreases |more|
  {
    if more == [] {
      assert events + more == events;
    } else {
      var init, last := more[..|more| - 1], more[|more| - 1];
      assert events + more == (events + init) + [last];
      LastEvent(f, events + init, last);
      RunsKeepNewestFrom(f, events, init, m);
      RunsKeepInv(f, events + init);
      StepKeepsNewestFrom(f, m, Exec(f, events + init).value, last);
    }
  }

  lemma StepKeepsNewestFrom(f: Solver, m: nat, s: State, e: Event)
    requires Inv(f, s) && NewestFrom(m, s) && Step(f, s, e).Some?
    ensures NewestFrom(m, Step(f, s, e).value)
  {
    match e
    case OfClient(call, pick) => ClientKeepsNewestFrom(m, s, call, pick);
    case OfWorker(pick) => WorkerKeepsNewestFrom(f, m, s, pick);
  }

  /** With the flag up at a hand-over, the next control that is read can answer the request before. */
  lemma ReadsStale(f: Solver, reach: State -> bool, s0: State) returns (s: State)
    requires Closed(f, reach) && reach(s0) && Inv(f, s0) && s0.c.client.PClear? && s0.c.qcReady
    ensures reach(s) && s.c.client.RRead?
    ensures s.d.provided == s0.d.provided + [s0.d.request]
    ensures s.d.answered == |s0.d.provided| && s.d.mQc == f(s0.d.provided)
  {
    AllAnswered(f, s0);
    s := HandOver(f, reach, s0);
    s := ReadAtOnce(f, reach, s);
  }

  lemma StaleReadFollows(f: Solver, events: seq<Event>) returns (more: seq<Event>)
    requires Exec(f, events).Some? && Exec(f, events).value.c.client.PClear? && Exec(f, events).value.c.qcReady
    ensures ReadsNext(f, events, more)
    ensures var d, n := Exec(f, events).value.d, Exec(f, events + more).value.d;
            n.provided == d.provided + [d.request] && n.answered == |d.provided| && n.mQc == f(d.provided)
  {
    RunsKeepInv(f, events);
    AfterIsClosed(f, events);
    AfterStarts(f, events);
    var s := ReadsStale(f, After(f, events), Exec(f, events).value);
    more :| Exec(f, events + more) == Some(s);
  }

  /** The worker parks, if it has not yet. */
  lemma ParkNow(f: Solver, reach: State -> bool, s0: State) returns (s: State)
    requires Closed(f, reach) && reach(s0) && Inv(f, s0) && s0.c.ivReady
    requires s0.c.client.PWaitReady? || s0.c.client.PCheck?
    ensures reach(s) && Entered(s) && s.c.qcReady == s0.c.qcReady && s.d == s0.d
  {
    s := s0;
    if s0.c.worker.WWait? {
      s := WorkerGoes(f, reach, s0, s0.c.(owner := Free, workerWaits := true, worker := WWaiting));
    }
  }

  /** With the flag up when provide_iv is entered, the next control that is read can answer the request before. */
  lemma StaleReadFollowsCall(f: Solver, events: seq<Event>) returns (more: seq<Event>)
    requires Exec(f, events).Some?
    requires var c := Exec(f, events).value.c; (c.client.PWaitReady? || c.client.PCheck?) && c.ivReady && c.qcReady
    ensures ReadsNext(f, events, more)
    ensures var d, n := Exec(f, events).value.d, Exec(f, events + more).value.d;
            n.provided == d.provided + [d.request] && n.answered == |d.provided| && n.mQc == f(d.provided)
  {
    var reach := After(f, events);
    RunsKeepInv(f, events);
    AfterIsClosed(f, events);
    AfterStarts(f, events);
    var s := ParkNow(f, reach, Exec(f, events).value);
    s := WriteRequest(f, reach, s);
    var write :| Exec(f, events + write) == Some(s);
    RunsKeepInv(f, events + write);
    s := ReadsStale(f, reach, s);
    more :| Exec(f, events + more) == Some(s);
  }

  /** When a request is handed over, the ones before are answered. */
  lemma AllAnswered(f: Solver, s: State)
    requires Inv(f, s) && s.c.client.PClear?
    ensures Parked(s.c) && !s.c.clientWaits && s.d.answered == |s.d.provided|
    ensures s.c.qcReady ==> s.d.mQc == f(s.d.provided)
  {
    assert s.d.given[..|s.d.given|] == s.d.provided;
  }

  /** This continuation reads a control before another request is handed over. */
  predicate ReadsNext(f: Solver, events: seq<Event>, more: seq<Event>) {
    && Exec(f, events).Some? && Exec(f, events + more).Some?
    && var s, n := Exec(f, events).value, Exec(f, events + more).value;
       n.c.client.RRead? && |n.d.provided| == |s.d.provided| + 1
  }

  /** The control that is read answers all requests up to the newest. */
  predicate ReadsNewest(f: Solver, events: seq<Event>) {
    Exec(f, events).Some? && Exec(f, events).value.d.answered == |Exec(f, events).value.d.provided|
  }

  /**
   When a request is handed over, in any run of any client: the next control that is read is sure to answer this
   request if and only if the ready flag of the controls is down.
   */
  lemma FreshIffFlagDown(f: Solver, events: seq<Event>)
    requires Exec(f, events).Some? && Exec(f, events).value.c.client.PClear?
    ensures !Exec(f, events).value.c.qcReady <==>
            forall more :: ReadsNext(f, events, more) ==> ReadsNewest(f, events + more)
  {
    RunsKeepInv(f, events);
    if Exec(f, events).value.c.qcReady {
      var more := StaleReadFollows(f, events);
      assert ReadsNext(f, events, more) && !ReadsNewest(f, events + more);
    } else {
      FreshReadsFollow(f, events);
    }
  }

  /** While a request is handed over with the flag down, the next control that is read answers it. */
  lemma FreshReadsFollow(f: Solver, events: seq<Event>)
    requires Exec(f, events).Some? && HandsOver(Exec(f, events).value.c)
    ensures forall more :: ReadsNext(f, events, more) ==> ReadsNewest(f, events + more)
  {
    var m := |Exec(f, events).value.d.provided|;
    forall more | ReadsNext(f, events, more)
      ensures ReadsNewest(f, events + more)
    {
      RunsKeepNewestFrom(f, events, more, m);
      RunsKeepInv(f, events + more);
    }
  }

  /**
   When provide_iv is called, with or without waiting, while the worker is ready for a request, in any run of any
   client: the next control that is read is sure to answer this request if and only if no control is announced.
   */
  lemma FreshIffNoneAnnounced(f: Solver, events: seq<Event>, r: Request, wait: bool, pick: Thread)
    requires Exec(f, events).Some? && Exec(f, events).value.c.client.CIdle? && Exec(f, events).value.c.ivReady
    ensures var called := events + [OfClient(Provide(r, wait), pick)];
            && Exec(f, called).Some? && Exec(f, called).value.d.request == r
            && (!Exec(f, events).value.c.qcReady <==>
                forall more :: ReadsNext(f, called, more) ==> ReadsNewest(f, called + more))
  {
    var e := OfClient(Provide(r, wait), pick);
    var called := events + [e];
    LastEvent(f, events, e);
    if Exec(f, events).value.c.qcReady {
      var more := StaleReadFollowsCall(f, called);
      assert ReadsNext(f, called, more) && !ReadsNewest(f, called + more);
    } else {
      FreshReadsFollow(f, called);
    }
  }
}

/**
 What one call of the NMPC client does (addons/muscod/src/nmpc_base.cpp: provide_iv, retrieve_qc, stop_thread), however
 its steps are interleaved with those of the worker.
 */
module Calls {
  import opened Options
  import opened Handshake

  /** After these events an idle client makes the call, and before the last event it has not returned. */
  predicate During(f: Solver, events: seq<Event>, call: Call, more: seq<Event>)
    decreases |more|
  {
    more != [] && Exec(f, events).Some? && Exec(f, events + more).Some? &&
    var init, last := more[..|more| - 1], more[|more| - 1];
    if init == [] then Exec(f, events).value.c.client.CIdle? && last.OfClient? && last.call == call
    else During(f, events, call, init) && !Exec(f, events + init).value.c.client.CIdle?
  }

  /** The whole call, from an idle client to an idle client. */
  predicate IsCall(f: Solver, events: seq<Event>, call: Call, more: seq<Event>) {
    During(f, events, call, more) && Exec(f, events + more).value.c.client.CIdle?
  }

  /** The ready flag of the call is up where the client checks it before it goes on without waiting. */
  predicate Checks(s: State, e: Event) {
    e.OfClient? && ((s.c.client.PCheck? && s.c.ivReady) || (s.c.client.RCheck? && s.c.qcReady))
  }

  predicate FlagIsUp(f: Solver, events: seq<Event>, more: seq<Event>)
    decreases |more|
  {
    more != [] &&
    var init, last := more[..|more| - 1], more[|more| - 1];
    FlagIsUp(f, events, init) || (Exec(f, events + init).Some? && Checks(Exec(f, events + init).value, last))
  }

  /** What is provided, and when, since the call. */
  predicate ProvideProgress(r: Request, wait: bool, d0: Data, s: State, up: bool) {
    s.d.results == d0.results &&
    match s.c.client
    case PWaitReady => wait && !up && s.d.request == r && s.d.provided == d0.provided
    case PCheck => (wait ==> s.c.ivReady) && !up && s.d.request == r && s.d.provided == d0.provided
    case PLock | PWriteSd | PWritePf | PClear => up && s.d.request == r && s.d.provided == d0.provided
    case PSignal | PUnlock => up && s.d.provided == d0.provided + [r]
    case CIdle => (wait ==> up) && s.d.provided == if up then d0.provided + [r] else d0.provided
    case _ => false
  }

  /** One more control than before, which the client has got. */
  predicate OneMore(d0: Data, d: Data) {
    |d.results| == |d0.results| + 1 && d.results == d0.results + [d.qc]
  }

  predicate RetrieveProgress(wait: bool, d0: Data, s: State, up: bool) {
    s.d.provided == d0.provided &&
    match s.c.client
    case RWaitReady => wait && !up && s.d.results == d0.results
    case RCheck => (wait ==> s.c.qcReady) && !up && s.d.results == d0.results
    case RLock | RRead => up && s.d.results == d0.results
    case RClear | RUnlock => up && OneMore(d0, s.d)
    case CIdle => (wait ==> up) && if up then OneMore(d0, s.d) else s.d.results == d0.results
    case _ => false
  }

  predicate Progress(call: Call, d0: Data, s: State, up: bool) {
    match call
    case Provide(r, wait) => ProvideProgress(r, wait, d0, s, up)
    case Retrieve(wait) => RetrieveProgress(wait, d0, s, up)
    case Stop => Stopping(s.c.client) && s.d.provided == d0.provided && s.d.results == d0.results
  }

  lemma CallStarts(s: State, call: Call, pick: Thread)
    requires s.c.client.CIdle? && ClientStep(s, call, pick).Some?
    ensures Progress(call, s.d, ClientStep(s, call, pick).value, false)
  {
  }

  lemma ProvideWaits(r: Request, wait: bool, d0: Data, s: State, up: bool, call: Call, pick: Thread)
    requires ProvideProgress(r, wait, d0, s, up) && (s.c.client.PWaitReady? || s.c.client.PCheck?)
    requires ClientStep(s, call, pick).Some?
    ensures ProvideProgress(r, wait, d0, ClientStep(s, call, pick).value, up || Checks(s, OfClient(call, pick)))
  {
  }

  lemma ProvideHandsOver(r: Request, wait: bool, d0: Data, s: State, up: bool, call: Call, pick: Thread)
    requires ProvideProgress(r, wait, d0, s, up) && up && !s.c.client.CIdle? && ClientStep(s, call, pick).Some?
    ensures ProvideProgress(r, wait, d0, ClientStep(s, call, pick).value, up)
  {
  }

  lemma ProvideGoesOn(r: Request, wait: bool, d0: Data, s: State, up: bool, call: Call, pick: Thread)
    requires ProvideProgress(r, wait, d0, s, up) && !s.c.client.CIdle? && ClientStep(s, call, pick).Some?
    ensures ProvideProgress(r, wait, d0, ClientStep(s, call, pick).value, up || Checks(s, OfClient(call, pick)))
  {
    if s.c.client.PWaitReady? || s.c.client.PCheck? {
      ProvideWaits(r, wait, d0, s, up, call, pick);
    } else {
      ProvideHandsOver(r, wait, d0, s, up, call, pick);
    }
  }

  lemma RetrieveGoesOn(wait: bool, d0: Data, s: State, up: bool, call: Call, pick: Thread)
    requires RetrieveProgress(wait, d0, s, up) && !s.c.client.CIdle? && ClientStep(s, call, pick).Some?
    ensures RetrieveProgress(wait, d0, ClientStep(s, call, pick).value, up || Checks(s, OfClient(call, pick)))
  {
  }

  lemma StopGoesOn(d0: Data, s: State, up: bool, call: Call, pick: Thread)
    requires Progress(Stop, d0, s, up) && ClientStep(s, call, pick).Some?
    ensures Progress(Stop, d0, ClientStep(s, call, pick).value, up || Checks(s, OfClient(call, pick)))
  {
    StoppingOnlyStops(s.c, call, pick);
  }

  lemma EarlyWorkerLeavesClient(c: Ctl, pick: Thread)
    requires WorkerControl(c, pick).Some? && (SettingUp(c.worker) || Receiving(c.worker))
    ensures var n := WorkerControl(c, pick).value;
            n.client == c.client && (c.ivReady ==> n.ivReady) && (c.qcReady ==> n.qcReady)
  {
  }

  lemma LateWorkerLeavesClient(c: Ctl, pick: Thread)
    requires WorkerControl(c, pick).Some? && !SettingUp(c.worker) && !Receiving(c.worker)
    ensures var n := WorkerControl(c, pick).value;
            n.client == c.client && (c.ivReady ==> n.ivReady) && (c.qcReady ==> n.qcReady)
  {
  }

  lemma WorkerLeavesData(f: Solver, pc: WorkerPc, d: Data)
    ensures var n := WorkerData(f, pc, d);
            n.provided == d.provided && n.results == d.results && n.request == d.request && n.qc == d.qc
  {
  }

  /** The worker leaves the client's side alone, and lowers no flag. */
  lemma WorkerLeavesClient(f: Solver, s: State, pick: Thread)
    requires WorkerStep(f, s, pick).Some?
    ensures var n := WorkerStep(f, s, pick).value;
            && n.c.client == s.c.client && (s.c.ivReady ==> n.c.ivReady) && (s.c.qcReady ==> n.c.qcReady)
            && n.d.provided == s.d.provided && n.d.results == s.d.results && n.d.request == s.d.request && n.d.qc == s.d.qc
  {
    WorkerLeavesData(f, s.c.worker, s.d);
    if SettingUp(s.c.worker) || Receiving(s.c.worker) {
      EarlyWorkerLeavesClient(s.c, pick);
    } else {
      LateWorkerLeavesClient(s.c, pick);
    }
  }

  lemma StepProgresses(f: Solver, call: Call, d0: Data, s: State, up: bool, e: Event)
    requires Progress(call, d0, s, up) && !s.c.client.CIdle? && Step(f, s, e).Some?
    ensures Progress(call, d0, Step(f, s, e).value, up || Checks(s, e))
  {
    match e
    case OfWorker(pick) => WorkerLeavesClient(f, s, pick);
    case OfClient(other, pick) =>
      match call
      case Provide(r, wait) => ProvideGoesOn(r, wait, d0, s, up, other, pick);
      case Retrieve(wait) => RetrieveGoesOn(wait, d0, s, up, other, pick);
      case Stop => StopGoesOn(d0, s, up, other, pick);
  }

  lemma {:induction false} CallProgresses(f: Solver, events: seq<Event>, call: Call, more: seq<Event>)
    requires During(f, events, call, more)
    ensures Progress(call, Exec(f, events).value.d, Exec(f, events + more).value, FlagIsUp(f, events, more))
    decreases |more|
  {
    var init, last := more[..|more| - 1], more[|more| - 1];
    assert events + more == (events + init) + [last];
    LastEvent(f, events + init, last);
    if init == [] {
      assert events + init == events;
      CallStarts(Exec(f, events).value, call, last.pick);
    } else {
      CallProgresses(f, events, call, init);
      StepProgresses(f, call, Exec(f, events).value.d, Exec(f, events + init).value, FlagIsUp(f, events, init), last);
    }
  }

  /**
   provide_iv adds the request to what is provided if and only if the flag is up where it is checked, which it is after
   waiting, and it retrieves nothing.
   */
  lemma ProvideDelivers(f: Solver, events: seq<Event>, r: Request, wait: bool, more: seq<Event>)
    requires IsCall(f, events, Provide(r, wait), more)
    ensures var d0, d, up := Exec(f, events).value.d, Exec(f, events + more).value.d, FlagIsUp(f, events, more);
            && d.provided == d0.provided + (if up then [r] else []) && d.results == d0.results && (wait ==> up)
  {
    CallProgresses(f, events, Provide(r, wait), more);
  }

  /**
   retrieve_qc gets one control if and only if the flag is up where it is checked, which it is after waiting, and it
   provides nothing.
   */
  lemma RetrieveDelivers(f: Solver, events: seq<Event>, wait: bool, more: seq<Event>)
    requires IsCall(f, events, Retrieve(wait), more)
    ensures var d0, d, up := Exec(f, events).value.d, Exec(f, events + more).value.d, FlagIsUp(f, events, more);
            && d.results == d0.results + (if up then [d.qc] else []) && d.provided == d0.provided && (wait ==> up)
  {
    CallProgresses(f, events, Retrieve(wait), more);
  }

  /** stop_thread is the last call. */
  lemma StopIsLast(f: Solver, events: seq<Event>, more: seq<Event>)
    ensures !IsCall(f, events, Stop, more)
  {
    if IsCall(f, events, Stop, more) {
      CallProgresses(f, events, Stop, more);
    }
  }

  /** The worker is asked to quit only where it waits, or is about to see it: never between a request and its control. */
  lemma QuitComesWhileWaiting(f: Solver, events: seq<Event>)
    requires Exec(f, events).Some?
    ensures var c := Exec(f, events).value.c;
            c.quit ==> c.worker.WWaiting? || c.worker.WWoken? || c.worker.WExitUnlock? || c.worker.WExit?
  {
    RunsKeepInv(f, events);
  }

  // ----- A call takes few steps -----

  /** How many of its steps the client has taken at most in the call. */
  function Taken(pc: ClientPc): nat {
    match pc
    case PWaitReady | RWaitReady | SWaitReady => 1
    case PCheck | RCheck | SLock => 2
    case PLock | RLock | SQuit => 3
    case PWriteSd | RRead | SSignal => 4
    case PWritePf | RClear | SUnlock => 5
    case PClear | RUnlock | SJoin => 6
    case PSignal | CDone => 7
    case PUnlock => 8
    case _ => 9
  }

  lemma ProvidingAdvances(c: Ctl, call: Call, pick: Thread)
    requires ClientControl(c, call, pick).Some? && Providing(c.client)
    ensures Taken(ClientControl(c, call, pick).value.client) > Taken(c.client)
  {
  }

  lemma SendingAdvances(c: Ctl, call: Call, pick: Thread)
    requires ClientControl(c, call, pick).Some? && Sending(c.client)
    ensures Taken(ClientControl(c, call, pick).value.client) > Taken(c.client)
  {
  }

  lemma RetrievingAdvances(c: Ctl, call: Call, pick: Thread)
    requires ClientControl(c, call, pick).Some? && Retrieving(c.client)
    ensures Taken(ClientControl(c, call, pick).value.client) > Taken(c.client)
  {
  }

  lemma AskingAdvances(c: Ctl, call: Call, pick: Thread)
    requires ClientControl(c, call, pick).Some? && Asking(c.client)
    ensures Taken(ClientControl(c, call, pick).value.client) > Taken(c.client)
  {
  }

  lemma QuittingAdvances(c: Ctl, call: Call, pick: Thread)
    requires ClientControl(c, call, pick).Some? && Quitting(c.client)
    ensures Taken(ClientControl(c, call, pick).value.client) > Taken(c.client)
  {
  }

  /** Every step of the client brings its call closer to the end. */
  lemma ClientAdvances(f: Solver, s: State, e: Event, d0: Data, call: Call, up: bool)
    requires Progress(call, d0, s, up) && !s.c.client.CIdle? && Step(f, s, e).Some?
    ensures var n := Step(f, s, e).value;
            if e.OfClient? then Taken(n.c.client) > Taken(s.c.client) else n.c.client == s.c.client
  {
    match e
    case OfWorker(pick) => WorkerLeavesClient(f, s, pick);
    case OfClient(other, pick) =>
      if Providing(s.c.client) {
        ProvidingAdvances(s.c, other, pick);
      } else if Sending(s.c.client) {
        SendingAdvances(s.c, other, pick);
      } else if Retrieving(s.c.client) {
        RetrievingAdvances(s.c, other, pick);
      } else if Asking(s.c.client) {
        AskingAdvances(s.c, other, pick);
      } else {
        QuittingAdvances(s.c, other, pick);
      }
  }

  function OwnSteps(more: seq<Event>): nat {
    if more == [] then 0
    else OwnSteps(more[..|more| - 1]) + if more[|more| - 1].OfClient? then 1 else 0
  }

  lemma CallBegins(s: State, call: Call, pick: Thread)
    requires s.c.client.CIdle? && ClientStep(s, call, pick).Some?
    ensures Taken(ClientStep(s, call, pick).value.c.client) >= 1
  {
  }

  lemma CallAdvances(f: Solver, events: seq<Event>, call: Call, more: seq<Event>, e: Event, s: State, n: State)
    requires During(f, events, call, more) && Exec(f, events + more) == Some(s)
    requires !s.c.client.CIdle? && Step(f, s, e) == Some(n)
    ensures if e.OfClient? then Taken(n.c.client) > Taken(s.c.client) else n.c.client == s.c.client
  {
    CallProgresses(f, events, call, more);
    ClientAdvances(f, s, e, Exec(f, events).value.d, call, FlagIsUp(f, events, more));
  }

  lemma FrontAndLast<T>(a: seq<T>, b: seq<T>)
    requires b != []
    ensures a + b == (a + b[..|b| - 1]) + [b[|b| - 1]] && (b[..|b| - 1] == [] ==> a + b[..|b| - 1] == a)
  {
  }

  /** The state before the last event of a call, and its step. */
  lemma LastStep(f: Solver, events: seq<Event>, call: Call, more: seq<Event>, s: State) returns (before: State)
    requires During(f, events, call, more) && Exec(f, events + more) == Some(s)
    ensures var init, last := more[..|more| - 1], more[|more| - 1];
            && Exec(f, events + init) == Some(before) && Step(f, before, last) == Some(s)
            && if init == [] then before.c.client.CIdle? && last.OfClient?
               else During(f, events, call, init) && !before.c.client.CIdle?
  {
    var init, last := more[..|more| - 1], more[|more| - 1];
    FrontAndLast(events, more);
    LastEvent(f, events + init, last);
    before := Exec(f, events + init).value;
  }

  /** No call takes more than nine steps of its own: it returns, or is blocked. */
  lemma {:induction false} CallIsShort(f: Solver, events: seq<Event>, call: Call, more: seq<Event>, s: State)
    requires During(f, events, call, more) && Exec(f, events + more) == Some(s)
    ensures OwnSteps(more) <= Taken(s.c.client) <= 9
    decreases |more|
  {
    var init, last := more[..|more| - 1], more[|more| - 1];
    var before := LastStep(f, events, call, more, s);
    if init == [] {
      CallBegins(before, last.call, last.pick);
    } else {
      CallIsShort(f, events, call, init, before);
      CallAdvances(f, events, call, init, last, before, s);
    }
  }
}

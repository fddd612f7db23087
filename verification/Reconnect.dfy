/** The reconnect loop: `Run`, the listener goroutine of each session, and the user's context. */
module Reconnect {
  import opened Wrappers

  /** What the outside sees. Sessions are numbered in the order in which they are opened. */
  datatype Event =
    | Dial(ok: bool)
    | OnError
    | OnConnect(k: nat)
    | OnMessage(k: nat)
    | OnDisconnect(k: nat)

  // ----- the protocol that the events must follow

  /** n is the number of sessions that are over. */
  datatype Mode = Idle(n: nat) | Refused(n: nat) | Dialed(n: nat) | Open(n: nat)

  /** Dial; on failure report it; on success connect, deliver messages, disconnect. */
  function After(m: Mode, e: Event): Option<Mode> {
    match (m, e)
    case (Idle(n), Dial(ok)) => Some(if ok then Dialed(n) else Refused(n))
    case (Refused(n), OnError) => Some(Idle(n))
    case (Dialed(n), OnConnect(k)) => if k == n then Some(Open(n)) else None
    case (Open(n), OnMessage(k)) => if k == n then Some(Open(n)) else None
    case (Open(n), OnDisconnect(k)) => if k == n then Some(Idle(n + 1)) else None
    case _ => None
  }

  /** Where a trace leads, if it follows the protocol. */
  function Scan(trace: seq<Event>): Option<Mode> {
    if trace == [] then Some(Idle(0))
    else match Scan(trace[..|trace| - 1])
         case None => None
         case Some(m) => After(m, trace[|trace| - 1])
  }

  lemma {:induction false} ScanPrefix(trace: seq<Event>, i: nat)
    requires Scan(trace).Some? && i <= |trace|
    ensures Scan(trace[..i]).Some? && Scan(trace[..i]).value.n <= Scan(trace).value.n
  {
    if i == |trace| {
      assert trace[..i] == trace;
    } else {
      var front := trace[..|trace| - 1];
      ScanPrefix(front, i);
      assert front[..i] == trace[..i];
    }
  }

  lemma ScanAt(trace: seq<Event>, i: nat)
    requires Scan(trace).Some? && i < |trace|
    ensures Scan(trace[..i]).Some?
    ensures Scan(trace[..i + 1]) == After(Scan(trace[..i]).value, trace[i]) && Scan(trace[..i + 1]).Some?
  {
    ScanPrefix(trace, i);
    ScanPrefix(trace, i + 1);
    assert trace[..i + 1][..i] == trace[..i];
  }

  /** After the disconnect of a session there is no message of it, and no second disconnect. */
  lemma NothingAfterDisconnect(trace: seq<Event>, i: nat, j: nat)
    requires Scan(trace).Some? && i < j < |trace| && trace[i].OnDisconnect?
    ensures trace[j] != OnMessage(trace[i].k) && trace[j] != OnDisconnect(trace[i].k)
  {
    ScanAt(trace, i);
    ScanAt(trace, j);
    ScanPrefix(trace[..j], i + 1);
    assert trace[..j][..i + 1] == trace[..i + 1];
  }

  lemma {:induction false} OpenUntilDisconnect(trace: seq<Event>, i: nat, j: nat)
    requires Scan(trace).Some? && i < j <= |trace| && trace[i].OnConnect?
    requires forall m :: i < m < j ==> trace[m] != OnDisconnect(trace[i].k)
    ensures Scan(trace[..j]) == Some(Open(trace[i].k))
    decreases j
  {
    ScanAt(trace, j - 1);
    if i < j - 1 {
      OpenUntilDisconnect(trace, i, j - 1);
    }
  }

  /** Between a connect and the next attempt to connect there is the disconnect of that session. */
  lemma DisconnectBeforeNextDial(trace: seq<Event>, i: nat, j: nat)
    requires Scan(trace).Some? && i < j < |trace| && trace[i].OnConnect? && trace[j].Dial?
    ensures exists m :: i < m < j && trace[m] == OnDisconnect(trace[i].k)
  {
    ScanAt(trace, j);
    if forall m :: i < m < j ==> trace[m] != OnDisconnect(trace[i].k) {
      OpenUntilDisconnect(trace, i, j);
    }
  }

  // ----- the goroutines

  datatype Pc =
    | Top
    | Dialing
    | Connecting(k: nat)
    | Waiting(k: nat)
    | Disconnecting(k: nat)
    | Clearing(k: nat)
    | Reporting
    | Sleeping
    | Stopped

  /** A listener reads messages, inside or between its calls of `ReadMessage`; it leaves its loop
      for good, notifies (once) and is gone. */
  datatype Listener = NotStarted | Reading(inCall: bool) | Leaving(notified: bool) | Gone

  /** `closed` holds the sessions whose client was closed by somebody else than their listener, and
      `picked` those whose client some call of `Close` has read. */
  datatype State = State(
    pc: Pc, reconnects: nat, client: Option<nat>, listeners: seq<Listener>, picked: set<nat>,
    closed: set<nat>, cancelled: bool, trace: seq<Event>, dials: nat)

  const INIT := State(Top, 0, None, [], {}, {}, false, [], 0)

  datatype Step =
    | Cancel               // the context ends
    | Pick                 // the user calls Close, which reads the current client
    | Close(k: nat)        // and then closes the client that it has read
    | Check                // the loop head: context, then limit
    | TryDial(ok: bool)
    | ReportError
    | Connect              // OnConnect, then Listen
    | Follow(k: nat)       // the goroutine beside a listener sees the context end
    | Enter(k: nat)        // a listener calls ReadMessage, which looks at isClosed
    | Deliver(k: nat)      // the call returns a message, and the listener hands it over
    | Leave(k: nat)        // the call fails
    | Notify(k: nat)       // onError, or onDone at the end
    | Receive              // Run receives from the done channel
    | SeeCancel            // Run, waiting or sleeping, sees the context end
    | Disconnect           // OnDisconnect
    | Clear                // the client field is cleared and the session closed
    | Wake

  function Emit(s: State, e: Event): State {
    s.(trace := s.trace + [e])
  }

  predicate HasNotified(l: Listener) {
    l.Gone? || (l.Leaving? && l.notified)
  }

  /** One step of `Run` with the given MaxReconnects (negative for no limit), if it is possible. */
  function Next(s: State, limit: int, step: Step): Option<State> {
    match step
    case Cancel => Some(s.(cancelled := true))
    case Pick => Some(if s.client.Some? then s.(picked := s.picked + {s.client.value}) else s)
    case Close(k) => if k in s.picked then Some(s.(closed := s.closed + {k})) else None
    case Check =>
      if !s.pc.Top? then None
      else if s.cancelled || (limit >= 0 && s.reconnects > limit) then Some(s.(pc := Stopped))
      else Some(s.(pc := Dialing))
    case TryDial(ok) =>
      if !s.pc.Dialing? then None
      else if ok then
        var k := |s.listeners|;
        Some(Emit(s, Dial(true)).(
             pc := Connecting(k), client := Some(k), listeners := s.listeners + [NotStarted], dials := s.dials + 1))
      else Some(Emit(s, Dial(false)).(pc := Reporting, dials := s.dials + 1))
    case ReportError =>
      if !s.pc.Reporting? then None
      else Some(Emit(s, OnError).(pc := Sleeping, reconnects := s.reconnects + 1))
    case Connect =>
      if !s.pc.Connecting? || s.pc.k >= |s.listeners| then None
      else Some(Emit(s, OnConnect(s.pc.k)).(pc := Waiting(s.pc.k), listeners := s.listeners[s.pc.k := Reading(false)]))
    case Follow(k) =>
      if s.cancelled && k < |s.listeners| && s.listeners[k].Reading?
      then Some(s.(closed := s.closed + {k})) else None
    case Enter(k) =>
      if k < |s.listeners| && s.listeners[k] == Reading(false)
      then Some(s.(listeners := s.listeners[k := if k in s.closed then Leaving(false) else Reading(true)]))
      else None
    case Deliver(k) =>
      if k < |s.listeners| && s.listeners[k] == Reading(true)
      then Some(Emit(s, OnMessage(k)).(listeners := s.listeners[k := Reading(false)])) else None
    case Leave(k) =>
      if k < |s.listeners| && s.listeners[k] == Reading(true)
      then Some(s.(listeners := s.listeners[k := Leaving(false)])) else None
    case Notify(k) =>
      if k < |s.listeners| && s.listeners[k].Leaving?
      then Some(s.(listeners := s.listeners[k := if s.listeners[k].notified then Gone else Leaving(true)])) else None
    case Receive =>
      if s.pc.Waiting? && s.pc.k < |s.listeners| && HasNotified(s.listeners[s.pc.k])
      then Some(s.(pc := Disconnecting(s.pc.k))) else None
    case SeeCancel =>
      if s.cancelled && s.pc.Waiting? then Some(s.(pc := Stopped, closed := s.closed + {s.pc.k}))
      else if s.cancelled && s.pc.Sleeping? then Some(s.(pc := Stopped))
      else None
    case Disconnect =>
      if !s.pc.Disconnecting? then None
      else Some(Emit(s, OnDisconnect(s.pc.k)).(pc := Clearing(s.pc.k)))
    case Clear =>
      if !s.pc.Clearing? then None
      else Some(s.(pc := Sleeping, reconnects := s.reconnects + 1, closed := s.closed + {s.pc.k},
                   client := if s.client == Some(s.pc.k) then None else s.client))
    case Wake => if s.pc.Sleeping? then Some(s.(pc := Top)) else None
  }

  function Run(s: State, limit: int, steps: seq<Step>): Option<State>
    decreases |steps|
  {
    if steps == [] then Some(s)
    else match Next(s, limit, steps[0])
         case None => None
         case Some(s') => Run(s', limit, steps[1..])
  }

  // ----- what every step keeps

  /** The session that `Run` is in, if any. */
  function Session(pc: Pc): Option<nat> {
    if pc.Connecting? || pc.Waiting? || pc.Disconnecting? || pc.Clearing? then Some(pc.k) else None
  }

  /** A listener that is no longer the current one has left its loop. */
  ghost predicate OldListenersQuiet(s: State) {
    forall k :: 0 <= k < |s.listeners| - 1 ==> s.listeners[k].Leaving? || s.listeners[k].Gone?
  }

  /** The trace follows the protocol, and its mode fits where `Run` and the last listener are. */
  ghost predicate InStep(s: State) {
    var m := Scan(s.trace);
    var n := |s.listeners|;
    && m.Some?
    && match s.pc
       case Connecting(k) => n == k + 1 && m.value == Dialed(k) && s.listeners[k].NotStarted?
       case Waiting(k) => n == k + 1 && m.value == Open(k) && !s.listeners[k].NotStarted?
       case Disconnecting(k) => n == k + 1 && m.value == Open(k) && HasNotified(s.listeners[k])
       case Clearing(k) => n == k + 1 && m.value == Idle(n) && HasNotified(s.listeners[k])
       case Reporting => m.value == Refused(n) && (n > 0 ==> HasNotified(s.listeners[n - 1]))
       case Stopped =>
         if n > 0 && m.value == Open(n - 1) then !s.listeners[n - 1].NotStarted?
         else m.value == Idle(n) && (n > 0 ==> HasNotified(s.listeners[n - 1]))
       case _ => m.value == Idle(n) && (n > 0 ==> HasNotified(s.listeners[n - 1]))
  }

  ghost predicate Counted(s: State, limit: int) {
    && (!s.pc.Stopped? ==> s.client == Session(s.pc))
    && (!s.pc.Stopped? ==> s.dials == s.reconnects + if Session(s.pc).Some? || s.pc.Reporting? then 1 else 0)
    && (limit >= 0 ==> s.dials <= limit + 1)
    && (limit >= 0 && (s.pc.Dialing? || s.pc.Reporting? || Session(s.pc).Some?) ==> s.reconnects <= limit)
  }

  ghost predicate Inv(s: State, limit: int) {
    OldListenersQuiet(s) && InStep(s) && Counted(s, limit)
  }

  lemma EmitScans(s: State, e: Event)
    ensures Scan(Emit(s, e).trace) == if Scan(s.trace).Some? then After(Scan(s.trace).value, e) else None
  {
    assert (s.trace + [e])[..|s.trace|] == s.trace;
  }

  lemma StepKeepsCounted(s: State, limit: int, step: Step)
    requires Counted(s, limit) && Next(s, limit, step).Some?
    ensures Counted(Next(s, limit, step).value, limit)
  {
    hide HasNotified;
  }

  /** The steps that the outside sees. */
  lemma EventKeepsInStep(s: State, limit: int, step: Step)
    requires OldListenersQuiet(s) && InStep(s) && Next(s, limit, step).Some?
    requires step.TryDial? || step.ReportError? || step.Connect? || step.Deliver? || step.Disconnect?
    ensures OldListenersQuiet(Next(s, limit, step).value) && InStep(Next(s, limit, step).value)
  {
    hide Scan;
    match step
    case TryDial(ok) => EmitScans(s, Dial(ok));
    case ReportError => EmitScans(s, OnError);
    case Connect => EmitScans(s, OnConnect(s.pc.k));
    case Deliver(k) => EmitScans(s, OnMessage(k));
    case Disconnect => EmitScans(s, OnDisconnect(s.pc.k));
  }

  /** The steps of the listeners that nobody sees. */
  lemma ListenerKeepsInStep(s: State, limit: int, step: Step)
    requires OldListenersQuiet(s) && InStep(s) && Next(s, limit, step).Some?
    requires step.Enter? || step.Leave? || step.Notify?
    ensures OldListenersQuiet(Next(s, limit, step).value) && InStep(Next(s, limit, step).value)
  {
    hide Scan;
  }

  /** The other steps that nobody sees. */
  lemma SilentKeepsInStep(s: State, limit: int, step: Step)
    requires OldListenersQuiet(s) && InStep(s) && Next(s, limit, step).Some?
    requires || step.Cancel? || step.Pick? || step.Close? || step.Follow? || step.Check?
             || step.Receive? || step.SeeCancel? || step.Clear? || step.Wake?
    ensures OldListenersQuiet(Next(s, limit, step).value) && InStep(Next(s, limit, step).value)
  {
    hide Scan, HasNotified;
    assert Next(s, limit, step).value.listeners == s.listeners && Next(s, limit, step).value.trace == s.trace;
  }

  lemma StepKeepsInv(s: State, limit: int, step: Step)
    requires Inv(s, limit) && Next(s, limit, step).Some?
    ensures Inv(Next(s, limit, step).value, limit)
  {
    hide Scan, OldListenersQuiet, Counted, HasNotified;
    StepKeepsCounted(s, limit, step);
    if step.TryDial? || step.ReportError? || step.Connect? || step.Deliver? || step.Disconnect? {
      EventKeepsInStep(s, limit, step);
    } else if step.Enter? || step.Leave? || step.Notify? {
      ListenerKeepsInStep(s, limit, step);
    } else {
      SilentKeepsInStep(s, limit, step);
    }
  }

  lemma {:induction false} RunKeepsInv(s: State, limit: int, steps: seq<Step>)
    requires Inv(s, limit) && Run(s, limit, steps).Some?
    ensures Inv(Run(s, limit, steps).value, limit)
    decreases |steps|
  {
    hide Next, Inv;
    if steps != [] {
      StepKeepsInv(s, limit, steps[0]);
      RunKeepsInv(Next(s, limit, steps[0]).value, limit, steps[1..]);
    }
  }

  /** `dials` counts the attempts in the trace. */
  function Dials(trace: seq<Event>): nat {
    if trace == [] then 0 else Dials(trace[..|trace| - 1]) + if trace[|trace| - 1].Dial? then 1 else 0
  }

  lemma DialsAppend(trace: seq<Event>, e: Event)
    ensures Dials(trace + [e]) == Dials(trace) + if e.Dial? then 1 else 0
  {
    assert (trace + [e])[..|trace|] == trace;
  }

  /** The event that a step adds to the trace, if it adds one. */
  function Seen(s: State, step: Step): Option<Event> {
    match step
    case TryDial(ok) => Some(Dial(ok))
    case ReportError => Some(OnError)
    case Connect => if s.pc.Connecting? then Some(OnConnect(s.pc.k)) else None
    case Deliver(k) => Some(OnMessage(k))
    case Disconnect => if s.pc.Disconnecting? then Some(OnDisconnect(s.pc.k)) else None
    case _ => None
  }

  lemma StepTrace(s: State, limit: int, step: Step)
    requires Next(s, limit, step).Some?
    ensures Next(s, limit, step).value.trace ==
            match Seen(s, step) case None => s.trace case Some(e) => s.trace + [e]
  {
    hide HasNotified;
  }

  lemma StepCountsDials(s: State, limit: int, step: Step)
    requires s.dials == Dials(s.trace) && Next(s, limit, step).Some?
    ensures Next(s, limit, step).value.dials == Dials(Next(s, limit, step).value.trace)
  {
    hide HasNotified, Dials;
    StepTrace(s, limit, step);
    if Seen(s, step).Some? { DialsAppend(s.trace, Seen(s, step).value); }
  }

  lemma {:induction false} DialsCounted(s: State, limit: int, steps: seq<Step>)
    requires s.dials == Dials(s.trace) && Run(s, limit, steps).Some?
    ensures Run(s, limit, steps).value.dials == Dials(Run(s, limit, steps).value.trace)
    decreases |steps|
  {
    hide Next, Dials;
    if steps != [] {
      StepCountsDials(s, limit, steps[0]);
      DialsCounted(Next(s, limit, steps[0]).value, limit, steps[1..]);
    }
  }

  /** In every execution of one `Run`: the callbacks follow the protocol of Scan, so that each
      OnConnect is matched by exactly one OnDisconnect before the next attempt and no OnMessage of a
      session follows its OnDisconnect (DisconnectBeforeNextDial, NothingAfterDisconnect); with a
      limit there are at most limit + 1 attempts; and there is no current client at any dial. */
  lemma RunFollowsProtocol(limit: int, steps: seq<Step>)
    requires Run(INIT, limit, steps).Some?
    ensures var s := Run(INIT, limit, steps).value;
            && Scan(s.trace).Some?
            && (limit >= 0 ==> Dials(s.trace) <= limit + 1)
            && (s.pc.Dialing? ==> s.client == None)
  {
    assert Inv(INIT, limit);
    DialsCounted(INIT, limit, steps);
    hide Run, Dials;
    RunKeepsInv(INIT, limit, steps);
  }

  lemma {:induction false} RunJoins(s: State, limit: int, a: seq<Step>, b: seq<Step>)
    requires Run(s, limit, a).Some?
    ensures Run(s, limit, a + b) == Run(Run(s, limit, a).value, limit, b)
    decreases |a|
  {
    hide Next;
    if a == [] {
      assert a + b == b;
    } else {
      assert (a + b)[0] == a[0] && (a + b)[1..] == a[1..] + b;
      RunJoins(Next(s, limit, a[0]).value, limit, a[1..], b);
    }
  }

  lemma RunNothing(s: State, limit: int, steps: seq<Step>)
    requires steps == []
    ensures Run(s, limit, steps) == Some(s)
  {
  }

  lemma RunAfter(s: State, limit: int, step: Step, steps: seq<Step>)
    requires Next(s, limit, step).Some?
    ensures Run(s, limit, [step] + steps) == Run(Next(s, limit, step).value, limit, steps)
  {
    hide Next;
    assert ([step] + steps)[1..] == steps;
  }

  /** The listener of a session comes to notify, if its call of `ReadMessage` fails. */
  lemma ListenerEnds(s: State, limit: int, k: nat) returns (steps: seq<Step>)
    requires k < |s.listeners| && !s.listeners[k].NotStarted?
    ensures Run(s, limit, steps).Some?
    ensures var s' := Run(s, limit, steps).value;
            s' == s.(listeners := s'.listeners) && |s'.listeners| == |s.listeners| && HasNotified(s'.listeners[k])
    decreases if s.listeners[k] == Reading(false) then 2 else if s.listeners[k].Reading? then 1 else 0
  {
    hide Run;
    if HasNotified(s.listeners[k]) {
      steps := [];
      RunNothing(s, limit, steps);
    } else if s.listeners[k].Leaving? {
      steps := [Notify(k)] + [];
      RunNothing(Next(s, limit, Notify(k)).value, limit, []);
      RunAfter(s, limit, Notify(k), []);
    } else {
      var call := if s.listeners[k].inCall then Leave(k) else Enter(k);
      var s1 := Next(s, limit, call).value;
      var more := ListenerEnds(s1, limit, k);
      RunAfter(s, limit, call, more);
      steps := [call] + more;
    }
  }

  /** The context has ended or the limit is used up, and no attempt is under way. */
  ghost predicate NoMoreDials(s: State, limit: int) {
    && !s.pc.Dialing?
    && (|| s.cancelled || s.pc.Stopped?
        || (limit >= 0 && s.reconnects >= limit + if Session(s.pc).Some? || s.pc.Reporting? then 0 else 1))
  }

  lemma NoMoreDialsStep(s: State, limit: int, step: Step)
    requires NoMoreDials(s, limit) && Next(s, limit, step).Some?
    ensures NoMoreDials(Next(s, limit, step).value, limit) && Next(s, limit, step).value.dials == s.dials
  {
    hide HasNotified;
  }

  lemma {:induction false} NoMoreDialsRun(s: State, limit: int, steps: seq<Step>)
    requires NoMoreDials(s, limit) && Run(s, limit, steps).Some?
    ensures Run(s, limit, steps).value.dials == s.dials
    decreases |steps|
  {
    hide Next, NoMoreDials;
    if steps != [] {
      NoMoreDialsStep(s, limit, steps[0]);
      NoMoreDialsRun(Next(s, limit, steps[0]).value, limit, steps[1..]);
    }
  }

  /** How many steps of `Run` lie before its next attempt. */
  function Distance(pc: Pc): nat {
    match pc
    case Top => 1
    case Sleeping => 2
    case Reporting => 3
    case Clearing(_) => 3
    case Disconnecting(_) => 4
    case Waiting(_) => 5
    case Connecting(_) => 6
    case _ => 0
  }

  /** The step of `Run` that goes on from there. */
  function StepOf(pc: Pc): Step
    requires !pc.Stopped?
  {
    match pc
    case Top => Check
    case Sleeping => Wake
    case Reporting => ReportError
    case Clearing(_) => Clear
    case Disconnecting(_) => Disconnect
    case Waiting(_) => Receive
    case Connecting(_) => Connect
    case Dialing => TryDial(true)
  }

  /** Whatever `Run` is doing, it comes to another attempt, unless the context has ended or the limit
      is used up: the session ends, the delay passes, and the loop head lets it through. */
  lemma {:induction false} ComesToDial(s: State, limit: int) returns (steps: seq<Step>)
    requires Inv(s, limit) && !NoMoreDials(s, limit)
    ensures Run(s, limit, steps).Some? && Run(s, limit, steps).value.dials == s.dials + 1
    decreases Distance(s.pc)
  {
    hide Run, Scan;
    if s.pc.Dialing? {
      RunNothing(Next(s, limit, TryDial(true)).value, limit, []);
      RunAfter(s, limit, TryDial(true), []);
      steps := [TryDial(true)] + [];
    } else {
      var before := [];
      var s1 := s;
      RunNothing(s, limit, []);
      if s.pc.Waiting? {
        before := ListenerEnds(s, limit, s.pc.k);
        s1 := Run(s, limit, before).value;
        RunKeepsInv(s, limit, before);
      }
      var step := StepOf(s.pc);
      var s2 := Next(s1, limit, step).value;
      StepKeepsInv(s1, limit, step);
      var more := ComesToDial(s2, limit);
      RunAfter(s1, limit, step, more);
      RunJoins(s, limit, before, [step] + more);
      steps := before + ([step] + more);
    }
  }

  /** A call of `Close` begins in s and is over in s': it has closed the client that it read, if there
      was one. In between the others may take any steps. */
  ghost predicate Closes(s: State, limit: int, a: seq<Step>, s': State) {
    Run(s, limit, [Pick] + a) == Some(s') && (s.client.Some? ==> Close(s.client.value) in a)
  }

  /** In some run there is another attempt to connect after a call of `Close` that begins in s. */
  ghost predicate DialsAfterClose(s: State, limit: int) {
    exists a, s', b ::
      && Closes(s, limit, a, s')
      && Run(s', limit, b).Some? && Run(s', limit, b).value.dials > s'.dials
  }

  lemma {:induction false} NoMoreDialsStays(s: State, limit: int, steps: seq<Step>)
    requires NoMoreDials(s, limit) && Run(s, limit, steps).Some?
    ensures NoMoreDials(Run(s, limit, steps).value, limit)
    decreases |steps|
  {
    hide Next, NoMoreDials;
    if steps != [] {
      NoMoreDialsStep(s, limit, steps[0]);
      NoMoreDialsStays(Next(s, limit, steps[0]).value, limit, steps[1..]);
    }
  }

  lemma TwoSteps(s: State, limit: int, a: Step, b: Step)
    requires Next(s, limit, a).Some? && Next(Next(s, limit, a).value, limit, b).Some?
    ensures Run(s, limit, [a, b]) == Next(Next(s, limit, a).value, limit, b)
  {
    hide Next;
    var s1 := Next(s, limit, a).value;
    var s2 := Next(s1, limit, b).value;
    RunNothing(s2, limit, []);
    hide Run;
    RunAfter(s1, limit, b, []);
    RunAfter(s, limit, a, [b] + []);
    assert [a] + ([b] + []) == [a, b];
  }

  /** A call of `Close` that nothing comes in between of. */
  lemma CloseAtOnce(s: State, limit: int) returns (a: seq<Step>, s': State)
    requires Inv(s, limit)
    ensures Closes(s, limit, a, s') && Inv(s', limit)
    ensures s' == s.(picked := s'.picked, closed := s'.closed)
    ensures s.client.Some? ==> s.client.value in s'.closed
    ensures s.client.None? ==> s' == s
  {
    hide Run, Inv;
    var s1 := Next(s, limit, Pick).value;
    StepKeepsInv(s, limit, Pick);
    if s.client.None? {
      a, s' := [], s1;
      RunNothing(s1, limit, a);
    } else {
      var k := s.client.value;
      s' := Next(s1, limit, Close(k)).value;
      StepKeepsInv(s1, limit, Close(k));
      a := [Close(k)] + [];
      RunAfter(s1, limit, Close(k), []);
      RunNothing(s', limit, []);
      assert a[0] == Close(k);
    }
    RunAfter(s, limit, Pick, a);
  }

  /** `Close`, whenever the user calls it and whatever happens while it runs, ends at most a session and
      never `Run`: another attempt follows it in some run exactly when one was possible before, that is
      unless `Run` has stopped, the context has ended or the limit is used up, with no attempt under
      way. */
  lemma CloseDoesNotStopRun(s: State, limit: int)
    requires Inv(s, limit)
    ensures DialsAfterClose(s, limit) <==> !NoMoreDials(s, limit)
  {
    hide Run, Inv;
    if NoMoreDials(s, limit) {
      forall a, s', b | Closes(s, limit, a, s') && Run(s', limit, b).Some?
        ensures Run(s', limit, b).value.dials == s'.dials
      {
        NoMoreDialsStays(s, limit, [Pick] + a);
        NoMoreDialsRun(s', limit, b);
      }
    } else {
      var a, s' := CloseAtOnce(s, limit);
      var b := ComesToDial(s', limit);
    }
  }

  /** During a session: exactly when the context has not ended and the limit allows another reconnect. */
  lemma CloseDuringSession(s: State, limit: int)
    requires Inv(s, limit) && s.pc.Waiting?
    ensures DialsAfterClose(s, limit) <==> !s.cancelled && (limit < 0 || s.reconnects < limit)
  {
    hide Inv, DialsAfterClose;
    CloseDoesNotStopRun(s, limit);
  }

  /** During the delay there is no client to close, and the call does nothing at all. */
  lemma CloseDuringDelay(s: State, limit: int)
    requires Inv(s, limit) && s.pc.Sleeping?
    ensures Next(s, limit, Pick) == Some(s)
    ensures DialsAfterClose(s, limit) <==> !s.cancelled && (limit < 0 || s.reconnects <= limit)
  {
    hide DialsAfterClose, InStep;
    CloseDoesNotStopRun(s, limit);
  }

  /** The same from the start: the user closes the first session while its listener is inside
      `ReadMessage`, and `Run` connects again, unless not even one reconnect is allowed. */
  lemma CloseThenReconnect(limit: int) returns (before: seq<Step>, a: seq<Step>, s': State, after: seq<Step>)
    requires limit != 0
    ensures Run(INIT, limit, before).Some?
    ensures Run(INIT, limit, before).value.listeners == [Reading(true)]
    ensures Run(INIT, limit, before).value.dials == 1
    ensures Closes(Run(INIT, limit, before).value, limit, a, s') && 0 in s'.closed && s'.dials == 1
    ensures Run(s', limit, after).Some? && Run(s', limit, after).value.dials == 2
  {
    hide Run;
    var first, second := [Check, TryDial(true)], [Connect, Enter(0)];
    TwoSteps(INIT, limit, Check, TryDial(true));
    var s2 := Run(INIT, limit, first).value;
    TwoSteps(s2, limit, Connect, Enter(0));
    var s4 := Run(s2, limit, second).value;
    RunJoins(INIT, limit, first, second);
    before := first + second;
    assert Inv(INIT, limit);
    hide Inv;
    RunKeepsInv(INIT, limit, before);
    a, s' := CloseAtOnce(s4, limit);
    after := ComesToDial(s', limit);
  }

  function Messages(trace: seq<Event>, k: nat): nat {
    if trace == [] then 0
    else Messages(trace[..|trace| - 1], k) + if trace[|trace| - 1] == OnMessage(k) then 1 else 0
  }

  /** The message that a call of `ReadMessage` under way may still return. */
  function Outstanding(s: State, k: nat): nat {
    if k < |s.listeners| && s.listeners[k] == Reading(true) then 1 else 0
  }

  lemma MessagesAppend(trace: seq<Event>, e: Event, k: nat)
    ensures Messages(trace + [e], k) == Messages(trace, k) + if e == OnMessage(k) then 1 else 0
  {
    assert (trace + [e])[..|trace|] == trace;
  }

  lemma ClosedStep(s: State, limit: int, k: nat, step: Step)
    requires k in s.closed && Next(s, limit, step).Some?
    ensures var s' := Next(s, limit, step).value;
            k in s'.closed && Messages(s'.trace, k) + Outstanding(s', k) <= Messages(s.trace, k) + Outstanding(s, k)
  {
    hide HasNotified, Messages;
    StepTrace(s, limit, step);
    if Seen(s, step).Some? { MessagesAppend(s.trace, Seen(s, step).value, k); }
  }

  /** Once its client is closed, a session delivers at most one more message: the one that a call
      of `ReadMessage` under way returns. */
  lemma {:induction false} CloseSilencesSession(s: State, limit: int, k: nat, steps: seq<Step>)
    requires k in s.closed && Run(s, limit, steps).Some?
    ensures var s' := Run(s, limit, steps).value;
            Messages(s'.trace, k) + Outstanding(s', k) <= Messages(s.trace, k) + Outstanding(s, k)
    decreases |steps|
  {
    hide Next, Messages, Outstanding;
    if steps != [] {
      ClosedStep(s, limit, k, steps[0]);
      CloseSilencesSession(Next(s, limit, steps[0]).value, limit, k, steps[1..]);
    }
  }

  // ----- what is left behind

  /** Every session but the one that `Run` is in has had its client closed. */
  ghost predicate OldSessionsClosed(s: State) {
    forall k :: 0 <= k < |s.listeners| && Session(s.pc) != Some(k) ==> k in s.closed
  }

  lemma OldSessionsStep(s: State, limit: int, step: Step)
    requires OldSessionsClosed(s) && InStep(s) && Next(s, limit, step).Some?
    ensures OldSessionsClosed(Next(s, limit, step).value)
  {
    hide HasNotified, Scan;
    var s' := Next(s, limit, step).value;
    forall k | 0 <= k < |s'.listeners| && Session(s'.pc) != Some(k)
      ensures k in s'.closed
    {
      assert k < |s.listeners| && Session(s.pc) != Some(k) ==> k in s.closed;
    }
  }

  lemma {:induction false} OldSessionsRun(s: State, limit: int, steps: seq<Step>)
    requires OldSessionsClosed(s) && Inv(s, limit) && Run(s, limit, steps).Some?
    ensures OldSessionsClosed(Run(s, limit, steps).value)
    decreases |steps|
  {
    hide Next, OldSessionsClosed, OldListenersQuiet, InStep, Counted;
    if steps != [] {
      OldSessionsStep(s, limit, steps[0]);
      StepKeepsInv(s, limit, steps[0]);
      OldSessionsRun(Next(s, limit, steps[0]).value, limit, steps[1..]);
    }
  }

  /** In every run: when `Run` has returned, or goes on to another attempt, the clients of all sessions
      so far have been closed. */
  lemma NoSessionLeftOpen(limit: int, steps: seq<Step>)
    requires Run(INIT, limit, steps).Some?
    ensures var s := Run(INIT, limit, steps).value;
            s.pc.Stopped? || s.pc.Dialing? ==> forall k :: 0 <= k < |s.listeners| ==> k in s.closed
  {
    hide Run;
    assert Inv(INIT, limit);
    OldSessionsRun(INIT, limit, steps);
  }

  /** Once the context has ended, `Run` can come to its end from wherever it is, and its end is final. */
  lemma {:induction false} CancelStops(s: State, limit: int) returns (steps: seq<Step>)
    requires Inv(s, limit) && s.cancelled
    ensures Run(s, limit, steps).Some? && Run(s, limit, steps).value.pc.Stopped?
    decreases if s.pc.Dialing? then 7 else Distance(s.pc)
  {
    hide Run, Scan, HasNotified;
    if s.pc.Stopped? {
      steps := [];
      RunNothing(s, limit, steps);
    } else {
      var step := if s.pc.Waiting? || s.pc.Sleeping? then SeeCancel
                  else if s.pc.Dialing? then TryDial(false) else StepOf(s.pc);
      StepKeepsInv(s, limit, step);
      var more := CancelStops(Next(s, limit, step).value, limit);
      RunAfter(s, limit, step, more);
      steps := [step] + more;
    }
  }

  lemma {:induction false} StoppedIsFinal(s: State, limit: int, steps: seq<Step>)
    requires s.pc.Stopped? && Run(s, limit, steps).Some?
    ensures Run(s, limit, steps).value.pc.Stopped?
    decreases |steps|
  {
    hide HasNotified;
    if steps != [] {
      StoppedIsFinal(Next(s, limit, steps[0]).value, limit, steps[1..]);
    }
  }

  // ----- every trace of the protocol happens

  /** `Run` stands where the trace, which has led to mode m, leaves it; nobody has closed anything. */
  ghost predicate Stands(s: State, trace: seq<Event>, m: Mode) {
    && s.trace == trace && !s.cancelled && s.dials == Dials(trace)
    && (forall k <- s.closed :: k < m.n)
    && match m
       case Idle(n) => s.pc == Top && |s.listeners| == n && s.reconnects == s.dials
       case Refused(n) => s.pc == Reporting && |s.listeners| == n && s.reconnects + 1 == s.dials
       case Dialed(n) =>
         s.pc == Connecting(n) && |s.listeners| == n + 1 && s.listeners[n] == NotStarted && s.reconnects + 1 == s.dials
       case Open(n) =>
         s.pc == Waiting(n) && |s.listeners| == n + 1 && s.listeners[n] == Reading(false) && s.reconnects + 1 == s.dials
  }

  lemma DialHappens(s: State, limit: int, trace: seq<Event>, m: Mode, ok: bool)
    requires Stands(s, trace, m) && m.Idle? && (limit < 0 || Dials(trace) <= limit)
    ensures var r := Run(s, limit, [Check, TryDial(ok)]);
            r.Some? && Stands(r.value, trace + [Dial(ok)], After(m, Dial(ok)).value)
  {
    hide Run, Dials;
    DialsAppend(trace, Dial(ok));
    TwoSteps(s, limit, Check, TryDial(ok));
  }

  lemma ErrorHappens(s: State, limit: int, trace: seq<Event>, m: Mode)
    requires Stands(s, trace, m) && m.Refused?
    ensures var r := Run(s, limit, [ReportError, Wake]);
            r.Some? && Stands(r.value, trace + [OnError], After(m, OnError).value)
  {
    hide Run, Dials;
    DialsAppend(trace, OnError);
    TwoSteps(s, limit, ReportError, Wake);
  }

  lemma ConnectHappens(s: State, limit: int, trace: seq<Event>, m: Mode)
    requires Stands(s, trace, m) && m.Dialed?
    ensures var r := Run(s, limit, [Connect] + []);
            r.Some? && Stands(r.value, trace + [OnConnect(m.n)], Open(m.n))
  {
    hide Run, Dials;
    DialsAppend(trace, OnConnect(m.n));
    RunAfter(s, limit, Connect, []);
    RunNothing(Next(s, limit, Connect).value, limit, []);
  }

  lemma MessageHappens(s: State, limit: int, trace: seq<Event>, m: Mode)
    requires Stands(s, trace, m) && m.Open?
    ensures var r := Run(s, limit, [Enter(m.n), Deliver(m.n)]);
            r.Some? && Stands(r.value, trace + [OnMessage(m.n)], m)
  {
    hide Run, Dials;
    DialsAppend(trace, OnMessage(m.n));
    TwoSteps(s, limit, Enter(m.n), Deliver(m.n));
  }

  lemma ListenerLeaves(s: State, limit: int, n: nat)
    requires s.pc == Waiting(n) && n < |s.listeners| && s.listeners[n] == Reading(false) && n !in s.closed
    ensures var r := Run(s, limit, [Enter(n), Leave(n)] + [Notify(n), Receive]);
            && r.Some? && |r.value.listeners| == |s.listeners|
            && r.value == s.(pc := Disconnecting(n), listeners := r.value.listeners)
  {
    hide Run;
    TwoSteps(s, limit, Enter(n), Leave(n));
    var s1 := Run(s, limit, [Enter(n), Leave(n)]).value;
    TwoSteps(s1, limit, Notify(n), Receive);
    RunJoins(s, limit, [Enter(n), Leave(n)], [Notify(n), Receive]);
  }

  lemma SessionClears(s: State, limit: int, n: nat)
    requires s.pc == Disconnecting(n)
    ensures var r := Run(s, limit, [Disconnect, Clear] + ([Wake] + []));
            && r.Some? && r.value.pc == Top && r.value.listeners == s.listeners
            && r.value.trace == s.trace + [OnDisconnect(n)] && r.value.closed == s.closed + {n}
            && r.value.reconnects == s.reconnects + 1 && r.value.dials == s.dials && r.value.cancelled == s.cancelled
  {
    hide Run;
    TwoSteps(s, limit, Disconnect, Clear);
    var s1 := Run(s, limit, [Disconnect, Clear]).value;
    RunAfter(s1, limit, Wake, []);
    RunNothing(Next(s1, limit, Wake).value, limit, []);
    RunJoins(s, limit, [Disconnect, Clear], [Wake] + []);
  }

  lemma DisconnectHappens(s: State, limit: int, trace: seq<Event>, m: Mode) returns (steps: seq<Step>)
    requires Stands(s, trace, m) && m.Open?
    ensures var r := Run(s, limit, steps);
            r.Some? && Stands(r.value, trace + [OnDisconnect(m.n)], Idle(m.n + 1))
  {
    hide Run, Dials, Next;
    DialsAppend(trace, OnDisconnect(m.n));
    var a, b := [Enter(m.n), Leave(m.n)] + [Notify(m.n), Receive], [Disconnect, Clear] + ([Wake] + []);
    ListenerLeaves(s, limit, m.n);
    var s1 := Run(s, limit, a).value;
    SessionClears(s1, limit, m.n);
    RunJoins(s, limit, a, b);
    steps := a + b;
  }

  lemma EventHappens(s: State, limit: int, trace: seq<Event>, m: Mode, e: Event) returns (steps: seq<Step>)
    requires Stands(s, trace, m) && After(m, e).Some? && (limit < 0 || Dials(trace + [e]) <= limit + 1)
    ensures var r := Run(s, limit, steps); r.Some? && Stands(r.value, trace + [e], After(m, e).value)
  {
    hide Run, Dials, Stands;
    DialsAppend(trace, e);
    match e
    case Dial(ok) =>
      DialHappens(s, limit, trace, m, ok);
      steps := [Check, TryDial(ok)];
    case OnError =>
      ErrorHappens(s, limit, trace, m);
      steps := [ReportError, Wake];
    case OnConnect(k) =>
      ConnectHappens(s, limit, trace, m);
      steps := [Connect] + [];
    case OnMessage(k) =>
      MessageHappens(s, limit, trace, m);
      steps := [Enter(m.n), Deliver(m.n)];
    case OnDisconnect(k) =>
      steps := DisconnectHappens(s, limit, trace, m);
  }

  /** Whatever the protocol allows and the limit on attempts permits does happen in some run. */
  lemma {:induction false} EveryTraceHappens(limit: int, trace: seq<Event>) returns (steps: seq<Step>)
    requires Scan(trace).Some? && (limit < 0 || Dials(trace) <= limit + 1)
    ensures Run(INIT, limit, steps).Some? && Stands(Run(INIT, limit, steps).value, trace, Scan(trace).value)
  {
    if trace == [] {
      steps := [];
    } else {
      var front, e := trace[..|trace| - 1], trace[|trace| - 1];
      assert trace == front + [e];
      DialsAppend(front, e);
      hide Run, Dials, Stands;
      var before := EveryTraceHappens(limit, front);
      var s := Run(INIT, limit, before).value;
      var more := EventHappens(s, limit, front, Scan(front).value, e);
      RunJoins(INIT, limit, before, more);
      steps := before + more;
    }
  }

  /** The traces of `Run` are exactly those that follow the protocol with at most limit + 1 attempts. */
  lemma TracesExactly(limit: int, trace: seq<Event>)
    ensures (exists steps :: Run(INIT, limit, steps).Some? && Run(INIT, limit, steps).value.trace == trace) <==>
            Scan(trace).Some? && (limit < 0 || Dials(trace) <= limit + 1)
  {
    hide Run, Dials, Scan;
    forall steps | Run(INIT, limit, steps).Some? && Run(INIT, limit, steps).value.trace == trace
      ensures Scan(trace).Some? && (limit < 0 || Dials(trace) <= limit + 1)
    {
      RunFollowsProtocol(limit, steps);
    }
    if Scan(trace).Some? && (limit < 0 || Dials(trace) <= limit + 1) {
      var steps := EveryTraceHappens(limit, trace);
    }
  }
}

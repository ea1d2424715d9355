/** The start and stop protocol of the POSIX scanner: a controller thread that calls init, start and stop, and
the scan thread it creates, interleaved step by step. Outcomes of operating-system and HCI calls are part of
the step's label. */
module ScanProtocol {
  import opened Bytes

  datatype Command = NoCommand | Disable | Enable

  /** Where the controller is inside a call. */
  datatype Controller =
    | Idle
    | BeforeFirstDisable
    | BeforeParameters
    | BeforeEnable
    | BeforeSetRunning
    | BeforeCreate
    | BeforeUndoRunning
    | BeforeUndoDisable
    | BeforeClear
    | BeforeStopDisable

  /** Where the scan thread is. */
  datatype ScanThread = Absent | AtLoopTest | Reading | AtRetest | Dispatching | Exited

  datatype ReadOutcome = Nothing | Dropped | Report

  datatype State = State(
    socketOpen: bool,          // the HCI socket is open
    running: bool,         // the atomic flag
    active: bool,          // the thread object's flag
    lastCommand: Command,  // the last scan command issued
    controller: Controller,
    scanThread: ScanThread,
    created: nat)          // scan threads created so far

  const POWER_ON := State(false, false, false, NoCommand, Idle, Absent, 0)

  datatype Action =
    | InitCall(routed: bool, open: bool)
    | StartCall
    | FirstDisable
    | SetParameters(ok: bool)
    | EnableCommand(ok: bool)
    | SetRunning
    | CreateThread(ok: bool)
    | UndoRunning
    | UndoDisable
    | StopCall
    | ClearRunning
    | StopDisable
    | LoopTest
    | Read(outcome: ReadOutcome)
    | Retest
    | Dispatch

  /** A disable command is sent only over an open socket. */
  function Disabled(s: State): Command {
    if s.socketOpen then Disable else s.lastCommand
  }

  /** One step; None when the thread concerned is not at that step. */
  function Next(s: State, a: Action): Option<State> {
    match a
    case InitCall(routed, open) =>
      if s.controller != Idle then None else Some(s.(socketOpen := if routed then open else s.socketOpen))
    case StartCall =>
      if s.controller != Idle then None
      else if !s.socketOpen || s.running then Some(s)
      else Some(s.(controller := BeforeFirstDisable))
    case FirstDisable =>
      if s.controller != BeforeFirstDisable then None
      else Some(s.(lastCommand := Disable, controller := BeforeParameters))
    case SetParameters(ok) =>
      if s.controller != BeforeParameters then None
      else Some(s.(controller := if ok then BeforeEnable else Idle))
    case EnableCommand(ok) =>
      if s.controller != BeforeEnable then None
      else Some(s.(lastCommand := Enable, controller := if ok then BeforeSetRunning else Idle))
    case SetRunning =>
      if s.controller != BeforeSetRunning then None
      else Some(s.(running := true, controller := BeforeCreate))
    case CreateThread(ok) =>
      if s.controller != BeforeCreate then None
      else if s.active || !ok then Some(s.(controller := BeforeUndoRunning))
      else Some(s.(active := true, scanThread := AtLoopTest, created := s.created + 1, controller := Idle))
    case UndoRunning =>
      if s.controller != BeforeUndoRunning then None
      else Some(s.(running := false, controller := BeforeUndoDisable))
    case UndoDisable =>
      if s.controller != BeforeUndoDisable then None
      else Some(s.(lastCommand := Disabled(s), controller := Idle))
    case StopCall =>
      if s.controller != Idle then None
      else Some(s.(controller := if s.running then BeforeClear else Idle))
    case ClearRunning =>
      if s.controller != BeforeClear then None
      else Some(s.(running := false, controller := BeforeStopDisable))
    case StopDisable =>
      if s.controller != BeforeStopDisable then None
      else Some(s.(lastCommand := Disabled(s), controller := Idle))
    case LoopTest =>
      if s.scanThread != AtLoopTest then None
      else Some(s.(scanThread := if s.running then Reading else Exited))
    case Read(outcome) =>
      if s.scanThread != Reading then None
      else
        var at := match outcome case Nothing => AtRetest case Dropped => AtLoopTest case Report => Dispatching;
        Some(s.(scanThread := at))
    case Retest =>
      if s.scanThread != AtRetest then None
      else Some(s.(scanThread := if s.running then AtLoopTest else Exited))
    case Dispatch =>
      if s.scanThread != Dispatching then None
      else Some(s.(scanThread := AtLoopTest))
  }

  /** The state after an interleaving; None when some step of it is not possible. */
  function Exec(s: State, acts: seq<Action>): Option<State>
    decreases |acts|
  {
    if acts == [] then Some(s)
    else
      var t := Next(s, acts[0]);
      if t.None? then None else Exec(t.value, acts[1..])
  }

  function CountDispatches(acts: seq<Action>): nat {
    if acts == [] then 0 else (if acts[0].Dispatch? then 1 else 0) + CountDispatches(acts[1..])
  }

  /** No further start can succeed: the thread object stays active, and the running flag is up at most
  during a start that is about to fail. */
  predicate Spent(s: State) {
    s.active && (s.running ==> s.controller in {BeforeCreate, BeforeUndoRunning})
  }

  predicate Inv(s: State) {
    && (s.active <==> s.scanThread != Absent)
    && s.created == (if s.active then 1 else 0)
    && (s.running ==> s.lastCommand == Enable)
    && (s.controller == BeforeSetRunning ==> s.lastCommand == Enable)
    && (s.controller in {BeforeCreate, BeforeUndoRunning, BeforeClear} ==> s.running)
    && (s.running ==> s.controller in {Idle, BeforeCreate, BeforeUndoRunning, BeforeClear})
    && (s.running && s.controller in {Idle, BeforeClear} ==> s.active)
    && (s.scanThread == Exited ==> Spent(s))
  }

  lemma NextKeepsInv(s: State, a: Action)
    requires Inv(s) && Next(s, a).Some?
    ensures Inv(Next(s, a).value)
    ensures Spent(s) ==> Spent(Next(s, a).value)
  {
  }

  lemma {:induction false} ExecKeepsInv(s: State, acts: seq<Action>)
    requires Inv(s) && Exec(s, acts).Some?
    ensures Inv(Exec(s, acts).value)
    ensures Spent(s) ==> Spent(Exec(s, acts).value)
    decreases |acts|
  {
    if acts != [] {
      NextKeepsInv(s, acts[0]);
      ExecKeepsInv(Next(s, acts[0]).value, acts[1..]);
    }
  }

  /** The scanner reached the state by some interleaving. */
  ghost predicate Reachable(s: State) {
    exists acts :: Exec(POWER_ON, acts) == Some(s)
  }

  lemma ReachableInv(s: State)
    requires Reachable(s)
    ensures Inv(s)
  {
    var acts :| Exec(POWER_ON, acts) == Some(s);
    ExecKeepsInv(POWER_ON, acts);
  }

  /** In every interleaving at most one scan thread is ever created, and a raised running flag means that
  the last scan command issued was enable. */
  lemma OneThreadAndEnabled(s: State)
    requires Reachable(s)
    ensures s.created <= 1
    ensures s.running ==> s.lastCommand == Enable
  {
    ReachableInv(s);
  }

  /** Between calls, a raised running flag means that the scan thread exists and has not ended. */
  lemma RunningMeansScanning(s: State)
    requires Reachable(s) && s.controller == Idle && s.running
    ensures s.scanThread != Absent && s.scanThread != Exited
  {
    ReachableInv(s);
  }

  predicate OfScanThread(a: Action) {
    a.LoopTest? || a.Read? || a.Retest? || a.Dispatch?
  }

  /** However often the scan thread runs, only its own position changes. */
  lemma {:induction false} ScanThreadChangesPosition(s: State, acts: seq<Action>)
    requires Exec(s, acts).Some? && forall a <- acts :: OfScanThread(a)
    ensures Exec(s, acts).value == s.(scanThread := Exec(s, acts).value.scanThread)
    decreases |acts|
  {
    if acts != [] {
      var t := Next(s, acts[0]).value;
      assert OfScanThread(acts[0]);
      assert t == s.(scanThread := t.scanThread);
      ScanThreadChangesPosition(t, acts[1..]);
    }
  }

  /** The dispatches the scan thread can still begin while the running flag is down. */
  function Budget(t: ScanThread): nat {
    if t == Reading || t == Dispatching then 1 else 0
  }

  lemma {:induction false} DispatchesWhileStopped(s: State, acts: seq<Action>)
    requires Inv(s) && !s.running && Exec(s, acts).Some?
    requires forall a <- acts :: !a.SetRunning?
    ensures CountDispatches(acts) <= Budget(s.scanThread)
    decreases |acts|
  {
    if acts != [] {
      var t := Next(s, acts[0]).value;
      NextKeepsInv(s, acts[0]);
      DispatchesWhileStopped(t, acts[1..]);
    }
  }

  function CountReports(acts: seq<Action>): nat {
    if acts == [] then 0 else (if acts[0] == Read(Report) then 1 else 0) + CountReports(acts[1..])
  }

  /** Every dispatch is of a report that was read, and every report read is dispatched, the last one perhaps later:
  an empty read or a dropped event leads to none. */
  lemma {:induction false} DispatchesAreReports(s: State, acts: seq<Action>)
    requires Inv(s) && Exec(s, acts).Some?
    ensures CountDispatches(acts) + (if Exec(s, acts).value.scanThread == Dispatching then 1 else 0)
            == CountReports(acts) + if s.scanThread == Dispatching then 1 else 0
    decreases |acts|
  {
    if acts != [] {
      NextKeepsInv(s, acts[0]);
      DispatchesAreReports(Next(s, acts[0]).value, acts[1..]);
    }
  }

  function CountThreadSteps(acts: seq<Action>): nat {
    if acts == [] then 0 else (if OfScanThread(acts[0]) then 1 else 0) + CountThreadSteps(acts[1..])
  }

  /** The steps the scan thread can still take while the running flag is down. */
  function Remaining(t: ScanThread): nat {
    match t
    case Absent | Exited => 0
    case AtLoopTest | AtRetest => 1
    case Dispatching => 2
    case Reading => 3
  }

  /** While the running flag is down the scan thread takes at most three more steps, and then it has ended. */
  lemma {:induction false} ScanThreadEnds(s: State, acts: seq<Action>)
    requires Inv(s) && !s.running && Exec(s, acts).Some?
    requires forall a <- acts :: !a.SetRunning?
    ensures CountThreadSteps(acts) + Remaining(Exec(s, acts).value.scanThread) <= Remaining(s.scanThread)
    decreases |acts|
  {
    if acts != [] {
      var t := Next(s, acts[0]).value;
      NextKeepsInv(s, acts[0]);
      ScanThreadEnds(t, acts[1..]);
    }
  }

  /** After stop clears the flag, at most one more event is dispatched before a start raises it again. */
  lemma AtMostOneDispatchAfterStop(s: State, acts: seq<Action>)
    requires Reachable(s) && Exec(s, [ClearRunning] + acts).Some?
    requires forall a <- acts :: !a.SetRunning?
    ensures CountDispatches(acts) <= 1
  {
    ReachableInv(s);
    NextKeepsInv(s, ClearRunning);
    assert ([ClearRunning] + acts)[1..] == acts;
    DispatchesWhileStopped(Next(s, ClearRunning).value, acts);
  }

  /** Once a scan has been started and stopped, no later start succeeds: whatever happens next, between
  calls the running flag stays down. */
  lemma NoRestart(s: State, acts: seq<Action>)
    requires Reachable(s) && s.active && !s.running && Exec(s, acts).Some?
    ensures var t := Exec(s, acts).value; t.controller == Idle ==> !t.running
    ensures Exec(s, acts).value.created == 1
  {
    ReachableInv(s);
    ExecKeepsInv(s, acts);
  }

  lemma ExecSnoc(s: State, acts: seq<Action>, a: Action)
    requires Exec(s, acts).Some?
    ensures Exec(s, acts + [a]) == Next(Exec(s, acts).value, a)
    decreases |acts|
  {
    if acts == [] {
      assert acts + [a] == [a];
    } else {
      assert (acts + [a])[1..] == acts[1..] + [a];
      ExecSnoc(Next(s, acts[0]).value, acts[1..], a);
    }
  }

  lemma ReachableNext(s: State, a: Action)
    requires Reachable(s) && Next(s, a).Some?
    ensures Reachable(Next(s, a).value)
  {
    var acts :| Exec(POWER_ON, acts) == Some(s);
    ExecSnoc(POWER_ON, acts, a);
  }

  lemma PowerOnReachable()
    ensures Reachable(POWER_ON)
  {
    assert Exec(POWER_ON, []) == Some(POWER_ON);
  }

  /** A stop call that has seen the running flag, while the scan thread waits in its read. */
  const STOPPING := State(true, true, true, Enable, BeforeClear, Reading, 1)

  lemma StoppingReachable()
    ensures Reachable(STOPPING)
  {
    hide Exec, Reachable;
    PowerOnReachable();
    var initial := POWER_ON;
    ReachableNext(initial, InitCall(true, true));
    var ready := initial.(socketOpen := true);
    ReachableNext(ready, StartCall);
    ReachableNext(ready.(controller := BeforeFirstDisable), FirstDisable);
    ReachableNext(ready.(controller := BeforeParameters, lastCommand := Disable), SetParameters(true));
    ReachableNext(ready.(controller := BeforeEnable, lastCommand := Disable), EnableCommand(true));
    var enabled := ready.(lastCommand := Enable);
    ReachableNext(enabled.(controller := BeforeSetRunning), SetRunning);
    ReachableNext(enabled.(controller := BeforeCreate, running := true), CreateThread(true));
    ReachableNext(STOPPING.(controller := Idle, scanThread := AtLoopTest), LoopTest);
    ReachableNext(STOPPING.(controller := Idle), StopCall);
  }

  /** The bound of one is met: a scan thread that is waiting in its read when stop clears the flag still
  dispatches the event it gets. */
  lemma OneDispatchAfterStop()
    ensures Reachable(STOPPING)
    ensures Exec(STOPPING, [ClearRunning] + [Read(Report), Dispatch]).Some?
    ensures CountDispatches([Read(Report), Dispatch]) == 1
  {
    StoppingReachable();
    var t := Next(STOPPING, ClearRunning).value;
    assert [Read(Report), Dispatch][1..] == [Dispatch];
    assert Exec(t, [Read(Report), Dispatch]) == Exec(Next(t, Read(Report)).value, [Dispatch]);
    assert ([ClearRunning] + [Read(Report), Dispatch])[1..] == [Read(Report), Dispatch];
  }
}

/** The scanner and thread objects themselves. Between any two steps of a call the scan thread may run. */
module PosixScanner {
  import opened Bytes
  import opened ScanProtocol

  datatype Outcome = Success | AdapterNotFound | NotInitialised | ScanStartFailed | SystemError

  /** A thread object; `active` is set by a successful creation and cleared by a successful destruction. */
  class Thread {
    var active: bool

    constructor ()
      ensures !active
    {
      active := false;
    }

    method Create(osOk: bool) returns (ok: bool)
      modifies this
      ensures ok <==> !old(active) && osOk
      ensures active == (old(active) || osOk)
    {
      if active {
        return false;
      }
      if osOk {
        active := true;
      }
      ok := osOk;
    }

    method Destroy(osOk: bool) returns (ok: bool)
      modifies this
      ensures ok <==> !old(active) || osOk
      ensures active == (old(active) && !osOk)
    {
      if !active {
        return true;
      }
      if osOk {
        active := false;
      }
      ok := osOk;
    }
  }

  class Scanner {
    var socketOpen: bool
    var running: bool
    const scanThread: Thread
    ghost var lastCommand: Command
    ghost var controller: Controller
    ghost var threadAt: ScanThread
    ghost var created: nat

    ghost function Snapshot(): State
      reads this, scanThread
    {
      State(socketOpen, running, scanThread.active, lastCommand, controller, threadAt, created)
    }

    /** The objects are in a state that the protocol can reach. */
    ghost predicate Valid()
      reads this, scanThread
    {
      Reachable(Snapshot())
    }

    constructor ()
      ensures Valid() && fresh(scanThread) && Snapshot() == POWER_ON
    {
      socketOpen, running := false, false;
      scanThread := new Thread();
      lastCommand, controller, threadAt, created := NoCommand, Idle, Absent, 0;
      new;
      PowerOnReachable();
    }

    /** The scan thread takes any number of steps. They change only its position (`ScanThreadChangesPosition`),
    and callers learn only that the state stays reachable. */
    method Interleave()
      requires Valid()
      modifies this`threadAt
      ensures Valid()
    {
    }

    /** The controller has taken the step `a` since the state was `s`. */
    lemma Stepped(s: State, a: Action)
      requires Reachable(s) && Next(s, a) == Some(Snapshot())
      ensures Valid()
    {
      ReachableNext(s, a);
    }

    method InitImpl(routed: bool, open: bool) returns (outcome: Outcome)
      requires Valid() && controller == Idle
      modifies this
      ensures Valid() && controller == Idle && running == old(running) && lastCommand == old(lastCommand)
      ensures !routed ==> outcome == AdapterNotFound && socketOpen == old(socketOpen)
      ensures routed && !open ==> outcome == SystemError && !socketOpen
      ensures routed && open ==> outcome == Success && socketOpen
    {
      hide Reachable;
      ghost var s := Snapshot();
      if routed {
        socketOpen := open;
      }
      outcome := if routed && open then Success else if routed then SystemError else AdapterNotFound;
      Stepped(s, InitCall(routed, open));
      Interleave();
    }

    /** The controller commands that switch scanning on: disable first, then parameters, then enable. */
    method EnableLeScan(parametersOk: bool, enableOk: bool) returns (ok: bool)
      requires Valid() && controller == BeforeFirstDisable
      modifies this`threadAt, this`controller, this`lastCommand
      ensures Valid() && ok == (parametersOk && enableOk)
      ensures controller == if ok then BeforeSetRunning else Idle
      ensures lastCommand == if parametersOk then Enable else Disable
    {
      hide Reachable;
      ghost var s := Snapshot();
      lastCommand, controller := Disable, BeforeParameters;
      Stepped(s, FirstDisable);
      Interleave();
      s := Snapshot();
      controller := if parametersOk then BeforeEnable else Idle;
      Stepped(s, SetParameters(parametersOk));
      Interleave();
      if !parametersOk {
        return false;
      }
      s := Snapshot();
      lastCommand, controller := Enable, if enableOk then BeforeSetRunning else Idle;
      Stepped(s, EnableCommand(enableOk));
      Interleave();
      ok := enableOk;
    }

    /** Raising the flag and creating the thread. */
    method Launch(createOk: bool) returns (ok: bool)
      requires Valid() && controller == BeforeSetRunning
      modifies this`running, this`threadAt, this`controller, this`created, scanThread
      ensures Valid() && running && ok == (!old(scanThread.active) && createOk)
      ensures scanThread.active == (old(scanThread.active) || createOk)
      ensures controller == if ok then Idle else BeforeUndoRunning
    {
      hide Reachable;
      ghost var s := Snapshot();
      running := true;
      controller := BeforeCreate;
      Stepped(s, SetRunning);
      Interleave();
      s := Snapshot();
      ok := scanThread.Create(createOk);
      if ok {
        threadAt, created, controller := AtLoopTest, created + 1, Idle;
      } else {
        controller := BeforeUndoRunning;
      }
      Stepped(s, CreateThread(createOk));
      Interleave();
    }

    /** Lowering the flag and switching scanning off, after a failed creation or for a stop. */
    method Lower()
      requires Valid() && controller in {BeforeUndoRunning, BeforeClear}
      modifies this`running, this`threadAt, this`controller, this`lastCommand
      ensures Valid() && !running && controller == Idle
      ensures lastCommand == if socketOpen then Disable else old(lastCommand)
    {
      hide Reachable;
      ghost var undo := controller == BeforeUndoRunning;
      ghost var s := Snapshot();
      running := false;
      controller := if undo then BeforeUndoDisable else BeforeStopDisable;
      Stepped(s, if undo then UndoRunning else ClearRunning);
      Interleave();
      s := Snapshot();
      lastCommand, controller := Disabled(s), Idle;
      Stepped(s, if undo then UndoDisable else StopDisable);
      Interleave();
    }

    /** Starting succeeds exactly when the socket is open and either a scan is running already or every call
    succeeds and no scan thread was ever created before. Success means that scanning is on and the scan
    thread is there. A start that fails at the parameters or at the thread has switched scanning off. */
    method StartScanImpl(parametersOk: bool, enableOk: bool, createOk: bool) returns (outcome: Outcome)
      requires Valid() && controller == Idle
      modifies this, scanThread
      ensures Valid() && controller == Idle && socketOpen == old(socketOpen)
      ensures outcome == if !old(socketOpen) then NotInitialised
                         else if old(running) then Success
                         else if !parametersOk || !enableOk then ScanStartFailed
                         else if old(scanThread.active) || !createOk then SystemError
                         else Success
      ensures running == (old(running) || outcome == Success)
      ensures outcome == Success ==> lastCommand == Enable && threadAt != Absent && threadAt != Exited
      ensures outcome == NotInitialised ==> lastCommand == old(lastCommand)
      ensures outcome == ScanStartFailed ==> lastCommand == if parametersOk then Enable else Disable
      ensures outcome == SystemError ==> lastCommand == Disable
    {
      hide Reachable;
      ghost var s := Snapshot();
      if !socketOpen {
        return NotInitialised;
      }
      if running {
        Scanning();
        return Success;
      }
      controller := BeforeFirstDisable;
      Stepped(s, StartCall);
      Interleave();
      var enabled := EnableLeScan(parametersOk, enableOk);
      if !enabled {
        return ScanStartFailed;
      }
      var launched := Launch(createOk);
      if !launched {
        Lower();
        return SystemError;
      }
      Scanning();
      outcome := Success;
    }

    lemma Scanning()
      requires Valid() && controller == Idle && running
      ensures lastCommand == Enable && threadAt != Absent && threadAt != Exited
    {
      OneThreadAndEnabled(Snapshot());
      RunningMeansScanning(Snapshot());
    }

    method StopScanImpl() returns (outcome: Outcome)
      requires Valid() && controller == Idle
      modifies this
      ensures Valid() && controller == Idle && socketOpen == old(socketOpen) && created == old(created)
      ensures outcome == Success && !running
      ensures lastCommand == if old(running && socketOpen) then Disable else old(lastCommand)
    {
      hide Reachable;
      ghost var s := Snapshot();
      if !running {
        return Success;
      }
      controller := BeforeClear;
      Stepped(s, StopCall);
      Interleave();
      Lower();
      outcome := Success;
    }
  }
}

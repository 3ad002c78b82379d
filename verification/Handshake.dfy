/** The command handshake of an OMX component (omx.c:54-91, 113-124): a thread records a command in
the component's only slot and sends it, and later waits until the event handler has cleared the slot.

The thread makes any sequence of calls of omx_send_command_and_wait0 and ..._wait1, the component
completes the commands it has been sent in any order, and the steps of both interleave freely.
omx_send_command_and_wait is a call of the one followed by a call of the other. */
module Handshake {
  import opened Media
  import opened Runs

  // ---------------------------------------------------------------------------------------------
  // The slot

  /** Cmd and nParam; the handler compares nothing else. */
  datatype Command = Command(cmd: int, param: int)

  /** struct omx_cmd_t; `recorded` says that hComponent is not NULL. */
  datatype Slot = Slot(recorded: bool, command: Command)

  const CLEARED := Slot(false, Command(0, 0))

  /** The CmdComplete case of omx_event_handler.  It does not look at hComponent. */
  function Complete(slot: Slot, done: Command): Slot {
    if slot.command == done then CLEARED else slot
  }

  /** The part of struct omx_component_t that the handshake works on.  As everywhere, what other threads do
      to it while the caller does not hold the mutex is a parameter: here, the commands whose completion
      the event handler is told of. */
  class Component {
    var hComponent: bool
    var cmd: int
    var nParam: int

    function Value(): Slot
      reads this
    {
      Slot(hComponent, Command(cmd, nParam))
    }

    /** omx_init_component clears the whole component. */
    constructor ()
      ensures Value() == CLEARED
    {
      hComponent, cmd, nParam := false, 0, 0;
    }

    method Wait0(c: Command)
      modifies this
      ensures Value() == Slot(true, c)
    {
      hComponent := true;
      cmd := c.cmd;
      nParam := c.param;
    }

    method CmdComplete(nData1: int, nData2: int)
      modifies this
      ensures Value() == Complete(old(Value()), Command(nData1, nData2))
    {
      if nData1 == cmd && nData2 == nParam {
        hComponent, cmd, nParam := false, 0, 0;
      }
    }

    /** The handler runs for a number of completions: the slot is cleared if one of them is that of the
        recorded command, whatever comes before or after it. */
    method CompleteAll(done: seq<Command>)
      modifies this
      ensures Value() == if old(Value().command) in done then CLEARED else old(Value())
      ensures old(Value().command) in done ==> !hComponent && cmd == 0 && nParam == 0
    {
      for k := 0 to |done|
        invariant Value() == if old(Value().command) in done[..k] then CLEARED else old(Value())
      {
        CmdComplete(done[k].cmd, done[k].param);
      }
      assert done[..|done|] == done;
    }

    /** omx_send_command_and_wait1.  `wakeups[k]` are the completions that have arrived by the time the
        caller holds the mutex again after its wait number k (none for a wakeup without a signal).  The
        call returns at the first wakeup that finds the recorded command completed; if there is none, the
        caller is still asleep when no wakeup is left. */
    method Wait1(wakeups: seq<seq<Command>>) returns (returned: bool, waits: nat)
      modifies this
      ensures waits <= |wakeups|
      ensures returned <==> !old(hComponent) || old(Value().command) in Flatten(wakeups)
      ensures !old(hComponent) ==> waits == 0 && Value() == old(Value())
      ensures returned && old(hComponent) ==>
                && waits > 0 && old(Value().command) in wakeups[waits - 1]
                && old(Value().command) !in Flatten(wakeups[..waits - 1])
                && Value() == CLEARED
      ensures !returned ==> waits == |wakeups| && Value() == old(Value())
    {
      waits := 0;
      ghost var c := Value().command;
      while hComponent
        invariant waits <= |wakeups|
        invariant hComponent ==> Value() == old(Value()) && c !in Flatten(wakeups[..waits])
        invariant !hComponent && old(hComponent) ==>
                    && waits > 0 && c in wakeups[waits - 1] && c !in Flatten(wakeups[..waits - 1])
                    && Value() == CLEARED
        invariant !old(hComponent) ==> waits == 0 && Value() == old(Value())
        decreases |wakeups| - waits
      {
        if waits == |wakeups| {
          assert wakeups[..waits] == wakeups;
          return false, waits;
        }
        FlattenSplit(wakeups, waits);
        CompleteAll(wakeups[waits]);
        waits := waits + 1;
      }
      if old(hComponent) {
        PartIsIn(wakeups, waits - 1);
      }
      returned := true;
    }

    /** omx_send_command_and_wait: it returns exactly if the command is completed, before the wait begins
        or during the wait, whatever else is completed.  The completions `between` arrive after the command
        is recorded and before the wait. */
    method SendCommandAndWait(c: Command, between: seq<Command>, wakeups: seq<seq<Command>>)
      returns (returned: bool, waits: nat)
      modifies this
      ensures returned <==> c in between + Flatten(wakeups)
      ensures c in between ==> waits == 0
      ensures Value() == if returned then CLEARED else Slot(true, c)
    {
      Wait0(c);
      CompleteAll(between);
      returned, waits := Wait1(wakeups);
    }

    /** Lines 157-166 of encode.c: two commands are sent before the waits for both.  The completion of the
        first has no influence on when the second wait is over. */
    method SendTwoAndWait(a: Command, b: Command, early: seq<Command>, between: seq<Command>,
                          wakeups: seq<seq<Command>>) returns (returned: bool)
      modifies this
      ensures returned <==> b in between + Flatten(wakeups)
    {
      Wait0(a);
      CompleteAll(early);
      Wait0(b);
      CompleteAll(between);
      var waits;
      returned, waits := Wait1(wakeups);
      if returned {
        returned, waits := Wait1(wakeups[waits..]);
      }
    }
  }

  // ---------------------------------------------------------------------------------------------
  // The step system

  datatype Call = Wait0(command: Command) | Wait1

  datatype Pc =
    | Ready
    | Recorded  // inside wait0: the command is recorded, not yet sent
    | Waiting   // inside wait1: about to look at the slot
    | Asleep    // inside wait1: waits and has not been signalled

  /** A command is identified by the position of its wait0 in the list of calls. */
  datatype State = State(
    at: nat,              // the call the thread is in, or will make next
    pc: Pc,
    slot: Slot,
    outstanding: set<nat>, // sent, not completed
    completed: set<nat>,
    last: Option<nat>)     // the command recorded last

  const INITIAL := State(0, Ready, CLEARED, {}, {}, None)

  function ThreadStep(calls: seq<Call>, s: State): Option<State> {
    if s.at >= |calls| then None else
    match s.pc
    case Ready =>
      (match calls[s.at]
       case Wait0(c) => Some(s.(pc := Recorded, slot := Slot(true, c), last := Some(s.at)))
       case Wait1 => Some(s.(pc := Waiting)))
    case Recorded =>
      Some(s.(pc := Ready, at := s.at + 1, outstanding := s.outstanding + {s.at}))
    case Waiting =>
      if s.slot.recorded then Some(s.(pc := Asleep)) else Some(s.(pc := Ready, at := s.at + 1))
    case Asleep =>
      None
  }

  function HandlerStep(calls: seq<Call>, s: State, i: nat): Option<State> {
    if i !in s.outstanding || i >= |calls| || !calls[i].Wait0? then None else
    var matches := s.slot.command == calls[i].command;
    Some(s.(outstanding := s.outstanding - {i},
            completed := s.completed + {i},
            slot := Complete(s.slot, calls[i].command),
            pc := if matches && s.pc == Asleep then Waiting else s.pc))
  }

  datatype Action = Thread | Handler(i: nat) | Spurious

  function Next(calls: seq<Call>, s: State, a: Action): Option<State> {
    match a
    case Thread => ThreadStep(calls, s)
    case Handler(i) => HandlerStep(calls, s, i)
    case Spurious => if s.pc == Asleep then Some(s.(pc := Waiting)) else None
  }

  function Steps(calls: seq<Call>): (State, Action) -> Option<State> {
    (s, a) => Next(calls, s, a)
  }

  // ---------------------------------------------------------------------------------------------
  // Invariant

  predicate IsCommand(calls: seq<Call>, i: nat) {
    i < |calls| && calls[i].Wait0?
  }

  /** The slot is cleared or holds the command recorded last; it is cleared once that is completed. */
  ghost predicate Inv(calls: seq<Call>, s: State) {
    && (forall i :: i in s.outstanding ==> IsCommand(calls, i) && i < s.at && i !in s.completed)
    && (forall i :: i in s.completed ==> i < s.at)
    && (s.pc == Recorded ==> s.last == Some(s.at))
    && (s.last.None? ==> s.slot == CLEARED)
    && (s.last.Some? ==>
      && IsCommand(calls, s.last.value)
      && (s.last.value in s.outstanding || s.last.value in s.completed || s.pc == Recorded)
      && (s.slot == CLEARED || s.slot == Slot(true, calls[s.last.value].command))
      && (s.last.value in s.completed ==> s.slot == CLEARED)
      && (s.pc != Recorded ==> s.last.value < s.at))
    && (s.pc == Asleep ==> s.slot.recorded)
    && (s.pc == Waiting || s.pc == Asleep ==> s.at < |calls| && calls[s.at].Wait1?)
    && (s.pc == Recorded ==> IsCommand(calls, s.at))
  }

  lemma StepKeepsInv(calls: seq<Call>, s: State, a: Action)
    requires Inv(calls, s) && Next(calls, s, a).Some?
    ensures Inv(calls, Next(calls, s, a).value)
  {
  }

  /** In every interleaving. */
  lemma ReachableInv(calls: seq<Call>, s: State)
    requires Reaches(Steps(calls), INITIAL, s)
    ensures Inv(calls, s)
  {
    forall t: State, a: Action | Inv(calls, t) && Steps(calls)(t, a).Some?
      ensures Inv(calls, Steps(calls)(t, a).value)
    {
      StepKeepsInv(calls, t, a);
    }
    HoldsWhereReached(Steps(calls), INITIAL, t => Inv(calls, t), s);
  }

  // ---------------------------------------------------------------------------------------------
  // What wait1 guarantees

  /** No completion is lost: a thread sleeps in wait1 only while the component still owes it the
      completion of the command recorded last.  Once that has arrived, even before wait1 was called,
      wait1 returns without sleeping. */
  lemma NoCompletionIsLost(calls: seq<Call>, s: State)
    requires Reaches(Steps(calls), INITIAL, s)
    ensures s.pc == Asleep ==> s.last.Some? && s.last.value in s.outstanding
    ensures s.pc == Waiting && (s.last.None? || s.last.value in s.completed) ==>
              ThreadStep(calls, s) == Some(s.(pc := Ready, at := s.at + 1))
  {
    ReachableInv(calls, s);
  }

  /** Another command on its way looks just like command `i` to the handler. */
  ghost predicate HasTwin(calls: seq<Call>, s: State, i: nat)
    requires IsCommand(calls, i)
  {
    exists j :: j in s.outstanding && j != i && IsCommand(calls, j) && calls[j].command == calls[i].command
  }

  /** Command `i` was recorded last, the slot still says so, and it has no twin. */
  ghost predicate Guarded(calls: seq<Call>, s: State, i: nat)
    requires IsCommand(calls, i)
  {
    s.last == Some(i) && s.slot == Slot(true, calls[i].command) && !HasTwin(calls, s, i)
  }

  /** Late completions of other commands neither clear the slot nor wake the thread. */
  lemma LateCompletionIsIgnored(calls: seq<Call>, s: State, i: nat, j: nat)
    requires IsCommand(calls, i) && Guarded(calls, s, i)
    requires j != i && HandlerStep(calls, s, j).Some?
    ensures var s' := HandlerStep(calls, s, j).value;
            s'.slot == s.slot && s'.pc == s.pc && Guarded(calls, s', i)
  {
    assert calls[j].command != calls[i].command;
  }

  /** The thread is about to record and send command `i`, and to wait for it next. */
  ghost predicate IsAboutToSend(calls: seq<Call>, s: State, i: nat) {
    && s.pc == Ready && s.at == i
    && IsCommand(calls, i) && i + 1 < |calls| && calls[i + 1].Wait1?
  }

  /** There is a run in which that wait1 returns although command `i` is not completed. */
  ghost predicate CanReturnEarly(calls: seq<Call>, s: State, i: nat) {
    exists t :: Reaches(Steps(calls), s, t) && t.at == i + 2 && i !in t.completed
  }

  /** Command `i` is not sent yet and has no twin, or the slot guards it, or it is completed. */
  ghost predicate Protected(calls: seq<Call>, s: State, i: nat)
    requires IsCommand(calls, i)
  {
    && Inv(calls, s)
    && (i in s.completed
        || (IsAboutToSend(calls, s, i) && !HasTwin(calls, s, i))
        || (&& Guarded(calls, s, i) && s.at <= i + 1 && i + 1 < |calls| && calls[i + 1].Wait1?
            && (s.at == i ==> s.pc == Recorded)))
  }

  lemma StepKeepsProtected(calls: seq<Call>, s: State, i: nat, a: Action)
    requires IsCommand(calls, i) && Protected(calls, s, i) && Next(calls, s, a).Some?
    ensures Protected(calls, Next(calls, s, a).value, i)
  {
    StepKeepsInv(calls, s, a);
    if i !in s.completed && Guarded(calls, s, i) && a.Handler? && a.i != i {
      LateCompletionIsIgnored(calls, s, i, a.i);
    }
  }

  /** From there on, if no twin is outstanding, the slot guards command `i` until it is completed. */
  lemma GuardHolds(calls: seq<Call>, s: State, i: nat, t: State)
    requires Inv(calls, s) && IsAboutToSend(calls, s, i) && !HasTwin(calls, s, i)
    requires Reaches(Steps(calls), s, t)
    ensures Protected(calls, t, i)
  {
    forall u: State, a: Action | Protected(calls, u, i) && Steps(calls)(u, a).Some?
      ensures Protected(calls, Steps(calls)(u, a).value, i)
    {
      StepKeepsProtected(calls, u, i, a);
    }
    HoldsWhereReached(Steps(calls), s, u => Protected(calls, u, i), t);
  }

  lemma TwinReleasesTheWaiter(calls: seq<Call>, s: State, i: nat)
    requires Inv(calls, s) && IsAboutToSend(calls, s, i) && HasTwin(calls, s, i)
    ensures CanReturnEarly(calls, s, i)
  {
    var j :| j in s.outstanding && j != i && IsCommand(calls, j) && calls[j].command == calls[i].command;
    ReachesStart(Steps(calls), s);
    var t := GoOn(Steps(calls), s, s, Thread);
    t := GoOn(Steps(calls), s, t, Thread);
    t := GoOn(Steps(calls), s, t, Handler(j));
    t := GoOn(Steps(calls), s, t, Thread);
    t := GoOn(Steps(calls), s, t, Thread);
    assert t.at == i + 2 && i !in t.completed;
  }

  /** wait1 waits for the command sent just before it, exactly if no outstanding command has the same
      Cmd and nParam when that is sent: then it returns only after the completion, in every
      interleaving; and otherwise there is one in which it returns too early. */
  lemma EarlyReturnIff(calls: seq<Call>, s: State, i: nat)
    requires Reaches(Steps(calls), INITIAL, s) && IsAboutToSend(calls, s, i)
    ensures CanReturnEarly(calls, s, i) <==> HasTwin(calls, s, i)
  {
    ReachableInv(calls, s);
    if HasTwin(calls, s, i) {
      TwinReleasesTheWaiter(calls, s, i);
    } else if CanReturnEarly(calls, s, i) {
      var t :| Reaches(Steps(calls), s, t) && t.at == i + 2 && i !in t.completed;
      GuardHolds(calls, s, i, t);
      assert false;
    }
  }

  /** The slot holds one command only.  Of two commands recorded one after the other, as at
      encode.c:157-166, nobody waits for the first: both waits can be over while it is outstanding. */
  lemma OverwrittenCommandIsNotAwaited(a: Command, b: Command) returns (calls: seq<Call>, s: State)
    requires a != b
    ensures calls == [Wait0(a), Wait0(b), Wait1, Wait1]
    ensures Reaches(Steps(calls), INITIAL, s) && s.at == 4 && 0 in s.outstanding
  {
    calls := [Wait0(a), Wait0(b), Wait1, Wait1];
    s := INITIAL;
    ReachesStart(Steps(calls), s);
    s := GoOn(Steps(calls), INITIAL, s, Thread);
    s := GoOn(Steps(calls), INITIAL, s, Thread);
    s := GoOn(Steps(calls), INITIAL, s, Thread);
    s := GoOn(Steps(calls), INITIAL, s, Thread);
    assert s.outstanding == {0, 1} && s.slot == Slot(true, b);
    s := GoOn(Steps(calls), INITIAL, s, Handler(1));
    assert s.outstanding == {0} && s.slot == CLEARED;
    s := GoOn(Steps(calls), INITIAL, s, Thread);
    s := GoOn(Steps(calls), INITIAL, s, Thread);
    s := GoOn(Steps(calls), INITIAL, s, Thread);
    s := GoOn(Steps(calls), INITIAL, s, Thread);
  }
}

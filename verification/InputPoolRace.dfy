/** The input pool in its real lock steps.

omx_empty_buffer_done reads `buf_in_notempty` without the mutex (omx.c:171), and the component empties
a buffer without it, too.  So both can fall between the scan of omx_get_next_input_buffer, which finds
no empty buffer, and the write that clears the flag (omx.c:373-378).  This module has one action for
each of these accesses; the step system of the decode thread treats the emptying of a buffer and the
callback as one action instead. */
module InputPoolRace {
  import opened Media
  import opened Runs

  datatype Pc =
    | Scanning        // about to take the mutex and look for an empty buffer
    | SawNone         // holds the mutex, found all buffers full, has not cleared the flag
    | Asleep
    | Woken
    | Holding(b: nat)

  datatype State = State(
    full: seq<bool>,     // nFilledLen > 0
    flag: bool,          // buf_in_notempty
    taker: Pc,
    mustTest: set<nat>,  // callbacks about to read the flag
    mustSignal: set<nat>,// callbacks that have read 0, about to take the mutex
    overtaken: bool)     // history: since the last scan, the callback of a buffer emptied after that scan
                         // has read 1, before the flag was cleared

  datatype Action =
    | Take(b: nat)       // the scan finds buffer b empty
    | Miss               // the scan finds no empty buffer
    | Clear              // lines 378 and 386: clear the flag and sleep
    | Recheck            // woken up: look at the flag again
    | Submit             // fill the buffer and hand it to the component
    | Empty(b: nat)      // the component empties buffer b
    | Test(b: nat)       // its callback reads the flag
    | Signal(b: nat)     // its callback takes the mutex, sets the flag and signals
    | Spurious

  ghost predicate AllFull(s: State) {
    forall b :: 0 <= b < |s.full| ==> s.full[b]
  }

  predicate IsEmpty(s: State, b: nat) {
    b < |s.full| && !s.full[b]
  }

  /** The mutex is held from a scan without result to the wait, so no callback signals in between. */
  ghost function Next(s: State, a: Action): Option<State> {
    match a
    case Take(b) =>
      if s.taker == Scanning && b < |s.full| && !s.full[b] then Some(s.(taker := Holding(b))) else None
    case Miss =>
      if s.taker == Scanning && AllFull(s) then Some(s.(taker := SawNone, overtaken := false)) else None
    case Clear =>
      if s.taker == SawNone then Some(s.(taker := Asleep, flag := false)) else None
    case Recheck =>
      if s.taker == Woken then Some(s.(taker := if s.flag then Scanning else Asleep)) else None
    case Submit =>
      if s.taker.Holding? && s.taker.b < |s.full|
      then Some(s.(taker := Scanning, full := s.full[s.taker.b := true])) else None
    case Empty(b) =>
      if b < |s.full| && s.full[b] && b !in s.mustTest && b !in s.mustSignal
      then Some(s.(full := s.full[b := false], mustTest := s.mustTest + {b})) else None
    case Test(b) =>
      if b !in s.mustTest then None
      else if s.flag then Some(s.(mustTest := s.mustTest - {b},
                                  overtaken := s.overtaken || (s.taker == SawNone && IsEmpty(s, b))))
      else Some(s.(mustTest := s.mustTest - {b}, mustSignal := s.mustSignal + {b}))
    case Signal(b) =>
      if b !in s.mustSignal || s.taker == SawNone then None
      else Some(s.(mustSignal := s.mustSignal - {b}, flag := true,
                   taker := if s.taker == Asleep then Woken else s.taker))
    case Spurious =>
      if s.taker == Asleep then Some(s.(taker := Woken)) else None
  }

  function Init(n: nat): State {
    State(seq(n, _ => false), true, Scanning, {}, {}, false)
  }

  ghost predicate Reachable(n: nat, s: State) {
    Reaches(Steps(), Init(n), s)
  }

  ghost function Steps(): (State, Action) -> Option<State> {
    (s, a) => Next(s, a)
  }

  /** A sleeper, or one that will go back to sleep. */
  ghost predicate WillSleep(s: State) {
    s.taker == SawNone || s.taker == Asleep || (s.taker == Woken && !s.flag)
  }

  /** An empty buffer whose callback is over without a signal. */
  ghost predicate Unannounced(s: State, b: nat) {
    IsEmpty(s, b) && b !in s.mustTest && b !in s.mustSignal
  }

  ghost predicate Inv(s: State) {
    && (s.taker == Asleep ==> !s.flag)
    && s.mustTest !! s.mustSignal
    && (WillSleep(s) ==> (s.overtaken <==> exists b :: Unannounced(s, b)))
  }

  lemma StepKeepsInv(s: State, a: Action)
    requires Inv(s) && Next(s, a).Some?
    ensures Inv(Next(s, a).value)
  {
    var s' := Next(s, a).value;
    if WillSleep(s') {
      if a.Test? && s.flag && s.taker == SawNone && IsEmpty(s, a.b) {
        assert Unannounced(s', a.b);
      } else if s'.overtaken {
        var b :| Unannounced(s, b);
        assert Unannounced(s', b);
      } else if b :| Unannounced(s', b) {
        assert !a.Miss? ==> Unannounced(s, b);
        assert false;
      }
    }
  }

  lemma ReachableInv(n: nat, s: State)
    requires Reachable(n, s)
    ensures Inv(s)
  {
    forall t: State, a: Action | Inv(t) && Steps()(t, a).Some? ensures Inv(Steps()(t, a).value) {
      StepKeepsInv(t, a);
    }
    HoldsWhereReached(Steps(), Init(n), t => Inv(t), s);
  }

  /** A wakeup is lost, in the sense that the taker sleeps while a buffer is empty that no callback will
      announce any more, exactly if a callback has slipped in between the scan and the write that clears
      the flag. */
  lemma WakeupIsLostIff(n: nat, s: State)
    requires Reachable(n, s) && s.taker == Asleep
    ensures (exists b :: Unannounced(s, b)) <==> s.overtaken
  {
    ReachableInv(n, s);
  }

  /** And a wakeup can be lost: with one buffer, the taker then sleeps although the buffer is empty, and
      nothing but a wakeup without signal can happen any more. */
  lemma WakeupCanBeLost() returns (s: State)
    ensures Reachable(1, s) && s.taker == Asleep && Unannounced(s, 0)
    ensures forall a: Action :: !a.Spurious? ==> Next(s, a).None?
  {
    var start := Init(1);
    ReachesStart(Steps(), start);
    s := start;
    s := GoOn(Steps(), start, s, Take(0));
    s := GoOn(Steps(), start, s, Submit);
    assert s == State([true], true, Scanning, {}, {}, false);
    s := GoOn(Steps(), start, s, Miss);
    s := GoOn(Steps(), start, s, Empty(0));
    assert s == State([false], true, SawNone, {0}, {}, false);
    s := GoOn(Steps(), start, s, Test(0));
    s := GoOn(Steps(), start, s, Clear);
    assert s == State([false], false, Asleep, {}, {}, true);
  }
}

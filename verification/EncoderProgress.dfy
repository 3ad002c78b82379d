/** The writer and the encoder always get to an end: the writer has left its loop, or sleeps for good. */
module EncoderProgress {
  import opened Media
  import opened NalSpec
  import opened BufferPools
  import opened EncoderOutput
  import opened EncoderTheorems
  import opened Runs

  // ---------------------------------------------------------------------------------------------
  // Where a run can stop

  /** Neither the writer nor the encoder's buffers can move any more, except that the writer wakes up without
      a signal.  Whether the flags of the loop test will still be set is left open. */
  ghost predicate Stopped(c: Config, s: State) {
    forall a: Action :: !a.Spurious? && !a.EncoderEos? && !a.AudioEnds? ==> Next(c, s, a).None?
  }

  ghost predicate AllAtEncoder(c: Config, s: State) {
    forall b: nat :: b < c.n <==> b in s.encoder
  }

  /** No buffer moves any more, and the writer has left its loop or waits for a buffer while the encoder has
      all of them. */
  ghost predicate IsEnd(c: Config, s: State) {
    && s.callback == {} && (NothingToCome(c, s) || s.encoder == {})
    && (s.writer == Exited || (s.writer == Asleep && AllAtEncoder(c, s)))
  }

  /** Neither in the pool nor on the way there. */
  predicate NoneFree(s: State) {
    s.pool.free == [] && s.callback == {}
  }

  /** Without a free buffer and outside the few lines in which the writer holds one, all are at the
      encoder. */
  lemma NoneFreeIff(c: Config, s: State)
    requires Reachable(c, s) && !s.writer.HoldingBuffer?
    ensures NoneFree(s) <==> AllAtEncoder(c, s)
  {
    forall b: nat
      ensures b < c.n <==> b in s.pool.free || b in s.encoder || b in s.callback
      ensures b in s.encoder ==> b !in s.pool.free && b !in s.callback
    {
      BufferIsInOnePlace(c, s, b);
    }
    assert s.pool.free != [] ==> s.pool.free[0] in s.pool.free;
  }

  lemma CallbackIsReturnable(c: Config, s: State, b: nat)
    requires PoolInv(c, s) && b in s.callback
    ensures ReturnStep(s, b).Some?
  {
    assert Places(s.pool.free, s.encoder, s.callback, s.writer, b) == if b < c.n then 1 else 0;
  }

  /** They stop only at an end, and every end is one. */
  lemma StopsOnlyAtEnd(c: Config, s: State)
    requires Reachable(c, s)
    ensures Stopped(c, s) <==> IsEnd(c, s)
  {
    ReachableInv(c, s);
    if Stopped(c, s) {
      assert Next(c, s, Writer).None?;
      forall b: nat ensures b !in s.callback {
        assert Next(c, s, ReturnBuffer(b)).None?;
        if b in s.callback {
          CallbackIsReturnable(c, s, b);
        }
      }
      if b :| b in s.encoder {
        assert Next(c, s, Fill(b)).None?;
      }
      if s.writer == Asleep {
        NoneFreeIff(c, s);
      }
    }
  }

  // ---------------------------------------------------------------------------------------------
  // When the writer ends up asleep

  /** The writer is inside omx_get_next_output_buffer, and no buffer will come. */
  predicate Doomed(c: Config, s: State) {
    NothingToCome(c, s) && NoneFree(s) && (s.writer == Taking || s.writer == Asleep)
  }

  /** Then it stays there whatever happens, so the output is never finished, even after both flags are
      set. */
  lemma DoomedForever(c: Config, s: State, t: State)
    requires Doomed(c, s) && Reaches(Steps(c), s, t)
    ensures Doomed(c, t) && t.writer != Exited
  {
    HoldsWhereReached(Steps(c), s, u => Doomed(c, u), t);
  }

  /** Nothing but the test of the loop gets it there: one of its two variables is read as not set, when
      the encoder has all buffers and nothing to put into them. */
  lemma DoomedAtLoopTest(c: Config, s: State, a: Action)
    requires Reachable(c, s) && Next(c, s, a).Some?
    requires !Doomed(c, s) && Doomed(c, Next(c, s, a).value)
    ensures a.Writer? && ((s.writer == Top && !s.eos) || (s.writer == SawEos && !s.audioFinished))
    ensures NothingToCome(c, s) && AllAtEncoder(c, s)
  {
    if s.writer == Top || s.writer == SawEos {
      NoneFreeIff(c, s);
    }
  }

  /** And an evaluation of that test does so exactly then. */
  lemma LoopTestDoomsIff(c: Config, s: State)
    requires Reachable(c, s) && (s.writer == Top || s.writer == SawEos)
    ensures Doomed(c, WriterStep(c, s).value) <==>
              NothingToCome(c, s) && AllAtEncoder(c, s) && if s.writer == Top then !s.eos else !s.audioFinished
  {
    NoneFreeIff(c, s);
  }

  /** Where they have stopped, the writer is still inside its loop exactly if that has happened. */
  lemma EndsAsleepIff(c: Config, s: State)
    requires c.n > 0 && Reachable(c, s) && Stopped(c, s)
    ensures Doomed(c, s) <==> s.writer != Exited
  {
    StopsOnlyAtEnd(c, s);
    if s.writer == Asleep {
      NoneFreeIff(c, s);
      assert 0 in s.encoder;
    }
  }

  lemma FlagsStayInTime(c: Config, s: State, a: Action)
    requires s.eos && s.audioFinished && !Doomed(c, s) && Next(c, s, a).Some?
    ensures var s' := Next(c, s, a).value; s'.eos && s'.audioFinished && !Doomed(c, s')
  {
  }

  /** How a run ends is decided when the second of the two flags is set: the writer leaves its loop, unless
      it waits by then and no buffer will come. */
  lemma DecidedWhenFlagsAreSet(c: Config, s: State, t: State)
    requires c.n > 0 && Reachable(c, s) && s.eos && s.audioFinished
    requires Reaches(Steps(c), s, t) && Stopped(c, t)
    ensures t.writer == Exited <==> !Doomed(c, s)
  {
    if Doomed(c, s) {
      DoomedForever(c, s, t);
    } else {
      var inTime := (u: State) => Reachable(c, u) && u.eos && u.audioFinished && !Doomed(c, u);
      forall u: State, a: Action | inTime(u) && Steps(c)(u, a).Some? ensures inTime(Steps(c)(u, a).value) {
        var u' := GoOn(Steps(c), Init(c), u, a);
        FlagsStayInTime(c, u, a);
      }
      HoldsWhereReached(Steps(c), s, inTime, t);
      EndsAsleepIff(c, t);
    }
  }

  /** Of the video data nothing is lost then: the writer has dequeued all of the encoder's output and
      written what is wanted of it. */
  lemma AsleepHasWrittenAll(c: Config, s: State)
    requires ValidConfig(c) && Reachable(c, s) && Doomed(c, s)
    ensures s.queue == [] && s.taken == c.output
    ensures NonEmptyWrites(s.mux.writes) == Filtered(c.rescale, Group(c.output).nals)
  {
    ReachableInv(c, s);
    NoneFreeIff(c, s);
    assert s.encoder == Below(c.n);
    assert s.taken + [] == s.taken;
    OutputIsPrefix(c, s);
  }

  /** The loop test with eos not set, then both passes of the wait for a buffer. */
  lemma FallAsleep(c: Config, s: State) returns (s': State)
    requires Reachable(c, s) && s.writer == Top && !s.eos && s.pool == OutPool([], true)
    ensures Reachable(c, s') && s' == s.(writer := Asleep, pool := OutPool([], false))
  {
    s' := GoOn(Steps(c), Init(c), s, Writer);
    s' := GoOn(Steps(c), Init(c), s', Writer);
    s' := GoOn(Steps(c), Init(c), s', Writer);
  }

  /** The writer takes the only free buffer, submits it, and dequeues the only packet. */
  lemma RoundWithPacket(c: Config, s: State, b: nat) returns (s': State)
    requires Reachable(c, s) && s.writer == Taking && s.pool == OutPool([b], true) && |s.queue| == 1
    ensures Reachable(c, s') && s' == s.(writer := Top, pool := OutPool([], true), queue := [],
                                         encoder := s.encoder + {b}, taken := s'.taken, mux := s'.mux)
  {
    s' := GoOn(Steps(c), Init(c), s, Writer);
    s' := GoOn(Steps(c), Init(c), s', Writer);
    s' := GoOn(Steps(c), Init(c), s', Writer);
  }

  /** The encoder fills buffer `b` and returns it, which wakes the writer up. */
  lemma FillAndReturn(c: Config, s: State, b: nat) returns (s': State)
    requires Reachable(c, s) && s.writer == Asleep && b in s.encoder && s.callback == {} && !NothingToCome(c, s)
    ensures Reachable(c, s')
    ensures s' == s.(writer := Taking, pool := OutPool([b], true), encoder := s.encoder - {b},
                     queue := s.queue + [c.output[|s.produced|]], produced := s.produced + [c.output[|s.produced|]],
                     clock := s'.clock, stamps := s'.stamps)
  {
    ReachableInv(c, s);
    BufferIsInOnePlace(c, s, b);
    s' := GoOn(Steps(c), Init(c), s, Fill(b));
    s' := GoOn(Steps(c), Init(c), s', ReturnBuffer(b));
  }

  /** One more packet of the encoder goes all the way, and the writer is asleep again. */
  lemma RoundTrip(c: Config, s: State) returns (s': State)
    requires c.n > 0 && Reachable(c, s) && AllAtEncoder(c, s) && !NothingToCome(c, s)
    requires s.writer == Asleep && s.queue == [] && !s.eos
    ensures Reachable(c, s') && AllAtEncoder(c, s') && s'.writer == Asleep && s'.queue == [] && !s'.eos
    ensures |s'.produced| == |s.produced| + 1
  {
    NoneFreeIff(c, s);
    assert 0 in s.encoder;
    s' := FillAndReturn(c, s, 0);
    s' := RoundWithPacket(c, s', 0);
    assert s'.encoder == s.encoder;
    s' := FallAsleep(c, s');
  }

  lemma {:induction false} AllGoesThrough(c: Config, k: nat) returns (s: State)
    requires c.n > 0 && k <= |c.output|
    ensures Reachable(c, s) && AllAtEncoder(c, s) && s.writer == Asleep && s.queue == [] && !s.eos
    ensures |s.produced| == k
  {
    if k == 0 {
      s := SubmitSome(c, c.n);
      NoneFreeIff(c, s);
      s := FallAsleep(c, s);
    } else {
      s := AllGoesThrough(c, k - 1);
      s := RoundTrip(c, s);
    }
  }

  lemma SetFlags(c: Config, s: State) returns (s': State)
    requires Reachable(c, s)
    ensures Reachable(c, s') && s' == s.(eos := true, audioFinished := true)
  {
    s' := s;
    if !s'.eos {
      s' := GoOn(Steps(c), Init(c), s', EncoderEos);
    }
    if !s'.audioFinished {
      s' := GoOn(Steps(c), Init(c), s', AudioEnds);
    }
  }

  /** This can happen whatever the encoder puts out and however many buffers there are: the writer waits
      for a buffer whenever it has written a packet, and also after the last one.  Then the exit condition
      of its loop becomes true, and nothing but a wakeup without signal can happen any more. */
  lemma AsleepForGood(c: Config) returns (s: State)
    requires c.n > 0
    ensures Reachable(c, s) && Stopped(c, s) && s.writer == Asleep
    ensures s.eos && s.audioFinished && |s.produced| == |c.output|
  {
    s := AllGoesThrough(c, |c.output|);
    NoneFreeIff(c, s);
    s := SetFlags(c, s);
    StopsOnlyAtEnd(c, s);
  }

  // ---------------------------------------------------------------------------------------------
  // How long a run can be

  function WriterWork(pc: WriterPc): nat {
    match pc
    case HoldingBuffer(_) => 6
    case Dequeuing => 5
    case Top => 4
    case SawEos => 3
    case Taking => 2
    case Asleep => 1
    case Exited => 0
  }

  function Flag(b: bool): nat {
    if b then 1 else 0
  }

  /** An upper bound on the number of steps still to come. */
  function Work(c: Config, s: State): int {
    11 * (|c.output| - |s.produced|) + 8 * |s.callback| + 5 * |s.pool.free| + Flag(s.pool.notempty)
    + WriterWork(s.writer) + Flag(!s.eos) + Flag(!s.audioFinished)
  }

  lemma WriterWorks(c: Config, s: State)
    requires WriterStep(c, s).Some?
    ensures Work(c, WriterStep(c, s).value) < Work(c, s)
  {
  }

  lemma FillWorks(c: Config, s: State, b: nat)
    requires FillStep(c, s, b).Some?
    ensures Work(c, FillStep(c, s, b).value) < Work(c, s)
  {
    assert |s.callback + {b}| <= |s.callback| + 1;
  }

  lemma ReturnWorks(c: Config, s: State, b: nat)
    requires ReturnStep(s, b).Some?
    ensures Work(c, ReturnStep(s, b).value) < Work(c, s)
  {
    assert |s.callback - {b}| == |s.callback| - 1;
  }

  /** A step that is not a wakeup without signal brings the end closer; such a wakeup makes at most one
      further step possible. */
  lemma StepWorks(c: Config, s: State, a: Action)
    requires Next(c, s, a).Some?
    ensures Work(c, Next(c, s, a).value) + 1 <= Work(c, s) + if a.Spurious? then 2 else 0
  {
    match a
    case Writer => WriterWorks(c, s);
    case Fill(b) => FillWorks(c, s, b);
    case ReturnBuffer(b) => ReturnWorks(c, s, b);
    case _ =>
  }

  function CountSpurious(run: seq<Action>): nat {
    if run == [] then 0 else CountSpurious(run[..|run| - 1]) + Flag(run[|run| - 1].Spurious?)
  }

  lemma {:induction false} RunWorks(c: Config, run: seq<Action>)
    requires Exec(Steps(c), Init(c), run).Some?
    ensures |run| + Work(c, Exec(Steps(c), Init(c), run).value) <= Work(c, Init(c)) + 2 * CountSpurious(run)
  {
    if run != [] {
      var before := run[..|run| - 1];
      RunWorks(c, before);
      StepWorks(c, Exec(Steps(c), Init(c), before).value, run[|run| - 1]);
    }
  }

  /** No run is longer than a bound given by the encoder's output and the number of buffers, plus two steps
      for each wakeup without a signal. */
  lemma RunsAreBounded(c: Config, run: seq<Action>)
    requires Exec(Steps(c), Init(c), run).Some?
    ensures |run| <= 11 * |c.output| + 5 * c.n + 7 + 2 * CountSpurious(run)
  {
    var s := Exec(Steps(c), Init(c), run).value;
    assert Reachable(c, s);
    ReachableInv(c, s);
    RunWorks(c, run);
  }
}

/** How runs of the whole transcoder end: it finishes, or one of its threads sleeps for good, or the
demultiplexer, the decode thread and the writer wait for each other. */
module TranscoderProgress {
  import opened Runs
  import opened Transcoder
  import PipelineProgress
  import EncoderTheorems
  import EncoderProgress

  // ---------------------------------------------------------------------------------------------
  // Where a run can stop

  predicate IsSpurious(a: Action) {
    (a.Front? && a.front.Spurious?) || (a.Back? && a.back.Spurious?)
  }

  /** Nothing can happen any more, except that a sleeper wakes up without a signal. */
  ghost predicate Stopped(c: Config, input: seq<Pipeline.AvPacket>, s: State) {
    forall a: Action :: !IsSpurious(a) ==> Next(c, input, s, a).None?
  }

  /** Both parts have come to rest, the second perhaps because it was never started, and the end of the stream
      has gone through if it was announced. */
  ghost predicate IsEnd(c: Config, s: State) {
    && PipelineProgress.IsEnd(s.front) && (s.started ==> EncoderProgress.IsEnd(c.back, s.back))
    && (s.front.decode.Done? ==> s.back.eos)
  }

  lemma StoppedFront(c: Config, input: seq<Pipeline.AvPacket>, s: State)
    requires forall a: Pipeline.Action :: !a.Spurious? ==> Next(c, input, s, Front(a)).None?
    ensures PipelineProgress.Stopped(c.front, input, s.front)
  {
    forall a: Pipeline.Action | !a.Spurious? && !a.TakeAudio? ensures Pipeline.Next(c.front, input, s.front, a).None? {
      assert Next(c, input, s, Front(a)).None?;
    }
  }

  lemma StoppedEos(c: Config, input: seq<Pipeline.AvPacket>, s: State)
    requires Next(c, input, s, Back(EncoderOutput.EncoderEos)).None?
    ensures s.front.decode.Done? ==> s.back.eos
  {
  }

  lemma StoppedBack(c: Config, input: seq<Pipeline.AvPacket>, s: State)
    requires s.started && s.front.submitted != []
    requires Next(c, input, s, WriteAudio).None?
    requires forall a: EncoderOutput.Action :: !a.Spurious? ==> Next(c, input, s, Back(a)).None?
    ensures EncoderProgress.Stopped(c.back, s.back)
  {
    forall a: EncoderOutput.Action | !a.Spurious? && !a.EncoderEos? && !a.AudioEnds?
      ensures EncoderOutput.Next(c.back, s.back, a).None?
    {
      assert Next(c, input, s, Back(a)).None?;
    }
  }

  lemma FrontIsOver(c: Config, input: seq<Pipeline.AvPacket>, s: State, a: Pipeline.Action)
    requires PipelineProgress.Stopped(c.front, input, s.front) && !a.Spurious?
    ensures FrontStep(c, input, s, a).None?
  {
    assert !a.TakeAudio? ==> Pipeline.Next(c.front, input, s.front, a).None?;
  }

  lemma BackIsOver(c: Config, s: State, a: EncoderOutput.Action)
    requires !a.Spurious? && if s.started then EncoderProgress.Stopped(c.back, s.back) else AtStart(c, s)
    requires s.front.decode.Done? ==> s.back.eos
    ensures BackStep(c, s, a).None?
  {
    assert s.started && !a.EncoderEos? && !a.AudioEnds? ==> EncoderOutput.Next(c.back, s.back, a).None?;
  }

  lemma RestHoldsNothing(c: Config, input: seq<Pipeline.AvPacket>, s: State)
    requires ValidConfig(c) && Inv(c, input, s) && PipelineProgress.Stopped(c.front, input, s.front)
    ensures !HoldsPiece(s.front) && (s.started ==> s.front.submitted != [])
  {
    PipelineProgress.StopsOnlyAtEnd(c.front, input, s.front);
  }

  /** A run stops only at an end, and every end is one. */
  lemma StopsOnlyAtEnd(c: Config, input: seq<Pipeline.AvPacket>, s: State)
    requires ValidConfig(c) && Reachable(c, input, s)
    ensures Stopped(c, input, s) <==> IsEnd(c, s)
  {
    ReachableInv(c, input, s);
    PipelineProgress.StopsOnlyAtEnd(c.front, input, s.front);
    EncoderProgress.StopsOnlyAtEnd(c.back, s.back);
    if Stopped(c, input, s) {
      StoppedFront(c, input, s);
      RestHoldsNothing(c, input, s);
      StoppedEos(c, input, s);
      if s.started {
        StoppedBack(c, input, s);
      }
    } else if IsEnd(c, s) {
      RestHoldsNothing(c, input, s);
      forall a: Action | !IsSpurious(a) ensures Next(c, input, s, a).None? {
        match a
        case Front(f) => FrontIsOver(c, input, s, f);
        case Back(b) => BackIsOver(c, s, b);
        case WriteAudio =>
        case Start =>
      }
    }
  }

  // ---------------------------------------------------------------------------------------------
  // The deadlock

  /** The demultiplexer polls the audio queue, which only the writer makes shorter. */
  predicate DemuxWaits(s: State) {
    PipelineProgress.BlockedOnAudio(s.front)
  }

  /** The decode thread is inside the blocking get on an empty queue, which only the demultiplexer fills. */
  predicate DecodeWaits(s: State) {
    s.front.videoQ == [] && (s.front.decode.Get? || s.front.decode.AsleepOnQueue?)
  }

  /** The writer has not been started, which only the decode thread does; or it is inside
      omx_get_next_output_buffer, and the encoder has all buffers and nothing to put into them. */
  predicate WriterWaits(c: Config, s: State) {
    !s.started || EncoderProgress.Doomed(c.back, s.back)
  }

  predicate Deadlocked(c: Config, s: State) {
    DemuxWaits(s) && DecodeWaits(s) && WriterWaits(c, s)
  }

  lemma DeadlockStays(c: Config, input: seq<Pipeline.AvPacket>, s: State, a: Action)
    requires Deadlocked(c, s) && Next(c, input, s, a).Some?
    ensures Deadlocked(c, Next(c, input, s, a).value)
    ensures Next(c, input, s, a).value.front.demux == s.front.demux
    ensures Next(c, input, s, a).value.started == s.started
  {
  }

  /** No run ever gets out of it. */
  lemma DeadlockedForever(c: Config, input: seq<Pipeline.AvPacket>, s: State, t: State)
    requires Deadlocked(c, s) && Reaches(Steps(c, input), s, t)
    ensures Deadlocked(c, t) && t.front.demux == s.front.demux && t.started == s.started
    ensures !t.front.decode.Done? && (t.started ==> t.back.writer != EncoderOutput.Exited)
  {
    var stays := (u: State) => Deadlocked(c, u) && u.front.demux == s.front.demux && u.started == s.started;
    forall u: State, a: Action | stays(u) && Steps(c, input)(u, a).Some? ensures stays(Steps(c, input)(u, a).value) {
      DeadlockStays(c, input, u, a);
    }
    HoldsWhereReached(Steps(c, input), s, stays, t);
  }

  lemma DemuxBegins(c: Pipeline.Config, input: seq<Pipeline.AvPacket>, s: Pipeline.State)
    requires Pipeline.DemuxStep(c, input, s).Some?
    ensures var t := Pipeline.DemuxStep(c, input, s).value;
            PipelineProgress.BlockedOnAudio(t) ==> s.demux.Reading? && t.videoQ == s.videoQ && t.decode == s.decode
  {
  }

  lemma LastInFront(c: Config, input: seq<Pipeline.AvPacket>, s: State, a: Pipeline.Action)
    requires FrontStep(c, input, s, a).Some?
    requires !Deadlocked(c, s) && Deadlocked(c, FrontStep(c, input, s, a).value)
    ensures (a.Demux? && s.front.demux.Reading? && DecodeWaits(s)) ||
            (a.Decode? && (s.front.decode.Guard? || s.front.decode.SawEmpty?) && DemuxWaits(s))
    ensures WriterWaits(c, s)
  {
    match a
    case Demux => DemuxBegins(c.front, input, s.front);
    case Decode => PipelineProgress.GetComesFrom(c.front, s.front);
    case _ =>
  }

  lemma LastInBack(c: Config, input: seq<Pipeline.AvPacket>, s: State, a: EncoderOutput.Action)
    requires Reachable(c, input, s) && BackStep(c, s, a).Some?
    requires !Deadlocked(c, s) && Deadlocked(c, BackStep(c, s, a).value)
    ensures a.Writer? && s.started && DemuxWaits(s) && DecodeWaits(s)
    ensures (s.back.writer.Top? && !s.back.eos) || (s.back.writer.SawEos? && !s.back.audioFinished)
  {
    ReachableInv(c, input, s);
    EncoderProgress.DoomedAtLoopTest(c.back, s.back, a);
  }

  /** Whoever begins to wait while the other two wait closes the circle: the demultiplexer reads an audio
      packet, the guard of the decode thread finds the queue unfinished, or the loop test of the writer one
      of its flags not set.  There is no other way in. */
  lemma LastToWait(c: Config, input: seq<Pipeline.AvPacket>, s: State, a: Action)
    requires ValidConfig(c) && Reachable(c, input, s) && Next(c, input, s, a).Some?
    requires !Deadlocked(c, s) && Deadlocked(c, Next(c, input, s, a).value)
    ensures !s.front.videoFinished
    ensures if a == Front(Pipeline.Demux) then
              s.front.demux.Reading? && DecodeWaits(s) && WriterWaits(c, s)
            else if a == Front(Pipeline.Decode) then
              (s.front.decode.Guard? || s.front.decode.SawEmpty?) && DemuxWaits(s) && WriterWaits(c, s)
            else
              && a == Back(EncoderOutput.Writer) && s.started && DemuxWaits(s) && DecodeWaits(s)
              && ((s.back.writer.Top? && !s.back.eos) || (s.back.writer.SawEos? && !s.back.audioFinished))
  {
    ReachableInv(c, input, s);
    PipelineProgress.DoneAfterDemux(c.front, input, s.front);
    match a
    case Front(f) => LastInFront(c, input, s, f);
    case Back(b) => LastInBack(c, input, s, b);
    case WriteAudio =>
    case Start =>
  }

  /** A run has stopped in the deadlock exactly if the demultiplexer is not finished, and exactly if the
      writer has taken so few audio packets that the rest does not fit into the queue. */
  lemma EndsInDeadlockIff(c: Config, input: seq<Pipeline.AvPacket>, s: State)
    requires ValidConfig(c) && Reachable(c, input, s) && Stopped(c, input, s)
    ensures Deadlocked(c, s) <==> !s.front.demux.Finished?
    ensures Deadlocked(c, s) <==> |s.front.audioTaken| + 101 < |AllAudio(c, input)|
  {
    ReachableInv(c, input, s);
    StopsOnlyAtEnd(c, input, s);
    PipelineProgress.DoneAfterDemux(c.front, input, s.front);
    EncoderTheorems.ExitNeedsBothFlags(c.back, s.back);
    AudioLeft(c, input, s);
    if s.started {
      EncoderProgress.StopsOnlyAtEnd(c.back, s.back);
      EncoderProgress.EndsAsleepIff(c.back, s.back);
    }
  }

  /** The threads that have not ended where a run has stopped.  The decode thread has missed the end of the
      stream, or waits in the deadlock.  The writer was never started or its last loop test came too early,
      and one of these is so if the decode thread has not ended. */
  lemma WhoIsAsleep(c: Config, input: seq<Pipeline.AvPacket>, s: State)
    requires ValidConfig(c) && Reachable(c, input, s) && Stopped(c, input, s)
    ensures !s.front.decode.Done? <==> PipelineProgress.Doomed(c.front, input, s.front) || Deadlocked(c, s)
    ensures s.back.writer != EncoderOutput.Exited <==> WriterWaits(c, s)
    ensures !s.front.decode.Done? ==> WriterWaits(c, s)
  {
    ReachableInv(c, input, s);
    StopsOnlyAtEnd(c, input, s);
    PipelineProgress.StopsOnlyAtEnd(c.front, input, s.front);
    EncoderProgress.StopsOnlyAtEnd(c.back, s.back);
    PipelineProgress.EndsAsleepIff(c.front, input, s.front);
    if s.started {
      EncoderProgress.EndsAsleepIff(c.back, s.back);
    }
    EncoderTheorems.ExitNeedsBothFlags(c.back, s.back);
    EndsInDeadlockIff(c, input, s);
  }

  // ---------------------------------------------------------------------------------------------
  // How long a run can be

  /** An upper bound on the number of steps still to come. */
  function Work(c: Config, input: seq<Pipeline.AvPacket>, s: State): int {
    PipelineProgress.Work(input, s.front) + 2 * EncoderProgress.Work(c.back, s.back) + One(AudioDue(s))
    + One(!s.started)
  }

  lemma WorkIsLeft(c: Config, input: seq<Pipeline.AvPacket>, s: State)
    requires Reachable(c, input, s)
    ensures Work(c, input, s) >= 0
  {
    ReachableInv(c, input, s);
    EncoderOutput.ReachableInv(c.back, s.back);
  }

  lemma FrontWorks(c: Config, input: seq<Pipeline.AvPacket>, s: State, a: Pipeline.Action)
    requires PipelineProgress.CanProgress(c.front, s.front) && s.back.audioFinished == s.front.audioFinished
    requires FrontStep(c, input, s, a).Some?
    ensures Work(c, input, FrontStep(c, input, s, a).value) + 1 <= Work(c, input, s) + if a.Spurious? then 3 else 0
  {
    PipelineProgress.StepWorks(c.front, input, s.front, a);
    FrontChanges(c, input, s.front, a);
  }

  lemma BackWorks(c: Config, input: seq<Pipeline.AvPacket>, s: State, a: EncoderOutput.Action)
    requires BackStep(c, s, a).Some? && (s.audioDone ==> s.back.writer.Dequeuing?)
    ensures Work(c, input, BackStep(c, s, a).value) + 1 <= Work(c, input, s) + if a.Spurious? then 3 else 0
  {
    EncoderProgress.StepWorks(c.back, s.back, a);
  }

  lemma AudioWorks(c: Config, input: seq<Pipeline.AvPacket>, s: State)
    requires AudioStep(s).Some?
    ensures Work(c, input, AudioStep(s).value) < Work(c, input, s)
  {
    var s' := AudioStep(s).value;
    assert s'.back == s.back;
    assert PipelineProgress.Work(input, s'.front) <= PipelineProgress.Work(input, s.front);
  }

  lemma StepWorks(c: Config, input: seq<Pipeline.AvPacket>, s: State, a: Action)
    requires ValidConfig(c) && Reachable(c, input, s) && Next(c, input, s, a).Some?
    ensures Work(c, input, Next(c, input, s, a).value) + 1 <= Work(c, input, s) + if IsSpurious(a) then 3 else 0
  {
    ReachableInv(c, input, s);
    match a
    case Front(f) =>
      PipelineSafety.ReachableInv(c.front, input, s.front);
      PipelineProgress.ReachableCanProgress(c.front, input, s.front);
      FrontWorks(c, input, s, f);
    case Back(b) => BackWorks(c, input, s, b);
    case WriteAudio => AudioWorks(c, input, s);
    case Start =>
  }

  function CountSpurious(run: seq<Action>): nat {
    if run == [] then 0 else CountSpurious(run[..|run| - 1]) + One(IsSpurious(run[|run| - 1]))
  }

  lemma {:induction false} RunWorks(c: Config, input: seq<Pipeline.AvPacket>, run: seq<Action>)
    requires ValidConfig(c) && Exec(Steps(c, input), Init(c), run).Some?
    ensures |run| + Work(c, input, Exec(Steps(c, input), Init(c), run).value)
            <= Work(c, input, Init(c)) + 3 * CountSpurious(run)
  {
    if run != [] {
      var before := run[..|run| - 1];
      RunWorks(c, input, before);
      var s := Exec(Steps(c, input), Init(c), before).value;
      assert Reachable(c, input, s);
      StepWorks(c, input, s, run[|run| - 1]);
    }
  }

  /** Every run of the whole comes to an end. */
  lemma RunsAreBounded(c: Config, input: seq<Pipeline.AvPacket>, run: seq<Action>)
    requires ValidConfig(c) && Exec(Steps(c, input), Init(c), run).Some?
    ensures |run| <= PipelineProgress.FramesWork(input, 0) + 22 * |c.back.output| + 10 * c.back.n + 41
                     + 3 * CountSpurious(run)
  {
    RunWorks(c, input, run);
    assert Reachable(c, input, Exec(Steps(c, input), Init(c), run).value);
    WorkIsLeft(c, input, Exec(Steps(c, input), Init(c), run).value);
  }
}

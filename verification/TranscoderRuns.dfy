/** When the deadlock can happen, when it cannot be avoided, and how little of the audio is written: runs of
the whole transcoder that show it, and why there are no others.

Two things that the components decide are left open here, and the runs make use of that: at which piece of
a video packet the event comes that makes the decode thread start the writer, if it comes at all; and how
early the encoder puts out its packets, once the decoder has been given something. */
module TranscoderRuns {
  import opened Media
  import opened Runs
  import opened Transcoder
  import opened TranscoderStart
  import opened TranscoderProgress

  /** One action of the run, with what it means for the work to be done. */
  lemma Go(c: Config, input: seq<Pipeline.AvPacket>, s: State, a: Action) returns (s': State)
    requires ValidConfig(c) && Reachable(c, input, s) && !IsSpurious(a) && Next(c, input, s, a).Some?
    ensures Next(c, input, s, a) == Some(s') && Reachable(c, input, s')
    ensures 0 <= Work(c, input, s') < Work(c, input, s)
    ensures Misses(s') == Misses(s) + One(a.WriteAudio? && s.front.audioQ == [])
  {
    s' := GoOn(Steps(c, input), Init(c), s, a);
    StepWorks(c, input, s, a);
    WorkIsLeft(c, input, s');
    ReachableInv(c, input, s);
    StepKeepsInv(c, input, s, a);
  }

  // ---------------------------------------------------------------------------------------------
  // The front comes to rest

  /** The demultiplexer, the decode thread and the decoder go on until they can do no more, while the
      writer and the encoder do nothing. */
  lemma FrontRests(c: Config, input: seq<Pipeline.AvPacket>, s: State) returns (s': State)
    requires ValidConfig(c) && Reachable(c, input, s)
    ensures Reachable(c, input, s') && PipelineProgress.Stopped(c.front, input, s'.front)
    ensures s'.back == s.back.(audioFinished := s'.back.audioFinished) && s'.started == s.started
    ensures s'.front.audioTaken == s.front.audioTaken
    decreases Work(c, input, s)
  {
    if a: Pipeline.Action :| !a.Spurious? && FrontStep(c, input, s, a).Some? {
      FrontChanges(c, input, s.front, a);
      WorkIsLeft(c, input, s);
      s' := Go(c, input, s, Front(a));
      s' := FrontRests(c, input, s');
    } else {
      s' := s;
      StoppedFront(c, input, s);
    }
  }

  /** A demultiplexer that has more audio packets to read than fit into the queue comes to rest in the poll,
      and the decode thread in its wait. */
  lemma RestingDemuxWaits(c: Config, input: seq<Pipeline.AvPacket>, s: State)
    requires ValidConfig(c) && Reachable(c, input, s) && PipelineProgress.Stopped(c.front, input, s.front)
    requires |s.front.audioTaken| + 101 < |AllAudio(c, input)|
    ensures DemuxWaits(s) && DecodeWaits(s)
  {
    ReachableInv(c, input, s);
    PipelineProgress.StopsOnlyAtEnd(c.front, input, s.front);
    PipelineProgress.DoneAfterDemux(c.front, input, s.front);
    AudioLeft(c, input, s);
  }

  /** A deadlock can happen, if only because the writer is never started, exactly if the input has more
      timestamped audio packets than the audio queue takes. */
  lemma CanDeadlockIff(c: Config, input: seq<Pipeline.AvPacket>)
    requires ValidConfig(c)
    ensures (exists s :: Reachable(c, input, s) && Deadlocked(c, s)) <==> |AllAudio(c, input)| > 101
  {
    if |AllAudio(c, input)| > 101 {
      var s := Init(c);
      ReachesStart(Steps(c, input), s);
      s := FrontRests(c, input, s);
      RestingDemuxWaits(c, input, s);
    } else if s :| Reachable(c, input, s) && Deadlocked(c, s) {
      AudioLeft(c, input, s);
      assert false;
    }
  }

  // ---------------------------------------------------------------------------------------------
  // The decode thread gets the first video packet with data before anything behind it is read

  lemma SubmitsBefore(c: Pipeline.Config, input: seq<Pipeline.AvPacket>, s: Pipeline.State, a: Pipeline.Action)
    requires Pipeline.Next(c, input, s, a).Some? && (s.submitted == [] ==> s.inFlight == map[])
    ensures var t := Pipeline.Next(c, input, s, a).value;
            t.submitted == [] ==> t.inFlight == map[]
  {
    match a
    case Decode =>
      match s.decode {
        case Holding(Piece(p, off), b) => assert Pipeline.Submit(c, s, p, off, b).submitted != [];
        case Holding(StreamEnd, b) => assert Pipeline.SubmitEnd(s, b).submitted != [];
        case _ =>
      }
    case _ =>
  }

  lemma NothingSubmitted(c: Pipeline.Config, input: seq<Pipeline.AvPacket>, s: Pipeline.State)
    requires Pipeline.Reachable(c, input, s) && s.submitted == []
    ensures s.inFlight == map[]
  {
    var inv := (t: Pipeline.State) => t.submitted == [] ==> t.inFlight == map[];
    forall t: Pipeline.State, a: Pipeline.Action | inv(t) && Pipeline.Steps(c, input)(t, a).Some?
      ensures inv(Pipeline.Steps(c, input)(t, a).value)
    {
      SubmitsBefore(c, input, t, a);
    }
    HoldsWhereReached(Pipeline.Steps(c, input), Pipeline.Init(c), inv, s);
  }

  /** On the way there: nothing is submitted, and nothing behind that packet is read. */
  predicate OnTheWay(c: Config, input: seq<Pipeline.AvPacket>, s: State) {
    && !s.started && s.front.submitted == [] && !s.front.videoFinished
    && s.front.pos <= FirstData(c.front, input) + 1
  }

  /** Without anything at the decoder, a decode thread that cannot go on sleeps on the empty queue. */
  lemma OnlyAsleep(c: Config, input: seq<Pipeline.AvPacket>, s: State)
    requires ValidConfig(c) && Reachable(c, input, s) && OnTheWay(c, input, s)
    requires Pipeline.DecodeStep(c.front, s.front).None?
    ensures s.front.decode.AsleepOnQueue? && s.front.videoQ == []
  {
    ReachableInv(c, input, s);
    NothingSubmitted(c.front, input, s.front);
    PipelineSafety.ReachableInv(c.front, input, s.front);
    PipelineProgress.StoppedDecode(c.front, input, s.front);
  }

  /** If it does and the demultiplexer holds no video packet, no packet with data has been read. */
  lemma NoDataRead(c: Config, input: seq<Pipeline.AvPacket>, s: State)
    requires ValidConfig(c) && Reachable(c, input, s) && s.front.submitted == []
    requires s.front.decode.AsleepOnQueue? && s.front.videoQ == [] && PipelineSafety.InHand(s.front.demux) == []
    ensures s.front.pos <= |input| && s.front.pos <= FirstData(c.front, input)
  {
    ReachableInv(c, input, s);
    PipelineProgress.ReadIsAccounted(c.front, input, s.front);
    PipelineSafety.ReachableInv(c.front, input, s.front);
    PipelineProgress.IdleHasSent(c.front, s.front);
    assert Chunking.NonEmpty(s.front.got) == [];
    assert s.front.got == Pipeline.VideoPackets(c.front, input[..s.front.pos]);
    NoDataIff(c.front, input, s.front.pos);
  }

  /** Up to there, no more audio packets are read than are in front. */
  lemma LittleAudioRead(c: Config, input: seq<Pipeline.AvPacket>, s: State)
    requires ValidConfig(c) && Reachable(c, input, s) && s.front.pos <= FirstData(c.front, input) + 1
    ensures |s.front.audioTaken| + |s.front.audioQ| + |PipelineSafety.AudioInHand(s.front.demux)|
            <= AudioAhead(c, input)
  {
    ReachableInv(c, input, s);
    AudioCount(c.front, input, s.front);
    var v := FirstData(c.front, input);
    if s.front.pos == v + 1 {
      OneFrameHasData(c.front, input[v]);
      Demux.OneMoreFrame(c.front, input, v);
    } else {
      AudioOfPart(c.front, input, s.front.pos, v);
    }
  }

  lemma DemuxReadsOne(c: Pipeline.Config, input: seq<Pipeline.AvPacket>, s: Pipeline.State)
    requires Pipeline.DemuxStep(c, input, s).Some? && (s.demux.Reading? ==> s.pos < |input|)
    ensures var t := Pipeline.DemuxStep(c, input, s).value;
            && t.submitted == s.submitted && t.videoFinished == s.videoFinished
            && t.pos == if s.demux.Reading? then s.pos + 1 else s.pos
  {
  }

  lemma DemuxGoesOn(c: Config, input: seq<Pipeline.AvPacket>, s: State)
    requires ValidConfig(c) && Reachable(c, input, s) && OnTheWay(c, input, s)
    requires FirstData(c.front, input) < |input| && AudioAhead(c, input) <= 101
    requires Pipeline.DecodeStep(c.front, s.front).None?
    ensures FrontStep(c, input, s, Pipeline.Demux).Some?
    ensures OnTheWay(c, input, FrontStep(c, input, s, Pipeline.Demux).value)
  {
    OnlyAsleep(c, input, s);
    LittleAudioRead(c, input, s);
    ReachableInv(c, input, s);
    PipelineProgress.DoneAfterDemux(c.front, input, s.front);
    PipelineTheorems.DemuxCanStep(c.front, input, s.front);
    if s.front.demux.Reading? {
      NoDataRead(c, input, s);
    }
    DemuxReadsOne(c.front, input, s.front);
  }

  lemma DecodeGoesOn(c: Config, input: seq<Pipeline.AvPacket>, s: State)
    requires ValidConfig(c) && Reachable(c, input, s) && OnTheWay(c, input, s)
    requires !HoldsPiece(s.front) && Pipeline.DecodeStep(c.front, s.front).Some?
    ensures OnTheWay(c, input, FrontStep(c, input, s, Pipeline.Decode).value)
  {
    ReachableInv(c, input, s);
    PipelineSafety.ReachableInv(c.front, input, s.front);
  }

  /** The decode thread goes first, and the demultiplexer only where it has to. */
  lemma UntilPiece(c: Config, input: seq<Pipeline.AvPacket>, s: State) returns (s': State)
    requires ValidConfig(c) && Reachable(c, input, s) && OnTheWay(c, input, s)
    requires FirstData(c.front, input) < |input| && AudioAhead(c, input) <= 101
    ensures Reachable(c, input, s') && OnTheWay(c, input, s') && HoldsPiece(s'.front)
    decreases Work(c, input, s)
  {
    WorkIsLeft(c, input, s);
    if HoldsPiece(s.front) {
      s' := s;
    } else if Pipeline.DecodeStep(c.front, s.front).Some? {
      DecodeGoesOn(c, input, s);
      s' := Go(c, input, s, Front(Pipeline.Decode));
      s' := UntilPiece(c, input, s');
    } else {
      DemuxGoesOn(c, input, s);
      s' := Go(c, input, s, Front(Pipeline.Demux));
      s' := UntilPiece(c, input, s');
    }
  }

  lemma HeldIsSubmitted(c: Config, input: seq<Pipeline.AvPacket>, s: State)
    requires ValidConfig(c) && Reachable(c, input, s) && HoldsPiece(s.front)
    ensures FrontStep(c, input, s, Pipeline.Decode).Some?
    ensures var s' := FrontStep(c, input, s, Pipeline.Decode).value;
            && s'.front.submitted != [] && s'.front.decode.Need? && s'.started == s.started
            && s'.front.audioQ == s.front.audioQ && s'.front.audioTaken == s.front.audioTaken
  {
    ReachableInv(c, input, s);
    PipelineSafety.ReachableInv(c.front, input, s.front);
  }

  // ---------------------------------------------------------------------------------------------
  // The writer comes to rest

  lemma BackLeavesFront(c: Config, s: State, a: EncoderOutput.Action)
    requires BackStep(c, s, a).Some?
    ensures BackStep(c, s, a).value.front == s.front && BackStep(c, s, a).value.started == s.started
  {
  }

  lemma AudioLeavesFront(s: State)
    requires AudioStep(s).Some?
    ensures var s' := AudioStep(s).value;
            && s'.front == s.front.(audioQ := s'.front.audioQ, audioTaken := s'.front.audioTaken)
            && |s'.front.audioTaken| + |s'.front.audioQ| == |s.front.audioTaken| + |s.front.audioQ|
            && s'.started == s.started
  {
  }

  /** The writer and the encoder go on until they can do no more, while the others do nothing. */
  lemma BackRests(c: Config, input: seq<Pipeline.AvPacket>, s: State) returns (s': State)
    requires ValidConfig(c) && Reachable(c, input, s) && s.started && s.front.submitted != []
    requires !s.front.decode.Done?
    ensures Reachable(c, input, s') && EncoderProgress.Stopped(c.back, s'.back) && s'.started
    ensures s'.front == s.front.(audioQ := s'.front.audioQ, audioTaken := s'.front.audioTaken)
    ensures |s'.front.audioTaken| + |s'.front.audioQ| == |s.front.audioTaken| + |s.front.audioQ|
    decreases Work(c, input, s)
  {
    WorkIsLeft(c, input, s);
    if a: EncoderOutput.Action :| !a.Spurious? && BackStep(c, s, a).Some? {
      BackLeavesFront(c, s, a);
      s' := Go(c, input, s, Back(a));
      s' := BackRests(c, input, s');
    } else if AudioStep(s).Some? {
      AudioLeavesFront(s);
      s' := Go(c, input, s, WriteAudio);
      s' := BackRests(c, input, s');
    } else {
      s' := s;
      StoppedBack(c, input, s);
    }
  }

  /** A writer that has come to rest before the end of the stream waits for the encoder. */
  lemma RestingWriterWaits(c: Config, input: seq<Pipeline.AvPacket>, s: State)
    requires ValidConfig(c) && Reachable(c, input, s) && EncoderProgress.Stopped(c.back, s.back)
    requires !s.front.decode.Done?
    ensures EncoderProgress.Doomed(c.back, s.back) && !AudioDue(s)
    ensures Submissions(s) == c.back.n + |c.back.output|
  {
    ReachableInv(c, input, s);
    EncoderProgress.StopsOnlyAtEnd(c.back, s.back);
    EncoderTheorems.ExitNeedsBothFlags(c.back, s.back);
    EncoderProgress.NoneFreeIff(c.back, s.back);
    assert 0 in s.back.encoder;
    assert s.back.encoder == Below(c.back.n);
    EncoderOutput.ReachableInv(c.back, s.back);
  }

  /** The writer's rounds, one for each output buffer and each packet of the encoder. */
  function Rounds(c: Config): nat {
    c.back.n + |c.back.output|
  }

  /** A writer that waits for a buffer that will not come has taken as many audio packets as it has made
      rounds, or at least all those in front of the first video packet with data. */
  lemma LeastAudioTaken(c: Config, input: seq<Pipeline.AvPacket>, s: State)
    requires ValidConfig(c) && Reachable(c, input, s) && s.started && WriterWaits(c, s)
    ensures |s.front.audioTaken| >= Min(AudioAhead(c, input), Rounds(c))
  {
    LeastTaken(c, input, s);
    ReachableInv(c, input, s);
    EncoderProgress.NoneFreeIff(c.back, s.back);
    assert s.back.encoder == Below(c.back.n);
    EncoderOutput.ReachableInv(c.back, s.back);
  }

  /** And it can be that few: the writer is started as early as possible, makes all its rounds at once, and the
      demultiplexer goes on only then. */
  lemma LeastAudioRun(c: Config, input: seq<Pipeline.AvPacket>) returns (s: State)
    requires ValidConfig(c) && FirstData(c.front, input) < |input| && AudioAhead(c, input) <= 101
    ensures Reachable(c, input, s) && s.started && WriterWaits(c, s)
    ensures PipelineProgress.Stopped(c.front, input, s.front)
    ensures |s.front.audioTaken| == Min(AudioAhead(c, input), Rounds(c))
  {
    s := Init(c);
    ReachesStart(Steps(c, input), s);
    s := UntilPiece(c, input, s);
    LittleAudioRead(c, input, s);
    s := Go(c, input, s, Start);
    HeldIsSubmitted(c, input, s);
    s := Go(c, input, s, Front(Pipeline.Decode));
    s := BackRests(c, input, s);
    RestingWriterWaits(c, input, s);
    LeastAudioTaken(c, input, s);
    AudioIsBounded(c, input, s);
    s := FrontRests(c, input, s);
  }

  /** With a started writer, the deadlock can happen exactly if the audio packets in front of the first video
      packet with data fit into the audio queue, and those that are left, once the writer has taken as few as
      it can, do not. */
  lemma StartedCanDeadlockIff(c: Config, input: seq<Pipeline.AvPacket>)
    requires ValidConfig(c)
    ensures (exists s :: Reachable(c, input, s) && Deadlocked(c, s) && s.started) <==>
              && AudioAhead(c, input) <= 101
              && |AllAudio(c, input)| > Min(AudioAhead(c, input), Rounds(c)) + 101
  {
    if s :| Reachable(c, input, s) && Deadlocked(c, s) && s.started {
      StartedMeansAudio(c, input, s);
      LeastAudioTaken(c, input, s);
      AudioLeft(c, input, s);
    } else if AudioAhead(c, input) <= 101 && |AllAudio(c, input)| > Min(AudioAhead(c, input), Rounds(c)) + 101 {
      AllAhead(c, input);
      var s := LeastAudioRun(c, input);
      RestingDemuxWaits(c, input, s);
    }
  }

  // ---------------------------------------------------------------------------------------------
  // When the demultiplexer can finish

  /** If there are too many audio packets in front of the first video packet with data, or too many for the
      writer's rounds, the demultiplexer never gets to its end, and so neither do the decode thread and the
      writer. */
  lemma TooMuchAudio(c: Config, input: seq<Pipeline.AvPacket>, s: State)
    requires ValidConfig(c) && Reachable(c, input, s)
    requires AudioAhead(c, input) > 101 || |AllAudio(c, input)| > Rounds(c) + 101
    ensures !s.front.videoFinished && !s.front.audioFinished && !s.front.demux.Finished?
    ensures !s.front.decode.Done? && s.back.writer != EncoderOutput.Exited
  {
    ReachableInv(c, input, s);
    ReachableStart(c, input, s);
    AllAhead(c, input);
    AudioLeft(c, input, s);
    AudioIsBounded(c, input, s);
    PipelineProgress.DoneAfterDemux(c.front, input, s.front);
    PipelineSafety.ReachableInv(c.front, input, s.front);
    EncoderTheorems.ExitNeedsBothFlags(c.back, s.back);
  }

  /** The writer is started before anything is submitted, unless the end has been announced, and has found an
      audio packet in each round. */
  predicate InTime(s: State) {
    Misses(s) == 0 && (s.started || s.front.submitted == [] || s.front.videoFinished)
  }

  lemma FrontInTime(c: Config, input: seq<Pipeline.AvPacket>, s: State, a: Pipeline.Action)
    requires ValidConfig(c) && Reachable(c, input, s) && InTime(s) && StartStep(s).None?
    requires FrontStep(c, input, s, a).Some?
    ensures InTime(FrontStep(c, input, s, a).value)
  {
    ReachableInv(c, input, s);
    FrontKeepsInv(c, input, s, a);
    PipelineSafety.ReachableInv(c.front, input, s.front);
    SubmitsOnlyHolding(c.front, input, s.front, a);
  }

  lemma SubmitsOnlyHolding(c: Pipeline.Config, input: seq<Pipeline.AvPacket>, s: Pipeline.State, a: Pipeline.Action)
    requires Pipeline.Next(c, input, s, a).Some?
    ensures var t := Pipeline.Next(c, input, s, a).value;
            && (s.videoFinished ==> t.videoFinished)
            && (t.submitted == s.submitted || s.decode.Holding?)
  {
  }

  /** Where the front cannot go on and has not finished, the writer has been started. */
  lemma RestMeansStarted(c: Config, input: seq<Pipeline.AvPacket>, s: State)
    requires ValidConfig(c) && Reachable(c, input, s) && InTime(s) && !s.front.demux.Finished?
    requires AudioAhead(c, input) <= 101 && PipelineProgress.Stopped(c.front, input, s.front)
    ensures DemuxWaits(s) && DecodeWaits(s) && s.started && s.front.submitted != []
  {
    ReachableInv(c, input, s);
    RestHoldsNothing(c, input, s);
    PipelineProgress.StopsOnlyAtEnd(c.front, input, s.front);
    PipelineProgress.DoneAfterDemux(c.front, input, s.front);
    if !s.started {
      NoDataRead(c, input, s);
      LittleAudioRead(c, input, s);
      assert false;
    }
  }

  /** As long as the writer has had a packet in each round, it can go on where the demultiplexer cannot. */
  lemma NextForWriter(c: Config, input: seq<Pipeline.AvPacket>, s: State)
    requires ValidConfig(c) && Reachable(c, input, s) && InTime(s) && !s.front.demux.Finished?
    requires AudioAhead(c, input) <= 101 && |AllAudio(c, input)| <= Rounds(c) + 101
    requires forall a: Pipeline.Action :: !a.Spurious? ==> FrontStep(c, input, s, a).None?
    ensures s.started && s.front.audioQ != []
    ensures exists a: Action :: (a.Back? || a.WriteAudio?) && !IsSpurious(a) && Next(c, input, s, a).Some?
  {
    StoppedFront(c, input, s);
    RestMeansStarted(c, input, s);
    AudioLeft(c, input, s);
    if forall a: Action :: (a.Back? || a.WriteAudio?) && !IsSpurious(a) ==> Next(c, input, s, a).None? {
      forall a: EncoderOutput.Action | !a.Spurious? ensures Next(c, input, s, Back(a)).None? {
      }
      StoppedBack(c, input, s);
      RestingWriterWaits(c, input, s);
      assert false;
    }
  }

  /** The next action of a run that finishes: the writer is started at the first opportunity, and makes a
      round only where the demultiplexer needs it. */
  lemma NextToFinish(c: Config, input: seq<Pipeline.AvPacket>, s: State) returns (a: Action)
    requires ValidConfig(c) && Reachable(c, input, s) && InTime(s) && !s.front.demux.Finished?
    requires AudioAhead(c, input) <= 101 && |AllAudio(c, input)| <= Rounds(c) + 101
    ensures !IsSpurious(a) && Next(c, input, s, a).Some? && InTime(Next(c, input, s, a).value)
  {
    ReachableInv(c, input, s);
    if StartStep(s).Some? {
      a := Start;
    } else if f: Pipeline.Action :| !f.Spurious? && FrontStep(c, input, s, f).Some? {
      FrontInTime(c, input, s, f);
      a := Front(f);
    } else {
      NextForWriter(c, input, s);
      a :| (a.Back? || a.WriteAudio?) && !IsSpurious(a) && Next(c, input, s, a).Some?;
      StepKeepsInv(c, input, s, a);
      if a.Back? {
        BackLeavesFront(c, s, a.back);
      } else {
        AudioLeavesFront(s);
      }
    }
  }

  /** Otherwise it can, with a writer that finds an audio packet in each round. */
  lemma FinishWithoutMiss(c: Config, input: seq<Pipeline.AvPacket>, s: State) returns (s': State)
    requires ValidConfig(c) && Reachable(c, input, s) && InTime(s)
    requires AudioAhead(c, input) <= 101 && |AllAudio(c, input)| <= Rounds(c) + 101
    ensures Reachable(c, input, s') && s'.front.demux.Finished?
    decreases Work(c, input, s)
  {
    WorkIsLeft(c, input, s);
    if s.front.demux.Finished? {
      s' := s;
    } else {
      var a := NextToFinish(c, input, s);
      s' := Go(c, input, s, a);
      s' := FinishWithoutMiss(c, input, s');
    }
  }

  /** The demultiplexer cannot finish in any interleaving exactly if the audio packets in front of the first
      video packet with data do not fit into the audio queue, or all of them are more than the output buffers,
      the encoder's output and the audio queue can account for. */
  lemma NeverFinishesIff(c: Config, input: seq<Pipeline.AvPacket>)
    requires ValidConfig(c)
    ensures (forall s :: Reachable(c, input, s) ==> !s.front.demux.Finished?) <==>
              AudioAhead(c, input) > 101 || |AllAudio(c, input)| > Rounds(c) + 101
  {
    if AudioAhead(c, input) > 101 || |AllAudio(c, input)| > Rounds(c) + 101 {
      forall s | Reachable(c, input, s) ensures !s.front.demux.Finished? {
        TooMuchAudio(c, input, s);
      }
    } else {
      var s := Init(c);
      ReachesStart(Steps(c, input), s);
      s := FinishWithoutMiss(c, input, s);
    }
  }
}

/** The demultiplexer, the decode thread and the decoder always get to an end, and what they have
achieved there. */
module PipelineProgress {
  import opened Media
  import opened Chunking
  import opened Demux
  import opened Pipeline
  import opened PipelineSafety
  import opened PipelineTheorems
  import opened Runs

  // ---------------------------------------------------------------------------------------------
  // Where a run can stop

  /** Neither of the two threads nor the decoder can do anything any more, except wake up without a
      signal.  What the writer may still do with the audio queue is left open. */
  ghost predicate Stopped(c: Config, input: seq<AvPacket>, s: State) {
    forall a: Action :: !a.Spurious? && !a.TakeAudio? ==> Next(c, input, s, a).None?
  }

  /** The demultiplexer polls an audio queue that is too long. */
  predicate BlockedOnAudio(s: State) {
    s.demux.HasAudio? && |s.audioQ| > QUEUE_LIMIT
  }

  /** Everything is returned, the demultiplexer is done or polls the audio queue, and the decode thread is
      done or asleep on an empty queue. */
  predicate IsEnd(s: State) {
    && s.inFlight == map[]
    && (s.demux.Finished? || BlockedOnAudio(s))
    && (s.decode.Done? || (s.decode.AsleepOnQueue? && s.videoQ == []))
  }

  lemma EveryBufferIsOut(c: Config, s: State)
    requires ValidConfig(c) && PoolInv(c, s) && s.decode.AsleepOnPool?
    ensures 0 in s.inFlight
  {
    assert BufferInv(s.pool.filled, s.memory, s.inFlight, false, 0);
  }

  lemma StoppedDecode(c: Config, input: seq<AvPacket>, s: State)
    requires ValidConfig(c) && Inv(c, input, s) && DecodeStep(c, s).None? && s.inFlight == map[]
    ensures s.decode.Done? || (s.decode.AsleepOnQueue? && s.videoQ == [])
  {
    if s.decode.AsleepOnPool? {
      EveryBufferIsOut(c, s);
    }
  }

  /** They stop only at an end, and every end is one. */
  lemma StopsOnlyAtEnd(c: Config, input: seq<AvPacket>, s: State)
    requires ValidConfig(c) && Reachable(c, input, s)
    ensures Stopped(c, input, s) <==> IsEnd(s)
  {
    ReachableInv(c, input, s);
    if Stopped(c, input, s) {
      assert Next(c, input, s, Demux).None? && Next(c, input, s, Decode).None?;
      assert forall b :: b in s.inFlight ==> Next(c, input, s, Decoder(b)).Some?;
      assert s.inFlight == map[];
      StoppedDecode(c, input, s);
      assert s.decode.Done? ==> s.videoFinished;
    }
  }

  /** A buffer that announces the end of the stream has been submitted exactly if the thread is done. */
  lemma AnnouncedIff(c: Config, input: seq<AvPacket>, s: State)
    requires ValidConfig(c) && Reachable(c, input, s)
    ensures s.decode.Done? <==> exists i :: 0 <= i < |s.submitted| && EndOfStream in s.submitted[i].flags
  {
    forall i | 0 <= i < |s.submitted|
      ensures EndOfStream in s.submitted[i].flags <==> s.decode.Done? && i == |s.submitted| - 1
    {
      FlagsOverTheRun(c, input, s, i);
    }
    ReachableIsProper(c, input, s);
    assert s.decode.Done? ==> 0 <= |s.submitted| - 1 < |s.submitted|;
  }

  lemma IdleHasSent(c: Config, s: State)
    requires DecodeInv(c, s) && (s.decode.Done? || s.decode.AsleepOnQueue?)
    ensures Sent(s.got, DataPart(s))
  {
  }

  lemma DoneAfterDemux(c: Config, input: seq<AvPacket>, s: State)
    requires ValidConfig(c) && Reachable(c, input, s)
    ensures s.decode.Done? ==> s.videoFinished
    ensures s.videoFinished <==> s.demux.FinishingAudio? || s.demux.Finished?
  {
    ReachableInv(c, input, s);
  }

  lemma NothingToRead(c: Config, input: seq<AvPacket>, s: State)
    requires ValidConfig(c) && Reachable(c, input, s) && s.videoFinished
    ensures s.pos == |input| && ToCome(c, input, s) == s.videoQ
  {
    ReachableInv(c, input, s);
    assert input[s.pos..] == [];
    assert s.videoQ + ([] + []) == s.videoQ;
  }

  /** What is achieved where they stop.  Everything is delivered exactly if no packet with data is still to
      come; that is so if the demultiplexer has finished, unless the loop guard was read in two steps and
      the decode thread left a packet behind. */
  lemma AtTheEnd(c: Config, input: seq<AvPacket>, s: State)
    requires ValidConfig(c) && Reachable(c, input, s) && Stopped(c, input, s)
    ensures s.pos <= |input|
    ensures Sent(VideoPackets(c, input), DataPart(s)) <==> NonEmpty(ToCome(c, input, s)) == []
    ensures c.atomicGuard && s.demux.Finished? ==> Sent(VideoPackets(c, input), DataPart(s))
    ensures s.decode.Done? <==> exists i :: 0 <= i < |s.submitted| && EndOfStream in s.submitted[i].flags
    ensures s.decode.Done? ==> s.demux.Finished?
  {
    AnnouncedIff(c, input, s);
    StopsOnlyAtEnd(c, input, s);
    ToComeIsTheRest(c, input, s);
    ReachableInv(c, input, s);
    IdleHasSent(c, s);
    SentMoreIff(s.got, ToCome(c, input, s), DataPart(s));
    DoneAfterDemux(c, input, s);
    if s.demux.Finished? {
      NothingToRead(c, input, s);
      assert c.atomicGuard ==> s.videoQ == [];
    }
  }

  // ---------------------------------------------------------------------------------------------
  // When the decode thread ends up asleep

  /** The video packets that are still to be dequeued. */
  function ToCome(c: Config, input: seq<AvPacket>, s: State): seq<Packet>
    requires s.pos <= |input|
  {
    s.videoQ + (InHand(s.demux) + VideoPackets(c, input[s.pos..]))
  }

  lemma ReadIsAccounted(c: Config, input: seq<AvPacket>, s: State)
    requires ValidConfig(c) && Reachable(c, input, s)
    ensures s.pos <= |input|
    ensures s.got + s.videoQ + InHand(s.demux) == VideoPackets(c, input[..s.pos])
  {
    ReachableInv(c, input, s);
  }

  lemma CutAt(c: Config, input: seq<AvPacket>, pos: nat)
    requires pos <= |input|
    ensures VideoPackets(c, input[..pos]) + VideoPackets(c, input[pos..]) == VideoPackets(c, input)
  {
    assert input == input[..pos] + input[pos..];
    PacketsConcat(c, input[..pos], input[pos..]);
  }

  lemma Reassociate<T>(a: seq<T>, b: seq<T>, c: seq<T>, d: seq<T>)
    ensures a + (b + (c + d)) == a + b + c + d
  {
  }

  lemma ToComeIsTheRest(c: Config, input: seq<AvPacket>, s: State)
    requires ValidConfig(c) && Reachable(c, input, s)
    ensures s.pos <= |input| && s.got + ToCome(c, input, s) == VideoPackets(c, input)
  {
    ReadIsAccounted(c, input, s);
    CutAt(c, input, s.pos);
    Reassociate(s.got, s.videoQ, InHand(s.demux), VideoPackets(c, input[s.pos..]));
  }

  /** The decode thread is inside the blocking get, and no packet will come. */
  ghost predicate Doomed(c: Config, input: seq<AvPacket>, s: State) {
    s.pos <= |input| && ToCome(c, input, s) == [] && (s.decode.Get? || s.decode.AsleepOnQueue?)
  }

  lemma NextFrame(c: Config, input: seq<AvPacket>, pos: nat)
    requires pos < |input|
    ensures VideoPackets(c, input[pos..]) == VideoPackets(c, [input[pos]]) + VideoPackets(c, input[pos + 1..])
    ensures VideoPackets(c, [input[pos]]) ==
            if input[pos].stream == c.videoIndex && input[pos].pts.Some?
            then [Packet(input[pos].data, c.rescale(input[pos].pts.value), input[pos].flags)] else []
  {
    assert input[pos..] == [input[pos]] + input[pos + 1..];
    PacketsConcat(c, [input[pos]], input[pos + 1..]);
    assert [input[pos]][..0] == [];
  }

  lemma ReadTakesInHand(c: Config, input: seq<AvPacket>, s: State)
    requires s.demux.Reading? && s.pos < |input|
    ensures InHand(DemuxStep(c, input, s).value.demux) == VideoPackets(c, [input[s.pos]])
  {
    NextFrame(c, input, s.pos);
  }

  lemma ReadKeepsToCome(c: Config, input: seq<AvPacket>, s: State)
    requires s.demux.Reading? && s.pos < |input|
    ensures ToCome(c, input, DemuxStep(c, input, s).value) == ToCome(c, input, s)
  {
    NextFrame(c, input, s.pos);
    ReadTakesInHand(c, input, s);
    AppendTwice([], VideoPackets(c, [input[s.pos]]), VideoPackets(c, input[s.pos + 1..]));
  }

  lemma EnqueueKeepsToCome(c: Config, input: seq<AvPacket>, s: State)
    requires s.demux.PassedVideo? && s.pos <= |input|
    ensures ToCome(c, input, DemuxStep(c, input, s).value) == ToCome(c, input, s)
  {
  }

  /** The demultiplexer neither adds to what is still to come nor loses any of it. */
  lemma DemuxKeepsToCome(c: Config, input: seq<AvPacket>, s: State)
    requires s.pos <= |input| && DemuxStep(c, input, s).Some?
    ensures DemuxStep(c, input, s).value.pos <= |input|
    ensures ToCome(c, input, DemuxStep(c, input, s).value) == ToCome(c, input, s)
  {
    if s.demux.Reading? && s.pos < |input| {
      ReadKeepsToCome(c, input, s);
    } else if s.demux.PassedVideo? {
      EnqueueKeepsToCome(c, input, s);
    } else {
      var s' := DemuxStep(c, input, s).value;
      assert s'.pos == s.pos && s'.videoQ == s.videoQ && InHand(s'.demux) == InHand(s.demux);
    }
  }

  lemma DemuxStaysDoomed(c: Config, input: seq<AvPacket>, s: State)
    requires Doomed(c, input, s) && DemuxStep(c, input, s).Some?
    ensures Doomed(c, input, DemuxStep(c, input, s).value)
  {
    DemuxKeepsToCome(c, input, s);
    assert !s.demux.PassedVideo?;
  }

  lemma DecodeStaysDoomed(c: Config, input: seq<AvPacket>, s: State)
    requires Doomed(c, input, s) && DecodeStep(c, s).Some?
    ensures Doomed(c, input, DecodeStep(c, s).value)
  {
    assert DecodeStep(c, s) == Some(s.(decode := AsleepOnQueue));
  }

  lemma DoomedStepStays(c: Config, input: seq<AvPacket>, s: State, a: Action)
    requires Doomed(c, input, s) && Next(c, input, s, a).Some?
    ensures Doomed(c, input, Next(c, input, s, a).value)
  {
    match a
    case Demux => DemuxStaysDoomed(c, input, s);
    case Decode => DecodeStaysDoomed(c, input, s);
    case _ =>
  }

  /** Then it stays there whatever happens, so the end of the stream is never announced. */
  lemma DoomedForever(c: Config, input: seq<AvPacket>, s: State, t: State)
    requires Doomed(c, input, s) && Reaches(Steps(c, input), s, t)
    ensures Doomed(c, input, t) && !t.decode.Done?
  {
    forall u: State, a: Action | Doomed(c, input, u) && Steps(c, input)(u, a).Some?
      ensures Doomed(c, input, Steps(c, input)(u, a).value)
    {
      DoomedStepStays(c, input, u, a);
    }
    HoldsWhereReached(Steps(c, input), s, u => Doomed(c, input, u), t);
  }

  lemma DemuxDoesNotDoom(c: Config, input: seq<AvPacket>, s: State)
    requires s.pos <= |input| && DemuxStep(c, input, s).Some? && Doomed(c, input, DemuxStep(c, input, s).value)
    ensures Doomed(c, input, s)
  {
    DemuxKeepsToCome(c, input, s);
  }

  /** The decode thread gets into the blocking get only from there or from the guard, which has found the
      end not announced, and neither takes a packet. */
  lemma GetComesFrom(c: Config, s: State)
    requires DecodeStep(c, s).Some?
    ensures var t := DecodeStep(c, s).value;
            && t.demux == s.demux && t.audioQ == s.audioQ && t.pos == s.pos
            && (t.decode.Get? || t.decode.AsleepOnQueue? ==>
                && t.videoQ == s.videoQ
                && (s.decode.Get? || s.decode.Guard? || s.decode.SawEmpty?)
                && (s.decode.Get? || s.videoQ != [] || !s.videoFinished))
  {
    var t := DecodeStep(c, s).value;
    match s.decode {
      case Holding(Piece(p, off), b) => assert t == Submit(c, s, p, off, b);
      case Holding(StreamEnd, b) => assert t == SubmitEnd(s, b);
      case _ =>
    }
  }

  lemma DecodeDoomsAtGuard(c: Config, input: seq<AvPacket>, s: State)
    requires s.pos <= |input| && DecodeStep(c, s).Some? && Doomed(c, input, DecodeStep(c, s).value)
    ensures ToCome(c, input, s) == []
    ensures s.decode.Guard? || s.decode.SawEmpty? || s.decode.Get?
    ensures !s.decode.Get? ==> !s.videoFinished
  {
    GetComesFrom(c, s);
  }

  lemma OthersDoNotDoom(c: Config, input: seq<AvPacket>, s: State, a: Action)
    requires !a.Demux? && !a.Decode? && Next(c, input, s, a).Some? && Doomed(c, input, Next(c, input, s, a).value)
    ensures Doomed(c, input, s)
  {
    var t := Next(c, input, s, a).value;
    assert t.pos == s.pos && t.videoQ == s.videoQ && t.demux == s.demux;
  }

  /** Nothing but the loop guard gets it there: it is evaluated when no packet is left to come and the
      demultiplexer has not yet said so. */
  lemma DoomedAtGuard(c: Config, input: seq<AvPacket>, s: State, a: Action)
    requires ValidConfig(c) && Reachable(c, input, s) && Next(c, input, s, a).Some?
    requires !Doomed(c, input, s) && Doomed(c, input, Next(c, input, s, a).value)
    ensures a.Decode? && (s.decode.Guard? || s.decode.SawEmpty?)
    ensures s.pos <= |input| && ToCome(c, input, s) == [] && !s.videoFinished
  {
    ReadIsAccounted(c, input, s);
    if a.Demux? {
      DemuxDoesNotDoom(c, input, s);
    } else if a.Decode? {
      DecodeDoomsAtGuard(c, input, s);
    } else {
      OthersDoNotDoom(c, input, s, a);
    }
  }

  /** And the read that decides does so exactly then: the second of the two, or the only one of an atomic
      guard. */
  lemma GuardDoomsIff(c: Config, input: seq<AvPacket>, s: State)
    requires ValidConfig(c) && Reachable(c, input, s)
    requires s.decode.SawEmpty? || (c.atomicGuard && s.decode.Guard?)
    ensures s.pos <= |input|
    ensures Doomed(c, input, DecodeStep(c, s).value) <==> ToCome(c, input, s) == [] && !s.videoFinished
  {
    ReachableInv(c, input, s);
  }

  /** Where they have stopped, the end of the stream is unannounced exactly if that has happened, or the
      demultiplexer polls the audio queue. */
  lemma EndsAsleepIff(c: Config, input: seq<AvPacket>, s: State)
    requires ValidConfig(c) && Reachable(c, input, s) && Stopped(c, input, s)
    ensures !s.decode.Done? <==> Doomed(c, input, s) || BlockedOnAudio(s)
  {
    StopsOnlyAtEnd(c, input, s);
    DoneAfterDemux(c, input, s);
    if s.demux.Finished? {
      NothingToRead(c, input, s);
    }
  }

  // ---------------------------------------------------------------------------------------------
  // How long a run can be

  function PacketWork(p: Packet): nat {
    5 * |p.data| + 6
  }

  function QueueWork(q: seq<Packet>): nat {
    if q == [] then 0 else PacketWork(q[0]) + QueueWork(q[1..])
  }

  lemma {:induction false} QueueWorkAppend(q: seq<Packet>, p: Packet)
    ensures QueueWork(q + [p]) == QueueWork(q) + PacketWork(p)
  {
    if q != [] {
      QueueWorkAppend(q[1..], p);
      assert (q + [p])[1..] == q[1..] + [p];
    }
  }

  /** The frames from position `pos` on. */
  function FramesWork(input: seq<AvPacket>, pos: nat): nat
    decreases |input| - pos
  {
    if pos >= |input| then 0 else 5 * |input[pos].data| + 20 + FramesWork(input, pos + 1)
  }

  function DemuxWork(pc: DemuxPc): nat {
    match pc
    case Reading => 2
    case HasVideo(p) => PacketWork(p) + 6
    case PassedVideo(p) => PacketWork(p) + 5
    case HasAudio(_) => 6
    case PassedAudio(_) => 5
    case FinishingAudio => 1
    case Finished => 0
  }

  function JobWork(job: Job): nat {
    match job
    case Piece(p, off) => 21 + if off < |p.data| then 5 * (|p.data| - off) else 0
    case StreamEnd => 2
  }

  function DecodeWork(pc: DecodePc): nat {
    match pc
    case Guard => 24
    case SawEmpty => 23
    case Get => 22
    case AsleepOnQueue => 21
    case Need(job) => JobWork(job) + 6
    case AsleepOnPool(job) => JobWork(job) + 5
    case WokenOnPool(job) => JobWork(job) + 7
    case Holding(job, _) => JobWork(job) + 5
    case Done => 0
  }

  function UpstreamWork(input: seq<AvPacket>, pos: nat, demux: DemuxPc, videoQ: seq<Packet>,
                        audioQ: seq<AudioPacket>): nat {
    FramesWork(input, pos) + DemuxWork(demux) + QueueWork(videoQ) + |audioQ|
  }

  /** An upper bound on the number of steps still to come. */
  function Work(input: seq<AvPacket>, s: State): nat {
    UpstreamWork(input, s.pos, s.demux, s.videoQ, s.audioQ) + DecodeWork(s.decode) + 3 * |s.inFlight|
  }

  lemma ReadWorks(c: Config, input: seq<AvPacket>, s: State)
    requires s.demux.Reading? && s.pos < |input|
    ensures Work(input, DemuxStep(c, input, s).value) < Work(input, s)
  {
    var s' := DemuxStep(c, input, s).value;
    assert DemuxWork(s'.demux) <= 5 * |input[s.pos].data| + 12;
    assert s'.pos == s.pos + 1 && s'.videoQ == s.videoQ && s'.audioQ == s.audioQ;
  }

  lemma EnqueueWorks(c: Config, input: seq<AvPacket>, s: State)
    requires s.demux.PassedVideo?
    ensures Work(input, DemuxStep(c, input, s).value) < Work(input, s)
  {
    QueueWorkAppend(s.videoQ, s.demux.video);
  }

  lemma DemuxWorks(c: Config, input: seq<AvPacket>, s: State)
    requires DemuxStep(c, input, s).Some? && !s.demux.PassedVideo? && (s.demux.Reading? ==> s.pos >= |input|)
    ensures Work(input, DemuxStep(c, input, s).value) < Work(input, s)
  {
    var s' := DemuxStep(c, input, s).value;
    assert s'.pos == s.pos && s'.videoQ == s.videoQ && s'.decode == s.decode && s'.inFlight == s.inFlight;
    assert DemuxWork(s'.demux) + |s'.audioQ| < DemuxWork(s.demux) + |s.audioQ|;
  }

  lemma AddedKey<T>(m: map<nat, T>, b: nat, x: T)
    ensures |m[b := x]| <= |m| + 1
  {
    assert m[b := x].Keys == m.Keys + {b};
  }

  lemma SubmitWorks(c: Config, input: seq<AvPacket>, s: State, p: Packet, off: nat, b: nat)
    requires s.decode == Holding(Piece(p, off), b) && HasBuffer(c, s, b) && off < |p.data| && c.alloc[b] > 0
    ensures Work(input, Submit(c, s, p, off, b)) < Work(input, s)
  {
    AddedKey(s.inFlight, b, NextChunk(p, off, b, c.alloc[b], s.firstPacket));
  }

  lemma SubmitEndWorks(c: Config, input: seq<AvPacket>, s: State, b: nat)
    requires s.decode == Holding(StreamEnd, b) && HasBuffer(c, s, b)
    ensures Work(input, SubmitEnd(s, b)) < Work(input, s)
  {
    AddedKey(s.inFlight, b, EosChunk(b));
  }

  lemma DequeueWorks(input: seq<AvPacket>, s: State)
    requires s.decode.Get? && s.videoQ != []
    ensures Work(input, Dequeue(s)) < Work(input, s)
  {
  }

  lemma NeedWorks(c: Config, input: seq<AvPacket>, s: State)
    requires s.decode.Need?
    ensures Work(input, DecodeStep(c, s).value) < Work(input, s)
  {
    var s' := DecodeStep(c, s).value;
    assert s' == s.(decode := s'.decode, pool := s'.pool);
    assert DecodeWork(s'.decode) < DecodeWork(s.decode);
  }

  lemma MoveWorks(c: Config, input: seq<AvPacket>, s: State)
    requires DecodeStep(c, s).Some? && !s.decode.Holding? && !s.decode.Need? && (s.decode.Get? ==> s.videoQ == [])
    ensures Work(input, DecodeStep(c, s).value) < Work(input, s)
  {
    var s' := DecodeStep(c, s).value;
    assert s' == s.(decode := s'.decode);
    assert DecodeWork(s'.decode) < DecodeWork(s.decode);
  }

  lemma DecoderWorks(input: seq<AvPacket>, s: State, b: nat)
    requires DecoderStep(s, b).Some?
    ensures Work(input, DecoderStep(s, b).value) < Work(input, s)
  {
    assert (s.inFlight - {b}).Keys == s.inFlight.Keys - {b};
  }

  /** A thread that holds a buffer has bytes for it, and the buffer has room. */
  predicate CanProgress(c: Config, s: State) {
    match s.decode
    case Holding(Piece(p, off), b) => off < |p.data| && b < |c.alloc| && c.alloc[b] > 0
    case _ => true
  }

  lemma ReachableCanProgress(c: Config, input: seq<AvPacket>, s: State)
    requires ValidConfig(c) && Inv(c, input, s)
    ensures CanProgress(c, s)
  {
  }

  /** A step that is not a wakeup without signal brings the end closer; such a wakeup makes at most
      two further steps possible. */
  lemma StepWorks(c: Config, input: seq<AvPacket>, s: State, a: Action)
    requires CanProgress(c, s) && Next(c, input, s, a).Some?
    ensures Work(input, Next(c, input, s, a).value) + 1 <= Work(input, s) + if a.Spurious? then 3 else 0
  {
    match a
    case Demux =>
      if s.demux.PassedVideo? {
        EnqueueWorks(c, input, s);
      } else if s.demux.Reading? && s.pos < |input| {
        ReadWorks(c, input, s);
      } else {
        DemuxWorks(c, input, s);
      }
    case Decode =>
      match s.decode {
        case Holding(Piece(p, off), b) => SubmitWorks(c, input, s, p, off, b);
        case Holding(StreamEnd, b) => SubmitEndWorks(c, input, s, b);
        case Get =>
          if s.videoQ != [] {
            DequeueWorks(input, s);
          } else {
            MoveWorks(c, input, s);
          }
        case Need(_) => NeedWorks(c, input, s);
        case _ => MoveWorks(c, input, s);
      }
    case Decoder(b) =>
      DecoderWorks(input, s, b);
    case _ =>
  }

  function CountSpurious(run: seq<Action>): nat {
    if run == [] then 0 else CountSpurious(run[..|run| - 1]) + if run[|run| - 1].Spurious? then 1 else 0
  }

  lemma {:induction false} RunWorks(c: Config, input: seq<AvPacket>, run: seq<Action>)
    requires ValidConfig(c) && Exec(Steps(c, input), Init(c), run).Some?
    ensures |run| + Work(input, Exec(Steps(c, input), Init(c), run).value)
            <= Work(input, Init(c)) + 3 * CountSpurious(run)
  {
    if run != [] {
      var before := run[..|run| - 1];
      RunWorks(c, input, before);
      var s := Exec(Steps(c, input), Init(c), before).value;
      assert Reachable(c, input, s);
      ReachableInv(c, input, s);
      ReachableCanProgress(c, input, s);
      StepWorks(c, input, s, run[|run| - 1]);
    }
  }

  /** No run is longer than a bound given by the input, plus three steps for each wakeup without a
      signal. */
  lemma RunsAreBounded(c: Config, input: seq<AvPacket>, run: seq<Action>)
    requires ValidConfig(c) && Exec(Steps(c, input), Init(c), run).Some?
    ensures |run| <= FramesWork(input, 0) + 26 + 3 * CountSpurious(run)
  {
    RunWorks(c, input, run);
  }
}

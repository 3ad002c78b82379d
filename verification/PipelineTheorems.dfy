/** What the invariants of the demultiplexer and the decode thread amount to. */
module PipelineTheorems {
  import opened Media
  import opened Chunking
  import opened BufferPools
  import opened Pipeline
  import opened FrameLaws
  import opened PipelineSafety
  import opened Runs

  // ---------------------------------------------------------------------------------------------
  // Delivery

  /** `cs` is what sending `all` looks like part of the way: a number of complete packets, in order,
      then possibly some bytes of the next one. */
  ghost predicate DeliversPrefix(all: seq<Packet>, cs: seq<Chunk>) {
    var g := Regroup(cs);
    var n := |g.closed|;
    && n <= |all|
    && Delivers(all[..n], g.closed)
    && (g.open != [] ==>
      && n < |all|
      && |Bytes(g.open)| < |all[n].data|
      && Cuts(all[n], |Bytes(g.open)|, g.open, n == 0))
  }

  lemma {:induction false} VideoPacketsPrefix(c: Config, frames: seq<AvPacket>, n: nat)
    requires n <= |frames|
    ensures VideoPackets(c, frames[..n]) <= VideoPackets(c, frames)
  {
    if n == |frames| {
      assert frames[..n] == frames;
    } else {
      VideoPacketsPrefix(c, frames[..|frames| - 1], n);
      assert frames[..|frames| - 1][..n] == frames[..n];
    }
  }

  lemma {:induction false} AudioPacketsPrefix(c: Config, frames: seq<AvPacket>, n: nat)
    requires n <= |frames|
    ensures AudioPackets(c, frames[..n]) <= AudioPackets(c, frames)
  {
    if n == |frames| {
      assert frames[..n] == frames;
    } else {
      AudioPacketsPrefix(c, frames[..|frames| - 1], n);
      assert frames[..|frames| - 1][..n] == frames[..n];
    }
  }

  /** The audio packets the writer has dequeued are a prefix of the timestamped audio packets of the
      input, in order; once the demultiplexer has finished, the rest is in the queue. */
  lemma AudioIsPrefix(c: Config, input: seq<AvPacket>, s: State)
    requires ValidConfig(c) && Reachable(c, input, s)
    ensures s.audioTaken <= AudioPackets(c, input)
    ensures s.videoFinished ==> s.audioTaken + s.audioQ == AudioPackets(c, input)
  {
    ReachableInv(c, input, s);
    AudioPacketsPrefix(c, input, s.pos);
    assert s.videoFinished ==> input[..s.pos] == input;
  }

  /** Whatever has been dequeued, is queued, or is in the hand of the demultiplexer are, in every state, the
      timestamped frames read so far, one by one and with all their fields. */
  lemma PacketsAreTheFrames(c: Config, input: seq<AvPacket>, s: State)
    requires ValidConfig(c) && Reachable(c, input, s)
    ensures s.pos <= |input|
    ensures AreTheVideo(c, input[..s.pos], s.got + s.videoQ + InHand(s.demux))
    ensures AreTheAudio(c, input[..s.pos], s.audioTaken + s.audioQ + AudioInHand(s.demux))
  {
    ReachableInv(c, input, s);
    VideoPacketsAre(c, input[..s.pos]);
    AudioPacketsAre(c, input[..s.pos]);
  }

  lemma NonEmptyPrefix(ps: seq<Packet>, qs: seq<Packet>)
    requires ps <= qs
    ensures NonEmpty(ps) <= NonEmpty(qs)
  {
    assert qs == ps + qs[|ps|..];
    NonEmptyConcat(ps, qs[|ps|..]);
  }

  lemma SentIsPrefix(ps: seq<Packet>, all: seq<Packet>, cs: seq<Chunk>)
    requires Sent(ps, cs) && NonEmpty(ps) <= all
    ensures DeliversPrefix(all, cs)
  {
    assert all[..|NonEmpty(ps)|] == NonEmpty(ps);
  }

  lemma SentPartIsPrefix(ps: seq<Packet>, p: Packet, off: nat, all: seq<Packet>, cs: seq<Chunk>)
    requires off < |p.data| && SentPart(ps, p, off, cs) && NonEmpty(ps + [p]) <= all
    ensures DeliversPrefix(all, cs)
  {
    NonEmptySnoc(ps, p);
    assert all[..|NonEmpty(ps)|] == NonEmpty(ps);
  }

  lemma SubmittedIsPrefix(decode: DecodePc, got: seq<Packet>, submitted: seq<Chunk>, all: seq<Packet>)
    requires SubmittedInv(decode, got, submitted) && NonEmpty(got) <= all
    ensures DeliversPrefix(all, DataOf(decode.Done?, submitted))
  {
    match JobOf(decode)
    case Some(Piece(p, off)) =>
      var before := got[..|got| - 1];
      assert got == before + [p];
      if off == |p.data| {
        SentIsPrefix(got, all, submitted);
      } else {
        SentPartIsPrefix(before, p, off, all, submitted);
      }
    case _ =>
      SentIsPrefix(got, all, DataOf(decode.Done?, submitted));
  }

  /** In every run, at every moment: what has been submitted, cut at ENDOFFRAME, is a prefix of the
      non-empty timestamped video packets of the input, in order and byte for byte, perhaps followed
      by some bytes of the next one. */
  lemma DeliveryIsPrefix(c: Config, input: seq<AvPacket>, s: State)
    requires ValidConfig(c) && Reachable(c, input, s)
    ensures DeliversPrefix(NonEmpty(VideoPackets(c, input)), DataPart(s))
  {
    ReachableInv(c, input, s);
    VideoPacketsPrefix(c, input, s.pos);
    NonEmptyPrefix(s.got, VideoPackets(c, input));
    SubmittedIsPrefix(s.decode, s.got, s.submitted, NonEmpty(VideoPackets(c, input)));
  }

  /** The same in terms of bytes. */
  lemma PrefixOfPayloads(all: seq<Packet>, cs: seq<Chunk>)
    requires DeliversPrefix(all, cs)
    ensures var g := Regroup(cs);
            && GroupBytes(g.closed) <= Payloads(all)
            && (g.open != [] ==> |g.closed| < |all| && Bytes(g.open) <= Payloads(all)[|g.closed|])
  {
    var g := Regroup(cs);
    DeliveredPayloads(all[..|g.closed|], g.closed);
    assert Payloads(all[..|g.closed|]) == Payloads(all)[..|g.closed|];
  }

  /** And in terms of timestamps: each buffer of a group carries the one of the packet it belongs to. */
  lemma TimestampsArrive(all: seq<Packet>, cs: seq<Chunk>, i: nat, j: nat)
    requires DeliversPrefix(all, cs)
    ensures var g := Regroup(cs);
            && (i < |g.closed| && j < |g.closed[i]| ==> i < |all| && TimestampOf(g.closed[i][j]) == Some(all[i].pts))
            && (j < |g.open| ==> |g.closed| < |all| && TimestampOf(g.open[j]) == Some(all[|g.closed|].pts))
  {
    var g := Regroup(cs);
    var n := |g.closed|;
    if i < n && j < |g.closed[i]| {
      CutsKeepTimestamp(all[..n][i], |all[i].data|, g.closed[i], i == 0, j);
    }
    if j < |g.open| {
      CutsKeepTimestamp(all[n], |Bytes(g.open)|, g.open, n == 0, j);
    }
  }

  /** Once the decode thread has left its loop, the demultiplexer has read and enqueued everything. */
  lemma NothingUpstream(c: Config, input: seq<AvPacket>, s: State)
    requires Inv(c, input, s) && s.videoFinished
    ensures s.got + s.videoQ == VideoPackets(c, input)
  {
    assert input[..s.pos] == input;
  }

  lemma SentMoreIff(got: seq<Packet>, queue: seq<Packet>, cs: seq<Chunk>)
    requires Sent(got, cs)
    ensures Sent(got + queue, cs) <==> NonEmpty(queue) == []
  {
    NonEmptyConcat(got, queue);
    assert NonEmpty(queue) == [] ==> NonEmpty(got + queue) == NonEmpty(got);
  }

  lemma LeftLoopHasSent(c: Config, s: State)
    requires DecodeInv(c, s) && LeftLoop(s)
    ensures Sent(s.got, DataPart(s)) && s.videoFinished
  {
  }

  /** Which loop exits deliver everything: those that leave no packet with data in the queue.  This
      holds of any two reads of the loop guard, atomic or not. */
  lemma ExitIsCompleteIff(c: Config, input: seq<AvPacket>, s: State)
    requires ValidConfig(c) && Reachable(c, input, s) && LeftLoop(s)
    ensures Sent(VideoPackets(c, input), DataPart(s)) <==> NonEmpty(s.videoQ) == []
  {
    ReachableInv(c, input, s);
    LeftLoopHasSent(c, s);
    NothingUpstream(c, input, s);
    SentMoreIff(s.got, s.videoQ, DataPart(s));
  }

  /** The same at the moment of the decision, for the guard as it is: its second read leaves the loop with
      something undelivered exactly if the end has been announced and a packet with data has come since
      the first read found the queue empty. */
  lemma ExitLeavesPacketIff(c: Config, input: seq<AvPacket>, s: State)
    requires ValidConfig(c) && Reachable(c, input, s) && s.decode.SawEmpty?
    ensures var s' := DecodeStep(c, s).value;
            LeftLoop(s') && !Sent(VideoPackets(c, input), DataPart(s'))
            <==> s.videoFinished && NonEmpty(s.videoQ) != []
  {
    var s' := GoOn(Steps(c, input), Init(c), s, Decode);
    if LeftLoop(s') {
      ExitIsCompleteIff(c, input, s');
    }
  }

  lemma DoneEndsWithEos(c: Config, s: State)
    requires DecodeInv(c, s) && PoolInv(c, s) && s.decode.Done?
    ensures s.submitted != [] && s.submitted[|s.submitted| - 1].buffer < |c.alloc|
    ensures s.submitted == DataPart(s) + [EosChunk(s.submitted[|s.submitted| - 1].buffer)]
  {
    assert IsEos(s.submitted[|s.submitted| - 1]);
  }

  /** With an atomic guard every exit is complete, and the last thing the decoder gets is one empty
      end-of-stream buffer. */
  lemma AtomicExitIsComplete(c: Config, input: seq<AvPacket>, s: State)
    requires ValidConfig(c) && c.atomicGuard && Reachable(c, input, s) && LeftLoop(s)
    ensures Sent(VideoPackets(c, input), DataPart(s))
    ensures s.decode.Done? ==> exists b: nat :: b < |c.alloc| && s.submitted == DataPart(s) + [EosChunk(b)]
  {
    ExitIsCompleteIff(c, input, s);
    ReachableInv(c, input, s);
    if s.decode.Done? {
      DoneEndsWithEos(c, s);
    }
  }

  /** Submission `i` of a decode thread that is `done` or not: it fits its buffer, and fills it unless it ends
      its packet or the stream; and its marks are those of its place in the run. */
  ghost predicate Flagged(alloc: seq<nat>, done: bool, submitted: seq<Chunk>, i: nat)
    requires i < |submitted|
  {
    var chunk := submitted[i];
    var isEnd := done && i == |submitted| - 1;
    && (StartTime in chunk.flags <==> i == 0 && !isEnd)
    && (EndOfStream in chunk.flags <==> isEnd)
    && (chunk.data == [] <==> isEnd)
    && chunk.buffer < |alloc| && |chunk.data| <= alloc[chunk.buffer]
    && (!isEnd && EndOfFrame !in chunk.flags ==> |chunk.data| == alloc[chunk.buffer])
    && (isEnd ==> chunk.flags == {TimeUnknown, EndOfStream} && chunk.ticks == None)
  }

  lemma ProperIsFlagged(alloc: seq<nat>, done: bool, submitted: seq<Chunk>, i: nat)
    requires AllProper(alloc, DataOf(done, submitted)) && i < |submitted|
    requires done ==> IsEos(submitted[|submitted| - 1]) && submitted[|submitted| - 1].buffer < |alloc|
    ensures Flagged(alloc, done, submitted, i)
  {
    var data := DataOf(done, submitted);
    assert i < |data| ==> data[i] == submitted[i];
  }

  lemma ReachableIsProper(c: Config, input: seq<AvPacket>, s: State)
    requires ValidConfig(c) && Reachable(c, input, s)
    ensures AllProper(c.alloc, DataPart(s))
    ensures s.decode.Done? ==> s.submitted != []
    ensures s.decode.Done? ==>
              IsEos(s.submitted[|s.submitted| - 1]) && s.submitted[|s.submitted| - 1].buffer < |c.alloc|
  {
    ReachableInv(c, input, s);
  }

  /** Flags over the whole run: the clock is started by the first buffer that carries data and by no
      other, and the end of the stream is announced by the last buffer of a finished thread only. */
  lemma FlagsOverTheRun(c: Config, input: seq<AvPacket>, s: State, i: nat)
    requires ValidConfig(c) && Reachable(c, input, s) && i < |s.submitted|
    ensures Flagged(c.alloc, s.decode.Done?, s.submitted, i)
  {
    ReachableIsProper(c, input, s);
    ProperIsFlagged(c.alloc, s.decode.Done?, s.submitted, i);
  }

  // ---------------------------------------------------------------------------------------------
  // Bounds and waiting

  /** With one producer for each, the two queues never hold more than 101 packets, although their
      lengths are read without the mutex. */
  lemma QueuesStayShort(c: Config, input: seq<AvPacket>, s: State)
    requires ValidConfig(c) && Reachable(c, input, s)
    ensures |s.videoQ| <= 101 && |s.audioQ| <= 101
  {
    ReachableInv(c, input, s);
  }

  /** How far the demultiplexer is with one frame. */
  function Rank(pc: DemuxPc): nat {
    match pc
    case HasVideo(_) => 4
    case HasAudio(_) => 4
    case PassedVideo(_) => 3
    case PassedAudio(_) => 3
    case Reading => 2
    case FinishingAudio => 1
    case Finished => 0
  }

  /** Before anything is dequeued, a finished demultiplexer has all video packets in the queue. */
  lemma AllInQueue(c: Config, input: seq<AvPacket>, s: State)
    requires ValidConfig(c) && Reachable(c, input, s) && s.got == [] && s.demux.Finished?
    ensures s.videoQ == VideoPackets(c, input)
  {
    ReachableInv(c, input, s);
    NothingUpstream(c, input, s);
  }

  lemma DemuxRanks(c: Config, input: seq<AvPacket>, s: State)
    requires s.decode == Guard && DemuxStep(c, input, s).Some?
    ensures var t := DemuxStep(c, input, s).value;
            && t.decode == s.decode && t.got == s.got
            && if t.pos == s.pos then Rank(t.demux) < Rank(s.demux) else s.pos < |input| && t.pos == s.pos + 1
  {
  }

  lemma DemuxCanStep(c: Config, input: seq<AvPacket>, s: State)
    requires !s.demux.Finished? && |s.videoQ| <= QUEUE_LIMIT && !(s.demux.HasAudio? && |s.audioQ| > QUEUE_LIMIT)
    ensures DemuxStep(c, input, s).Some?
  {
  }

  /** The demultiplexer goes on while the decode thread does nothing; the writer takes audio packets only
      where the demultiplexer needs it. */
  lemma FillVideoQueue(c: Config, input: seq<AvPacket>, s: State) returns (s': State)
    requires ValidConfig(c) && Reachable(c, input, s) && s.decode == Guard && s.got == []
    requires |VideoPackets(c, input)| >= 101
    ensures Reachable(c, input, s') && |s'.videoQ| == 101
    decreases |input| - s.pos, Rank(s.demux), |s.audioQ|
  {
    QueuesStayShort(c, input, s);
    if |s.videoQ| == 101 {
      s' := s;
    } else {
      if s.demux.Finished? {
        AllInQueue(c, input, s);
      }
      if s.demux.HasAudio? && |s.audioQ| > QUEUE_LIMIT {
        s' := GoOn(Steps(c, input), Init(c), s, TakeAudio);
      } else {
        DemuxCanStep(c, input, s);
        DemuxRanks(c, input, s);
        s' := GoOn(Steps(c, input), Init(c), s, Demux);
      }
      s' := FillVideoQueue(c, input, s');
    }
  }

  /** And every input with as many timestamped video packets can make the queue that long. */
  lemma QueueCanBeThatLong(c: Config, input: seq<AvPacket>) returns (s: State)
    requires ValidConfig(c) && |VideoPackets(c, input)| >= 101
    ensures Reachable(c, input, s) && |s.videoQ| == 101
  {
    s := Init(c);
    ReachesStart(Steps(c, input), s);
    s := FillVideoQueue(c, input, s);
  }

  /** No wakeup is lost: the decode thread does not sleep on a queue that holds packets, nor on a
      pool that holds an empty buffer.  So it never sleeps while the demultiplexer waits for the queue
      to become shorter. */
  lemma NoLostWakeup(c: Config, input: seq<AvPacket>, s: State)
    requires ValidConfig(c) && Reachable(c, input, s)
    ensures s.decode.AsleepOnQueue? ==> s.videoQ == []
    ensures s.decode.AsleepOnPool? ==> forall b :: 0 <= b < |c.alloc| ==> b in s.inFlight
    ensures !(s.decode.AsleepOnQueue? && s.demux.HasVideo? && |s.videoQ| > QUEUE_LIMIT)
  {
    ReachableInv(c, input, s);
    if s.decode.AsleepOnPool? {
      forall b | 0 <= b < |c.alloc| ensures b in s.inFlight {
        assert BufferInv(s.pool.filled, s.memory, s.inFlight, false, b);
      }
    }
  }

  /** A waiting thread has seen all buffers full, and the flag is set again only when one is emptied. */
  ghost predicate FlagMeansEmpty(s: State) {
    s.decode.WokenOnPool? && s.pool.notempty ==> !AllFull(s.pool.filled)
  }

  lemma StepKeepsFlagMeaning(c: Config, input: seq<AvPacket>, s: State, a: Action)
    requires PoolInv(c, s) && FlagMeansEmpty(s) && Next(c, input, s, a).Some?
    ensures FlagMeansEmpty(Next(c, input, s, a).value)
  {
    if a.Decoder? {
      assert Next(c, input, s, a).value.pool.filled[a.buffer] == 0;
    }
  }

  lemma ReachableFlag(c: Config, input: seq<AvPacket>, s: State)
    requires ValidConfig(c) && Reachable(c, input, s)
    ensures FlagMeansEmpty(s)
  {
    var inv := (t: State) => Inv(c, input, t) && FlagMeansEmpty(t);
    InitHolds(c, input);
    forall t: State, a: Action | inv(t) && Steps(c, input)(t, a).Some? ensures inv(Steps(c, input)(t, a).value) {
      StepKeepsInv(c, input, t, a);
      StepKeepsFlagMeaning(c, input, t, a);
    }
    HoldsWhereReached(Steps(c, input), Init(c), inv, s);
  }

  /** A thread that was woken up goes on exactly if a buffer is empty, and then its next scan finds one. */
  lemma WakesForABuffer(c: Config, input: seq<AvPacket>, s: State)
    requires ValidConfig(c) && Reachable(c, input, s) && s.decode.WokenOnPool?
    ensures DecodeStep(c, s).Some?
    ensures var pc := DecodeStep(c, s).value.decode;
            if FirstFree(s.pool.filled).Some? then pc == Need(s.decode.job) else pc == AsleepOnPool(s.decode.job)
  {
    ReachableInv(c, input, s);
    ReachableFlag(c, input, s);
  }

  // ---------------------------------------------------------------------------------------------
  // Input buffers

  /** A buffer that the decode thread holds is not at the decoder, and what is at the decoder is as
      it was submitted. */
  lemma InputBuffersAreExclusive(c: Config, input: seq<AvPacket>, s: State)
    requires ValidConfig(c) && Reachable(c, input, s)
    ensures s.decode.Holding? ==> s.decode.buffer !in s.inFlight
    ensures forall b :: b in s.inFlight ==>
      && b < |s.memory|
      && s.inFlight[b].data <= s.memory[b]
  {
    ReachableInv(c, input, s);
    forall b | b in s.inFlight ensures s.inFlight[b].data <= s.memory[b] {
      assert BufferInv(s.pool.filled, s.memory, s.inFlight, s.decode.Done?, b);
    }
  }

  lemma SubmitLeavesInFlightAlone(c: Config, s: State, p: Packet, off: nat, i: nat, b: nat)
    requires HasBuffer(c, s, i) && off <= |p.data| && b != i && b < |s.memory| && b in s.inFlight
    ensures var s' := Submit(c, s, p, off, i);
            |s'.memory| == |s.memory| && s'.memory[b] == s.memory[b] && s'.inFlight[b] == s.inFlight[b]
  {
  }

  /** No step of any party changes the memory of a buffer that is at the decoder. */
  lemma StepsLeaveInFlightAlone(c: Config, input: seq<AvPacket>, s: State, a: Action, b: nat)
    requires ValidConfig(c) && Reachable(c, input, s) && Next(c, input, s, a).Some?
    requires b in s.inFlight
    ensures var s' := Next(c, input, s, a).value;
            && b < |s.memory| == |s'.memory|
            && s'.memory[b] == s.memory[b]
            && (b in s'.inFlight ==> s'.inFlight[b] == s.inFlight[b])
  {
    InputBuffersAreExclusive(c, input, s);
    if a.Decode? && s.decode.Holding? && s.decode.job.Piece? {
      var Piece(p, off) := s.decode.job;
      SubmitLeavesInFlightAlone(c, s, p, off, s.decode.buffer, b);
    }
  }

  function EmptyOnes(filled: seq<nat>): set<nat> {
    set b: nat | b < |filled| && filled[b] == 0
  }

  lemma {:induction false} CountFreeIsCardinality(filled: seq<nat>)
    ensures CountFree(filled) == |EmptyOnes(filled)|
  {
    if filled != [] {
      var n := |filled| - 1;
      CountFreeIsCardinality(filled[..n]);
      if filled[n] == 0 {
        assert EmptyOnes(filled) == EmptyOnes(filled[..n]) + {n};
      } else {
        assert EmptyOnes(filled) == EmptyOnes(filled[..n]);
      }
    }
  }

  lemma TwoPartsOf(n: nat, a: set<nat>, b: set<nat>)
    requires forall x: nat :: x in a + b <==> x < n
    requires a !! b
    ensures |a| + |b| == n
  {
    assert a + b == Below(n);
  }

  lemma FreeCountOf(n: nat, filled: seq<nat>, memory: seq<seq<byte>>, inFlight: map<nat, Chunk>)
    requires BuffersInv(n, filled, memory, inFlight, false)
    ensures CountFree(filled) == n - |inFlight.Keys|
  {
    forall b: nat | b < n ensures filled[b] == 0 <==> b !in inFlight {
      assert BufferInv(filled, memory, inFlight, false, b);
    }
    TwoPartsOf(n, EmptyOnes(filled), inFlight.Keys);
    CountFreeIsCardinality(filled);
  }

  /** The count that decode_thread reports at encode.c:56, before it asks for a buffer: all buffers
      but those at the decoder. */
  lemma FreeCountIsExact(c: Config, input: seq<AvPacket>, s: State)
    requires ValidConfig(c) && Reachable(c, input, s) && !s.decode.Done?
    ensures CountFree(s.pool.filled) == |c.alloc| - |s.inFlight.Keys|
  {
    ReachableInv(c, input, s);
    FreeCountOf(|c.alloc|, s.pool.filled, s.memory, s.inFlight);
  }
}

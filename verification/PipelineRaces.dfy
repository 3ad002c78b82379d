/** Two things the demultiplexer and the decode thread do not guarantee, each with a run that shows
it. */
module PipelineRaces {
  import opened Media
  import opened Chunking
  import opened BufferPools
  import opened Pipeline
  import opened Runs

  /** One input buffer of one byte. */
  function SmallConfig(atomicGuard: bool): (c: Config)
    ensures ValidConfig(c) && c.atomicGuard == atomicGuard && c.videoIndex == 0 && |c.alloc| == 1
  {
    Config(0, 1, t => t, [1], atomicGuard)
  }

  /** One video frame of one byte. */
  function OneFrame(): seq<AvPacket> {
    [AvPacket(0, Some(0), 0, 0, [7], {})]
  }

  lemma OneFrameHasData(c: Config)
    requires c.videoIndex == 0
    ensures |NonEmpty(VideoPackets(c, OneFrame()))| == 1
    ensures !Sent(VideoPackets(c, OneFrame()), [])
  {
    var p := Packet([7], c.rescale(0), {});
    assert OneFrame()[..0] == [];
    assert VideoPackets(c, OneFrame()) == [p];
    assert [p][..0] == [];
  }

  /** The first read of the guard, and then all that the demultiplexer has to do for one frame. */
  lemma ReadAfterCount(c: Config) returns (s: State)
    requires ValidConfig(c) && !c.atomicGuard && c.videoIndex == 0
    ensures Reachable(c, OneFrame(), s) && s.decode == SawEmpty && s.videoFinished && |s.videoQ| == 1
    ensures s.pool == Init(c).pool && s.submitted == [] && |s.memory| == |c.alloc|
  {
    var next, start := Steps(c, OneFrame()), Init(c);
    ReachesStart(next, start);
    s := GoOn(next, start, start, Decode);
    s := GoOn(next, start, s, Demux);
    s := GoOn(next, start, s, Demux);
    s := GoOn(next, start, s, Demux);
    s := GoOn(next, start, s, Demux);
  }

  /** The second read of the guard, and the submission of the end-of-stream buffer. */
  lemma LeaveLoop(c: Config, s: State) returns (s': State)
    requires |c.alloc| == 1 && Reachable(c, OneFrame(), s) && s.decode == SawEmpty && s.videoFinished
    requires s.pool.filled == [0] && |s.memory| == 1
    ensures Reachable(c, OneFrame(), s') && s'.decode.Done? && s'.videoQ == s.videoQ
    ensures s'.submitted == s.submitted + [EosChunk(0)]
  {
    var next, start := Steps(c, OneFrame()), Init(c);
    s' := GoOn(next, start, s, Decode);
    assert FirstFree([0][..0]) == None;
    s' := GoOn(next, start, s', Decode);
    s' := GoOn(next, start, s', Decode);
  }

  /** The guard of the loop reads queue_count and queue_finished one after the other.  If the
      demultiplexer enqueues its last packet and finishes in between, the decode thread leaves the
      loop and announces the end of the stream with a packet still in the queue. */
  lemma PacketLeftBehind() returns (c: Config, input: seq<AvPacket>, s: State)
    ensures ValidConfig(c) && !c.atomicGuard && Reachable(c, input, s)
    ensures s.decode.Done? && |s.videoQ| == 1
    ensures NonEmpty(VideoPackets(c, input)) != [] && DataPart(s) == []
    ensures !Sent(VideoPackets(c, input), DataPart(s))
  {
    c, input := SmallConfig(false), OneFrame();
    s := ReadAfterCount(c);
    s := LeaveLoop(c, s);
    OneFrameHasData(c);
  }

  /** Even with an atomic guard the decode thread can end up asleep for good: it finds the queue empty
      before the demultiplexer sets queue_finished, and nobody signals afterwards. */
  lemma AsleepForGood() returns (c: Config, input: seq<AvPacket>, s: State)
    ensures ValidConfig(c) && c.atomicGuard && Reachable(c, input, s)
    ensures s.decode.AsleepOnQueue? && s.videoQ == [] && s.demux.Finished?
    ensures forall a: Action :: !a.Spurious? ==> Next(c, input, s, a).None?
  {
    c, input := SmallConfig(true), [];
    var next, start := Steps(c, input), Init(c);
    ReachesStart(next, start);
    s := start;
    s := GoOn(next, start, s, Decode);
    s := GoOn(next, start, s, Decode);
    assert s.decode == AsleepOnQueue;
    s := GoOn(next, start, s, Demux);
    s := GoOn(next, start, s, Demux);
  }
}

/** What the start of the writer means for the audio packets.  The writer starts only when the decode thread
holds bytes of a video packet, and by then all audio packets in front of that video packet have been
read. */
module TranscoderStart {
  import opened Runs
  import opened Transcoder
  import Chunking
  import Demux
  import PipelineProgress

  // ---------------------------------------------------------------------------------------------
  // The first video packet with data

  predicate IsData(c: Pipeline.Config, f: Pipeline.AvPacket) {
    f.stream == c.videoIndex && f.pts.Some? && f.data != []
  }

  /** The position of the first frame that the decode thread gets bytes from, or the length of the input. */
  function FirstData(c: Pipeline.Config, input: seq<Pipeline.AvPacket>): (v: nat)
    ensures v <= |input|
    ensures v < |input| ==> IsData(c, input[v])
    ensures forall i :: 0 <= i < v ==> !IsData(c, input[i])
  {
    if input == [] then 0 else
    var n := |input| - 1;
    var v := FirstData(c, input[..n]);
    if v < n then v else if IsData(c, input[n]) then n else n + 1
  }

  /** How many timestamped audio packets are in front of it. */
  function AudioAhead(c: Config, input: seq<Pipeline.AvPacket>): nat {
    |Pipeline.AudioPackets(c.front, input[..FirstData(c.front, input)])|
  }

  lemma OnePacketHasData(p: Chunking.Packet)
    ensures Chunking.NonEmpty([p]) == if p.data == [] then [] else [p]
  {
    assert [p][..0] == [];
  }

  lemma OneFrameHasData(c: Pipeline.Config, f: Pipeline.AvPacket)
    ensures Chunking.NonEmpty(Pipeline.VideoPackets(c, [f])) != [] <==> IsData(c, f)
    ensures Pipeline.AudioPackets(c, [f]) != [] ==> !IsData(c, f)
  {
    assert [f][..0] == [];
    Demux.EachFrameGoesToOnePlace(c, f);
    if f.stream == c.videoIndex && f.pts.Some? {
      var p := Chunking.Packet(f.data, c.rescale(f.pts.value), f.flags);
      assert Pipeline.VideoPackets(c, [f]) == [p];
      OnePacketHasData(p);
    }
  }

  lemma OneMoreHasData(c: Pipeline.Config, input: seq<Pipeline.AvPacket>, k: nat)
    requires k < |input|
    ensures Chunking.NonEmpty(Pipeline.VideoPackets(c, input[..k + 1])) == [] <==>
              Chunking.NonEmpty(Pipeline.VideoPackets(c, input[..k])) == [] && !IsData(c, input[k])
  {
    var before, one := Pipeline.VideoPackets(c, input[..k]), Pipeline.VideoPackets(c, [input[k]]);
    OneFrameHasData(c, input[k]);
    Demux.OneMoreFrame(c, input, k);
    Chunking.NonEmptyConcat(before, one);
  }

  /** A part of the input has no video packet with data exactly if it ends before the first one. */
  lemma {:induction false} NoDataIff(c: Pipeline.Config, input: seq<Pipeline.AvPacket>, k: nat)
    requires k <= |input|
    ensures Chunking.NonEmpty(Pipeline.VideoPackets(c, input[..k])) == [] <==> k <= FirstData(c, input)
  {
    if k > 0 {
      NoDataIff(c, input, k - 1);
      OneMoreHasData(c, input, k - 1);
    }
  }

  lemma AudioOfPart(c: Pipeline.Config, input: seq<Pipeline.AvPacket>, j: nat, k: nat)
    requires j <= k <= |input|
    ensures |Pipeline.AudioPackets(c, input[..j])| <= |Pipeline.AudioPackets(c, input[..k])|
  {
    PipelineTheorems.AudioPacketsPrefix(c, input[..k], j);
    assert input[..k][..j] == input[..j];
  }

  lemma AllAhead(c: Config, input: seq<Pipeline.AvPacket>)
    ensures AudioAhead(c, input) <= |AllAudio(c, input)|
    ensures FirstData(c.front, input) == |input| ==> AudioAhead(c, input) == |AllAudio(c, input)|
  {
    AudioOfPart(c.front, input, FirstData(c.front, input), |input|);
    assert input[..|input|] == input;
  }

  // ---------------------------------------------------------------------------------------------
  // What has been enqueued when the decode thread gets that packet

  /** An audio packet in the hand of the demultiplexer is the last frame it has read. */
  ghost predicate HandIsLast(c: Pipeline.Config, input: seq<Pipeline.AvPacket>, s: Pipeline.State) {
    PipelineSafety.AudioInHand(s.demux) != [] ==>
      && 0 < s.pos <= |input|
      && Pipeline.AudioPackets(c, [input[s.pos - 1]]) == PipelineSafety.AudioInHand(s.demux)
  }

  lemma ReadTakesInHand(c: Pipeline.Config, input: seq<Pipeline.AvPacket>, s: Pipeline.State)
    requires s.demux.Reading? && s.pos < |input|
    ensures HandIsLast(c, input, Pipeline.DemuxStep(c, input, s).value)
  {
    assert [input[s.pos]][..0] == [];
  }

  lemma OthersKeepHand(c: Pipeline.Config, input: seq<Pipeline.AvPacket>, s: Pipeline.State, a: Pipeline.Action)
    requires Pipeline.Next(c, input, s, a).Some? && !(a.Demux? && s.demux.Reading? && s.pos < |input|)
    ensures var t := Pipeline.Next(c, input, s, a).value;
            && t.pos == s.pos
            && (PipelineSafety.AudioInHand(t.demux) != [] ==>
                PipelineSafety.AudioInHand(t.demux) == PipelineSafety.AudioInHand(s.demux))
  {
    match a
    case Decode => PipelineProgress.GetComesFrom(c, s);
    case _ =>
  }

  lemma StepKeepsHand(c: Pipeline.Config, input: seq<Pipeline.AvPacket>, s: Pipeline.State, a: Pipeline.Action)
    requires HandIsLast(c, input, s) && Pipeline.Next(c, input, s, a).Some?
    ensures HandIsLast(c, input, Pipeline.Next(c, input, s, a).value)
  {
    if a.Demux? && s.demux.Reading? && s.pos < |input| {
      ReadTakesInHand(c, input, s);
    } else {
      OthersKeepHand(c, input, s, a);
    }
  }

  lemma ReachableHand(c: Pipeline.Config, input: seq<Pipeline.AvPacket>, s: Pipeline.State)
    requires Pipeline.Reachable(c, input, s)
    ensures HandIsLast(c, input, s)
  {
    forall t: Pipeline.State, a: Pipeline.Action | HandIsLast(c, input, t) && Pipeline.Steps(c, input)(t, a).Some?
      ensures HandIsLast(c, input, Pipeline.Steps(c, input)(t, a).value)
    {
      StepKeepsHand(c, input, t, a);
    }
    HoldsWhereReached(Pipeline.Steps(c, input), Pipeline.Init(c), t => HandIsLast(c, input, t), s);
  }

  /** The demultiplexer has read the first video packet with data once the decode thread has dequeued it. */
  lemma GotMeansRead(c: Pipeline.Config, input: seq<Pipeline.AvPacket>, s: Pipeline.State)
    requires Pipeline.ValidConfig(c) && Pipeline.Reachable(c, input, s) && Chunking.NonEmpty(s.got) != []
    ensures FirstData(c, input) < s.pos <= |input|
  {
    PipelineSafety.ReachableInv(c, input, s);
    assert s.got <= Pipeline.VideoPackets(c, input[..s.pos]);
    PipelineTheorems.NonEmptyPrefix(s.got, Pipeline.VideoPackets(c, input[..s.pos]));
    NoDataIff(c, input, s.pos);
  }

  /** Only then can it have an audio packet in hand that is behind. */
  lemma HandIsBehind(c: Pipeline.Config, input: seq<Pipeline.AvPacket>, s: Pipeline.State)
    requires HandIsLast(c, input, s) && FirstData(c, input) < s.pos <= |input|
    ensures |Pipeline.AudioPackets(c, input[..FirstData(c, input)])| + |PipelineSafety.AudioInHand(s.demux)|
            <= |Pipeline.AudioPackets(c, input[..s.pos])|
  {
    var v := FirstData(c, input);
    if PipelineSafety.AudioInHand(s.demux) != [] {
      OneFrameHasData(c, input[s.pos - 1]);
      AudioOfPart(c, input, v, s.pos - 1);
      Demux.OneMoreFrame(c, input, s.pos - 1);
    } else {
      AudioOfPart(c, input, v, s.pos);
    }
  }

  /** So it has enqueued all audio packets in front by then. */
  lemma GotMeansEnqueued(c: Pipeline.Config, input: seq<Pipeline.AvPacket>, s: Pipeline.State)
    requires Pipeline.ValidConfig(c) && Pipeline.Reachable(c, input, s) && Chunking.NonEmpty(s.got) != []
    ensures |Pipeline.AudioPackets(c, input[..FirstData(c, input)])| <= |s.audioTaken| + |s.audioQ|
  {
    GotMeansRead(c, input, s);
    ReachableHand(c, input, s);
    HandIsBehind(c, input, s);
    AudioCount(c, input, s);
  }

  lemma AudioCount(c: Pipeline.Config, input: seq<Pipeline.AvPacket>, s: Pipeline.State)
    requires Pipeline.ValidConfig(c) && Pipeline.Reachable(c, input, s)
    ensures s.pos <= |input|
    ensures |s.audioTaken| + |s.audioQ| + |PipelineSafety.AudioInHand(s.demux)|
            == |Pipeline.AudioPackets(c, input[..s.pos])|
  {
    PipelineSafety.ReachableInv(c, input, s);
  }

  lemma HeldHasData(c: Pipeline.Config, input: seq<Pipeline.AvPacket>, s: Pipeline.State)
    requires Pipeline.ValidConfig(c) && Pipeline.Reachable(c, input, s) && HoldsPiece(s)
    ensures Chunking.NonEmpty(s.got) != []
  {
    PipelineSafety.ReachableInv(c, input, s);
    var p := s.decode.job.packet;
    assert s.got == s.got[..|s.got| - 1] + [p];
    Chunking.NonEmptySnoc(s.got[..|s.got| - 1], p);
  }

  // ---------------------------------------------------------------------------------------------
  // What holds of the whole

  /** The writer is started only if the audio packets in front fit into the queue, and it misses none of
      them. */
  ghost predicate StartInv(c: Config, input: seq<Pipeline.AvPacket>, s: State) {
    && (s.started ==> Chunking.NonEmpty(s.front.got) != [] && AudioAhead(c, input) <= 101)
    && (Misses(s) > 0 ==> |s.front.audioTaken| >= AudioAhead(c, input))
  }

  lemma GotGrows(c: Pipeline.Config, input: seq<Pipeline.AvPacket>, s: Pipeline.State, a: Pipeline.Action)
    requires Pipeline.Next(c, input, s, a).Some?
    ensures s.got <= Pipeline.Next(c, input, s, a).value.got
  {
  }

  lemma FrontKeepsData(c: Config, input: seq<Pipeline.AvPacket>, s: Pipeline.State, a: Pipeline.Action)
    requires Pipeline.Next(c.front, input, s, a).Some? && Chunking.NonEmpty(s.got) != []
    ensures Chunking.NonEmpty(Pipeline.Next(c.front, input, s, a).value.got) != []
  {
    GotGrows(c.front, input, s, a);
    PipelineTheorems.NonEmptyPrefix(s.got, Pipeline.Next(c.front, input, s, a).value.got);
  }

  lemma StartKeepsInv(c: Config, input: seq<Pipeline.AvPacket>, s: State)
    requires ValidConfig(c) && Inv(c, input, s) && StartInv(c, input, s) && StartStep(s).Some?
    ensures StartInv(c, input, StartStep(s).value)
  {
    HeldHasData(c.front, input, s.front);
    GotMeansEnqueued(c.front, input, s.front);
    PipelineTheorems.QueuesStayShort(c.front, input, s.front);
  }

  lemma AudioKeepsStartInv(c: Config, input: seq<Pipeline.AvPacket>, s: State)
    requires ValidConfig(c) && Inv(c, input, s) && StartInv(c, input, s) && AudioStep(s).Some?
    ensures StartInv(c, input, AudioStep(s).value)
  {
    AudioKeepsInv(c, input, s);
    assert s.started;
    GotMeansEnqueued(c.front, input, s.front);
  }

  lemma StepKeepsStartInv(c: Config, input: seq<Pipeline.AvPacket>, s: State, a: Action)
    requires ValidConfig(c) && Inv(c, input, s) && StartInv(c, input, s) && Next(c, input, s, a).Some?
    ensures StartInv(c, input, Next(c, input, s, a).value)
  {
    match a
    case Front(f) =>
      FrontKeepsInv(c, input, s, f);
      FrontChanges(c, input, s.front, f);
      if s.started {
        FrontKeepsData(c, input, s.front, f);
      }
    case Back(b) => BackKeepsInv(c, input, s, b);
    case WriteAudio => AudioKeepsStartInv(c, input, s);
    case Start => StartKeepsInv(c, input, s);
  }

  lemma ReachableStart(c: Config, input: seq<Pipeline.AvPacket>, s: State)
    requires ValidConfig(c) && Reachable(c, input, s)
    ensures StartInv(c, input, s)
  {
    var inv := (t: State) => Inv(c, input, t) && StartInv(c, input, t);
    InitHolds(c, input);
    forall t: State, a: Action | inv(t) && Steps(c, input)(t, a).Some? ensures inv(Steps(c, input)(t, a).value) {
      StepKeepsInv(c, input, t, a);
      StepKeepsStartInv(c, input, t, a);
    }
    HoldsWhereReached(Steps(c, input), Init(c), inv, s);
  }

  /** Once the writer is started, all audio packets in front are enqueued, and they fit into the queue. */
  lemma StartedMeansAudio(c: Config, input: seq<Pipeline.AvPacket>, s: State)
    requires ValidConfig(c) && Reachable(c, input, s) && s.started
    ensures AudioAhead(c, input) <= 101 && AudioAhead(c, input) <= |s.front.audioTaken| + |s.front.audioQ|
  {
    ReachableStart(c, input, s);
    ReachableInv(c, input, s);
    GotMeansEnqueued(c.front, input, s.front);
  }

  function Min(a: int, b: int): int {
    if a < b then a else b
  }

  /** The writer takes an audio packet in every round, until it has taken at least all those in front. */
  lemma LeastTaken(c: Config, input: seq<Pipeline.AvPacket>, s: State)
    requires ValidConfig(c) && Reachable(c, input, s) && !AudioDue(s)
    ensures |s.front.audioTaken| >= Min(AudioAhead(c, input), Submissions(s))
  {
    ReachableStart(c, input, s);
  }
}

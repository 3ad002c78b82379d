/** The whole transcoder: the step systems of the demultiplexer with the decode thread and of the writer
with the encoder, put together.

They meet in three places.  The writer starts only when the decode thread has set is_running, which it does
at most while it holds a buffer with bytes of a packet (encode.c:178-184, mux.c:317-320); whether it does,
and whether the signal given there arrives, is left open.  The writer takes the audio packets, at most one
in each round of its loop (write_audio_frame, mux.c:133), between the submission of an output buffer and
the look into the queue of encoded packets.  And the loop test of the writer reads the flag that the
demultiplexer sets last.  The encoder puts out nothing before the decoder has been given something, and
announces the end of the stream only after the decode thread has; apart from that, when it puts out what
is left open. */
module Transcoder {
  import opened Media
  import opened Runs
  import Pipeline
  import PipelineSafety
  import PipelineTheorems
  import EncoderOutput

  datatype Config = Config(front: Pipeline.Config, back: EncoderOutput.Config)

  predicate ValidConfig(c: Config) {
    Pipeline.ValidConfig(c.front) && EncoderOutput.ValidConfig(c.back) && c.back.n > 0
  }

  /** `started` says that the writer is past its wait for is_running, `audioDone` that it has submitted a
      buffer and looked into the audio queue, but not yet into the queue of encoded packets. */
  datatype State = State(front: Pipeline.State, back: EncoderOutput.State, started: bool, audioDone: bool)

  function Init(c: Config): State {
    State(Pipeline.Init(c.front), EncoderOutput.Init(c.back), false, false)
  }

  // ---------------------------------------------------------------------------------------------
  // Steps

  datatype Action =
    | Front(front: Pipeline.Action)
    | Back(back: EncoderOutput.Action)
    | WriteAudio
    | Start

  /** The demultiplexer's last step sets the flag that the writer reads. */
  function FrontStep(c: Config, input: seq<Pipeline.AvPacket>, s: State, a: Pipeline.Action): Option<State> {
    if a.TakeAudio? then None else
    match Pipeline.Next(c.front, input, s.front, a)
    case None => None
    case Some(t) => Some(s.(front := t, back := s.back.(audioFinished := t.audioFinished)))
  }

  /** The writer owes the audio queue a look. */
  predicate AudioDue(s: State) {
    s.back.writer.Dequeuing? && !s.audioDone
  }

  /** What the writer and the encoder have to wait for. */
  predicate MayStep(s: State, a: EncoderOutput.Action) {
    match a
    case Writer => s.started && !AudioDue(s)
    case Fill(_) => s.front.submitted != []
    case EncoderEos => s.front.decode.Done?
    case AudioEnds => false
    case _ => true
  }

  function BackStep(c: Config, s: State, a: EncoderOutput.Action): Option<State> {
    if !MayStep(s, a) then None else
    match EncoderOutput.Next(c.back, s.back, a)
    case None => None
    case Some(t) => Some(s.(back := t, audioDone := s.audioDone && t.writer.Dequeuing?))
  }

  function AudioStep(s: State): Option<State> {
    if !s.started || !AudioDue(s) then None
    else if s.front.audioQ == [] then Some(s.(audioDone := true))
    else Some(s.(audioDone := true, front := Pipeline.TakeAudioPacket(s.front)))
  }

  /** The decode thread is in the loop over the bytes of a packet, with a buffer. */
  predicate HoldsPiece(s: Pipeline.State) {
    s.decode.Holding? && s.decode.job.Piece?
  }

  function StartStep(s: State): Option<State> {
    if s.started || !HoldsPiece(s.front) then None else Some(s.(started := true))
  }

  function Next(c: Config, input: seq<Pipeline.AvPacket>, s: State, a: Action): Option<State> {
    match a
    case Front(f) => FrontStep(c, input, s, f)
    case Back(b) => BackStep(c, s, b)
    case WriteAudio => AudioStep(s)
    case Start => StartStep(s)
  }

  function Steps(c: Config, input: seq<Pipeline.AvPacket>): (State, Action) -> Option<State> {
    (s, a) => Next(c, input, s, a)
  }

  ghost predicate Reachable(c: Config, input: seq<Pipeline.AvPacket>, s: State) {
    Reaches(Steps(c, input), Init(c), s)
  }

  // ---------------------------------------------------------------------------------------------
  // What holds of the two parts holds of the whole

  function One(b: bool): nat {
    if b then 1 else 0
  }

  /** How many buffers the writer has submitted: those at the encoder, and one for each that was filled. */
  function Submissions(s: State): nat {
    |s.back.encoder| + |s.back.produced|
  }

  /** In how many of the writer's rounds there was no audio packet. */
  function Misses(s: State): int {
    Submissions(s) - One(AudioDue(s)) - |s.front.audioTaken|
  }

  /** The writer has done nothing yet, and so neither has the encoder. */
  predicate AtStart(c: Config, s: State) {
    && s.back == EncoderOutput.Init(c.back).(eos := s.back.eos, audioFinished := s.back.audioFinished)
    && s.front.audioTaken == []
  }

  ghost predicate Inv(c: Config, input: seq<Pipeline.AvPacket>, s: State) {
    && Pipeline.Reachable(c.front, input, s.front)
    && EncoderOutput.Reachable(c.back, s.back)
    && s.back.audioFinished == s.front.audioFinished
    && (s.audioDone ==> s.back.writer.Dequeuing?)
    && (s.back.eos ==> s.front.decode.Done?)
    && Misses(s) >= 0
    && (!s.started ==> AtStart(c, s))
    && (s.started ==> HoldsPiece(s.front) || s.front.submitted != [])
  }

  lemma InitHolds(c: Config, input: seq<Pipeline.AvPacket>)
    ensures Inv(c, input, Init(c))
  {
    ReachesStart(Pipeline.Steps(c.front, input), Pipeline.Init(c.front));
    ReachesStart(EncoderOutput.Steps(c.back), EncoderOutput.Init(c.back));
  }

  /** A step of the front changes nothing for the writer but the flag, and it does not take back the end of
      the stream. */
  lemma FrontChanges(c: Config, input: seq<Pipeline.AvPacket>, s: Pipeline.State, a: Pipeline.Action)
    requires Pipeline.Next(c.front, input, s, a).Some? && !a.TakeAudio?
    ensures var t := Pipeline.Next(c.front, input, s, a).value;
            && t.audioTaken == s.audioTaken
            && (s.decode.Done? ==> t.decode.Done?)
            && (t.audioFinished == s.audioFinished || t.audioFinished)
            && (HoldsPiece(s) || s.submitted != [] ==> HoldsPiece(t) || t.submitted != [])
  {
    match a
    case Decode => DecodeChanges(c, s);
    case _ =>
  }

  lemma DecodeChanges(c: Config, s: Pipeline.State)
    requires Pipeline.DecodeStep(c.front, s).Some?
    ensures var t := Pipeline.DecodeStep(c.front, s).value;
            && t.audioTaken == s.audioTaken && t.audioFinished == s.audioFinished
            && !s.decode.Done?
            && (HoldsPiece(s) || s.submitted != [] ==> HoldsPiece(t) || t.submitted != [])
  {
  }

  lemma FrontReaches(c: Config, input: seq<Pipeline.AvPacket>, s: State, a: Pipeline.Action)
    requires Inv(c, input, s) && FrontStep(c, input, s, a).Some?
    ensures Pipeline.Reachable(c.front, input, FrontStep(c, input, s, a).value.front)
    ensures EncoderOutput.Reachable(c.back, FrontStep(c, input, s, a).value.back)
  {
    FrontChanges(c, input, s.front, a);
    var front := GoOn(Pipeline.Steps(c.front, input), Pipeline.Init(c.front), s.front, a);
    if FrontStep(c, input, s, a).value.back != s.back {
      var back := GoOn(EncoderOutput.Steps(c.back), EncoderOutput.Init(c.back), s.back, EncoderOutput.AudioEnds);
    }
  }

  lemma FrontKeepsInv(c: Config, input: seq<Pipeline.AvPacket>, s: State, a: Pipeline.Action)
    requires Inv(c, input, s) && FrontStep(c, input, s, a).Some?
    ensures Inv(c, input, FrontStep(c, input, s, a).value)
    ensures Misses(FrontStep(c, input, s, a).value) == Misses(s)
  {
    FrontReaches(c, input, s, a);
    FrontChanges(c, input, s.front, a);
  }

  lemma SubmitAddsOne(c: Config, s: EncoderOutput.State)
    requires EncoderOutput.Inv(c.back, s) && s.writer.HoldingBuffer?
    ensures |s.encoder + {s.writer.b}| == |s.encoder| + 1
  {
    assert EncoderOutput.Places(s.pool.free, s.encoder, s.callback, s.writer, s.writer.b) <= 1;
  }

  lemma FillMovesOne(c: EncoderOutput.Config, s: EncoderOutput.State, b: nat)
    requires EncoderOutput.FillStep(c, s, b).Some?
    ensures var t := EncoderOutput.FillStep(c, s, b).value;
            |t.encoder| + 1 == |s.encoder| && |t.produced| == |s.produced| + 1
  {
    assert s.encoder == (s.encoder - {b}) + {b};
  }

  /** Buffers are submitted where the writer goes on to dequeue, and nowhere else. */
  lemma SubmitCounts(c: Config, s: EncoderOutput.State, a: EncoderOutput.Action)
    requires EncoderOutput.Inv(c.back, s) && EncoderOutput.Next(c.back, s, a).Some?
    ensures var t := EncoderOutput.Next(c.back, s, a).value;
            |t.encoder| + |t.produced| ==
            |s.encoder| + |s.produced| + if a.Writer? && s.writer.HoldingBuffer? then 1 else 0
  {
    match a
    case Writer =>
      if s.writer.HoldingBuffer? {
        SubmitAddsOne(c, s);
      }
    case Fill(b) => FillMovesOne(c.back, s, b);
    case _ =>
  }

  lemma BackKeepsInv(c: Config, input: seq<Pipeline.AvPacket>, s: State, a: EncoderOutput.Action)
    requires Inv(c, input, s) && BackStep(c, s, a).Some?
    ensures Inv(c, input, BackStep(c, s, a).value)
    ensures Misses(BackStep(c, s, a).value) == Misses(s)
  {
    EncoderOutput.ReachableInv(c.back, s.back);
    SubmitCounts(c, s.back, a);
    var back := GoOn(EncoderOutput.Steps(c.back), EncoderOutput.Init(c.back), s.back, a);
  }

  lemma AudioKeepsInv(c: Config, input: seq<Pipeline.AvPacket>, s: State)
    requires Inv(c, input, s) && AudioStep(s).Some?
    ensures Inv(c, input, AudioStep(s).value)
    ensures Misses(AudioStep(s).value) == Misses(s) + One(s.front.audioQ == [])
  {
    if s.front.audioQ != [] {
      var next := Pipeline.Steps(c.front, input);
      var front := GoOn(next, Pipeline.Init(c.front), s.front, Pipeline.TakeAudio);
    }
  }

  lemma StepKeepsInv(c: Config, input: seq<Pipeline.AvPacket>, s: State, a: Action)
    requires Inv(c, input, s) && Next(c, input, s, a).Some?
    ensures Inv(c, input, Next(c, input, s, a).value)
    ensures Misses(Next(c, input, s, a).value) == Misses(s) + One(a.WriteAudio? && s.front.audioQ == [])
  {
    match a
    case Front(f) => FrontKeepsInv(c, input, s, f);
    case Back(b) => BackKeepsInv(c, input, s, b);
    case WriteAudio => AudioKeepsInv(c, input, s);
    case Start =>
  }

  /** Every interleaving of all five parties is one of each of the two systems. */
  lemma ReachableInv(c: Config, input: seq<Pipeline.AvPacket>, s: State)
    requires Reachable(c, input, s)
    ensures Inv(c, input, s)
  {
    InitHolds(c, input);
    forall t: State, a: Action | Inv(c, input, t) && Steps(c, input)(t, a).Some?
      ensures Inv(c, input, Steps(c, input)(t, a).value)
    {
      StepKeepsInv(c, input, t, a);
    }
    HoldsWhereReached(Steps(c, input), Init(c), t => Inv(c, input, t), s);
  }

  // ---------------------------------------------------------------------------------------------
  // Audio

  /** The writer takes at most one audio packet for each buffer it submits, so only so many in all. */
  lemma AudioIsBounded(c: Config, input: seq<Pipeline.AvPacket>, s: State)
    requires Reachable(c, input, s)
    ensures |s.front.audioTaken| <= Submissions(s) <= c.back.n + |c.back.output|
  {
    ReachableInv(c, input, s);
    EncoderOutput.ReachableInv(c.back, s.back);
    EncoderOutput.EncoderIsBounded(c.back, s.back);
  }

  function AllAudio(c: Config, input: seq<Pipeline.AvPacket>): seq<Pipeline.AudioPacket> {
    Pipeline.AudioPackets(c.front, input)
  }

  /** Where the demultiplexer has finished, at most 101 audio packets are left; where it polls the audio
      queue, more are to come than fit there. */
  lemma AudioLeft(c: Config, input: seq<Pipeline.AvPacket>, s: State)
    requires ValidConfig(c) && Reachable(c, input, s)
    ensures |s.front.audioTaken| <= |AllAudio(c, input)|
    ensures s.front.videoFinished ==> |AllAudio(c, input)| <= |s.front.audioTaken| + 101
    ensures s.front.demux.HasAudio? && |s.front.audioQ| > Pipeline.QUEUE_LIMIT ==>
              |s.front.audioTaken| + 101 < |AllAudio(c, input)|
  {
    ReachableInv(c, input, s);
    PipelineTheorems.AudioIsPrefix(c.front, input, s.front);
    PipelineTheorems.QueuesStayShort(c.front, input, s.front);
    if s.front.demux.HasAudio? {
      HeldAudio(c.front, input, s.front);
    }
  }

  lemma HeldAudio(c: Pipeline.Config, input: seq<Pipeline.AvPacket>, s: Pipeline.State)
    requires Pipeline.ValidConfig(c) && Pipeline.Reachable(c, input, s) && s.demux.HasAudio?
    ensures |s.audioTaken| + |s.audioQ| + 1 <= |Pipeline.AudioPackets(c, input)|
  {
    PipelineSafety.ReachableInv(c, input, s);
    PipelineTheorems.AudioPacketsPrefix(c, input, s.pos);
  }
}

/** The demultiplexer, the decode thread and the decoder component as one step system.

Each action is one critical section, or one access to a variable that is read without its mutex, of
one of the three parties; an execution is any sequence of actions.  The values of the list counters
and of the lists agree between actions, because a counter is written once in each critical section.
The accesses are taken to be sequentially consistent.  The handlers of port-settings events are not
part of this model. */
module Pipeline {
  import opened Media
  import opened Timestamps
  import opened Chunking
  import opened BufferPools
  import opened Runs

  // ---------------------------------------------------------------------------------------------
  // State

  /** What av_read_frame delivers; no timestamp is AV_NOPTS_VALUE. */
  datatype AvPacket = AvPacket(stream: int, pts: Option<int64>, dts: int64, duration: int,
                               data: seq<byte>, flags: set<Flag>)

  datatype AudioPacket = AudioPacket(data: seq<byte>, pts: int64, dts: int64, duration: int)

  /** `rescale` is av_rescale_q to the OMX time base, `alloc` the room in each input buffer.
      `atomicGuard` says whether the two reads of the loop guard of decode_thread happen at once. */
  datatype Config = Config(videoIndex: int, audioIndex: int, rescale: int64 -> int64, alloc: seq<nat>,
                           atomicGuard: bool)

  predicate ValidConfig(c: Config) {
    |c.alloc| > 0 && forall b :: 0 <= b < |c.alloc| ==> c.alloc[b] > 0
  }

  datatype DemuxPc =
    | Reading
    | HasVideo(video: Packet)     // polls the length of the video queue
    | PassedVideo(video: Packet)  // has seen a length of at most 100
    | HasAudio(audio: AudioPacket)
    | PassedAudio(audio: AudioPacket)
    | FinishingAudio
    | Finished

  /** What decode_thread needs an input buffer for. */
  datatype Job = Piece(packet: Packet, off: nat) | StreamEnd

  datatype DecodePc =
    | Guard
    | SawEmpty              // has read queue_count == 0, not yet queue_finished
    | Get                   // about to lock the mutex of the video queue
    | AsleepOnQueue         // waits and has not been signalled
    | Need(job: Job)        // about to scan the input pool
    | AsleepOnPool(job: Job)
    | WokenOnPool(job: Job) // woken up, about to test the flag again
    | Holding(job: Job, buffer: nat)
    | Done

  datatype State = State(
    pos: nat,
    demux: DemuxPc,
    videoQ: seq<Packet>,
    audioQ: seq<AudioPacket>,
    videoFinished: bool,
    audioFinished: bool,
    decode: DecodePc,
    firstPacket: bool,
    pool: InPool,
    memory: seq<seq<byte>>,    // pBuffer of each input buffer
    inFlight: map<nat, Chunk>, // buffers at the decoder, and what was submitted in them
    got: seq<Packet>,          // history: the packets dequeued so far
    submitted: seq<Chunk>,     // history: the buffers submitted so far
    audioTaken: seq<AudioPacket>) // history: the audio packets the writer has dequeued

  function Init(c: Config): State {
    State(0, Reading, [], [], false, false, Guard, true,
          InPool(seq(|c.alloc|, _ => 0), true), seq(|c.alloc|, _ => []), map[], [], [], [])
  }

  // ---------------------------------------------------------------------------------------------
  // Steps

  const QUEUE_LIMIT := 100

  function DemuxStep(c: Config, input: seq<AvPacket>, s: State): Option<State> {
    match s.demux
    case Reading =>
      if s.pos >= |input| then
        Some(s.(videoFinished := true, demux := FinishingAudio))
      else
        var f := input[s.pos];
        var pc :=
          if f.stream == c.videoIndex then
            if f.pts.None? then Reading
            else HasVideo(Packet(f.data, c.rescale(f.pts.value), f.flags))
          else if f.stream == c.audioIndex then
            if f.pts.None? then Reading
            else HasAudio(AudioPacket(f.data, f.pts.value, f.dts, f.duration))
          else Reading;
        Some(s.(pos := s.pos + 1, demux := pc))
    case HasVideo(p) =>
      if |s.videoQ| > QUEUE_LIMIT then None else Some(s.(demux := PassedVideo(p)))
    case PassedVideo(p) =>
      var wake := s.videoQ == [] && s.decode == AsleepOnQueue;
      Some(s.(demux := Reading, videoQ := s.videoQ + [p], decode := if wake then Get else s.decode))
    case HasAudio(a) =>
      if |s.audioQ| > QUEUE_LIMIT then None else Some(s.(demux := PassedAudio(a)))
    case PassedAudio(a) =>
      Some(s.(demux := Reading, audioQ := s.audioQ + [a]))
    case FinishingAudio =>
      Some(s.(audioFinished := true, demux := Finished))
    case Finished =>
      None
  }

  /** packet_queue_get_next_item on a non-empty queue */
  function Dequeue(s: State): State
    requires s.videoQ != []
  {
    s.(videoQ := s.videoQ[1..], got := s.got + [s.videoQ[0]], decode := Need(Piece(s.videoQ[0], 0)))
  }

  /** One pass of omx_get_next_input_buffer */
  function Scan(s: State, job: Job): State {
    var (pool, found) := TakeIn(s.pool);
    s.(pool := pool, decode := if found.Some? then Holding(job, found.value) else AsleepOnPool(job))
  }

  predicate HasBuffer(c: Config, s: State, b: nat) {
    b < |c.alloc| && b < |s.memory| && b < |s.pool.filled|
  }

  /** Lines 60-83 and 186: the next bytes of `p` go into buffer `b`, and the buffer to the decoder. */
  function Submit(c: Config, s: State, p: Packet, off: nat, b: nat): State
    requires HasBuffer(c, s, b) && off <= |p.data|
  {
    var chunk := NextChunk(p, off, b, c.alloc[b], s.firstPacket);
    s.(decode := Need(Piece(p, off + |chunk.data|)),
       firstPacket := false,
       pool := s.pool.(filled := s.pool.filled[b := |chunk.data|]),
       memory := s.memory[b := chunk.data],
       inFlight := s.inFlight[b := chunk],
       submitted := s.submitted + [chunk])
  }

  /** Lines 197-200: the empty last buffer. */
  function SubmitEnd(s: State, b: nat): State
    requires b < |s.pool.filled|
  {
    s.(decode := Done,
       pool := s.pool.(filled := s.pool.filled[b := 0]),
       inFlight := s.inFlight[b := EosChunk(b)],
       submitted := s.submitted + [EosChunk(b)])
  }

  function DecodeStep(c: Config, s: State): Option<State> {
    match s.decode
    case Guard =>
      if s.videoQ != [] then Some(s.(decode := Get))
      else if !c.atomicGuard then Some(s.(decode := SawEmpty))
      else if !s.videoFinished then Some(s.(decode := Get))
      else Some(s.(decode := Need(StreamEnd)))
    case SawEmpty =>
      Some(s.(decode := if !s.videoFinished then Get else Need(StreamEnd)))
    case Get =>
      if s.videoQ == [] then Some(s.(decode := AsleepOnQueue)) else Some(Dequeue(s))
    case Need(job) =>
      if job.Piece? && job.off >= |job.packet.data| then Some(s.(decode := Guard)) else Some(Scan(s, job))
    case WokenOnPool(job) =>
      Some(s.(decode := if s.pool.notempty then Need(job) else AsleepOnPool(job)))
    case Holding(Piece(p, off), b) =>
      if HasBuffer(c, s, b) && off <= |p.data| then Some(Submit(c, s, p, off, b)) else None
    case Holding(StreamEnd, b) =>
      if HasBuffer(c, s, b) then Some(SubmitEnd(s, b)) else None
    case _ =>
      None
  }

  /** The decoder empties buffer `b` and runs omx_empty_buffer_done, as one action. */
  function DecoderStep(s: State, b: nat): Option<State> {
    if b !in s.inFlight || b >= |s.pool.filled| then None else
    var wake := !s.pool.notempty && s.decode.AsleepOnPool?;
    Some(s.(pool := EmptyDone(s.pool, b),
            inFlight := s.inFlight - {b},
            decode := if wake then WokenOnPool(s.decode.job) else s.decode))
  }

  /** A wait on a condition variable may end without a signal. */
  function SpuriousStep(s: State): Option<State> {
    match s.decode
    case AsleepOnQueue => Some(s.(decode := Get))
    case AsleepOnPool(job) => Some(s.(decode := WokenOnPool(job)))
    case _ => None
  }

  /** The writer's packet_queue_get_next_item_asynch on the audio queue */
  function TakeAudioPacket(s: State): State
    requires s.audioQ != []
  {
    s.(audioQ := s.audioQ[1..], audioTaken := s.audioTaken + [s.audioQ[0]])
  }

  datatype Action =
    | Demux
    | Decode
    | Decoder(buffer: nat)
    | Spurious
    | TakeAudio  // the writer dequeues an audio packet

  function Next(c: Config, input: seq<AvPacket>, s: State, a: Action): Option<State> {
    match a
    case Demux => DemuxStep(c, input, s)
    case Decode => DecodeStep(c, s)
    case Decoder(b) => DecoderStep(s, b)
    case Spurious => SpuriousStep(s)
    case TakeAudio => if s.audioQ == [] then None else Some(TakeAudioPacket(s))
  }

  function Steps(c: Config, input: seq<AvPacket>): (State, Action) -> Option<State> {
    (s, a) => Next(c, input, s, a)
  }

  ghost predicate Reachable(c: Config, input: seq<AvPacket>, s: State) {
    Reaches(Steps(c, input), Init(c), s)
  }

  // ---------------------------------------------------------------------------------------------
  // Specification: what should reach the decoder

  /** The video packets among the frames read: those of the video stream that carry a timestamp. */
  function VideoPackets(c: Config, frames: seq<AvPacket>): seq<Packet> {
    if frames == [] then [] else
    var f := frames[|frames| - 1];
    VideoPackets(c, frames[..|frames| - 1])
    + if f.stream == c.videoIndex && f.pts.Some? then [Packet(f.data, c.rescale(f.pts.value), f.flags)] else []
  }

  /** The packets of the audio stream that carry a timestamp; the video stream goes first if both have
      the same index. */
  function AudioPackets(c: Config, frames: seq<AvPacket>): seq<AudioPacket> {
    if frames == [] then [] else
    var f := frames[|frames| - 1];
    AudioPackets(c, frames[..|frames| - 1])
    + if f.stream != c.videoIndex && f.stream == c.audioIndex && f.pts.Some?
      then [AudioPacket(f.data, f.pts.value, f.dts, f.duration)] else []
  }

  /** The submitted buffers that carry data: all but a final end-of-stream buffer. */
  function DataPart(s: State): seq<Chunk> {
    DataOf(s.decode.Done?, s.submitted)
  }

  function DataOf(done: bool, submitted: seq<Chunk>): seq<Chunk> {
    if done && submitted != [] then submitted[..|submitted| - 1] else submitted
  }
}

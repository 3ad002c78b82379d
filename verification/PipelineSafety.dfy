/** What holds in every reachable state of the demultiplexer and the decode thread. */
module PipelineSafety {
  import opened Media
  import opened Chunking
  import opened BufferPools
  import opened Pipeline
  import opened Runs

  // ---------------------------------------------------------------------------------------------
  // Invariants

  function InHand(pc: DemuxPc): seq<Packet> {
    if pc.HasVideo? || pc.PassedVideo? then [pc.video] else []
  }

  /** Nothing is lost between av_read_frame and the dequeue. */
  ghost predicate Accounted(c: Config, frames: seq<AvPacket>, got: seq<Packet>, queue: seq<Packet>, demux: DemuxPc) {
    got + queue + InHand(demux) == VideoPackets(c, frames)
  }

  function AudioInHand(pc: DemuxPc): seq<AudioPacket> {
    if pc.HasAudio? || pc.PassedAudio? then [pc.audio] else []
  }

  ghost predicate AudioAccounted(c: Config, frames: seq<AvPacket>, taken: seq<AudioPacket>, queue: seq<AudioPacket>,
                                 demux: DemuxPc) {
    taken + queue + AudioInHand(demux) == AudioPackets(c, frames)
  }

  /** The demultiplexer and the queues, which stay short. */
  ghost predicate DemuxInv(c: Config, input: seq<AvPacket>, s: State) {
    && s.pos <= |input|
    && Accounted(c, input[..s.pos], s.got, s.videoQ, s.demux)
    && AudioAccounted(c, input[..s.pos], s.audioTaken, s.audioQ, s.demux)
    && (s.videoFinished <==> s.demux.FinishingAudio? || s.demux.Finished?)
    && (s.videoFinished ==> s.pos == |input|)
    && (s.audioFinished <==> s.demux.Finished?)
    && |s.videoQ| <= QUEUE_LIMIT + 1 && (s.demux.PassedVideo? ==> |s.videoQ| <= QUEUE_LIMIT)
    && |s.audioQ| <= QUEUE_LIMIT + 1 && (s.demux.PassedAudio? ==> |s.audioQ| <= QUEUE_LIMIT)
    && (s.decode.AsleepOnQueue? ==> s.videoQ == [])
  }

  ghost predicate JobInv(got: seq<Packet>, submitted: seq<Chunk>, job: Job) {
    match job
    case Piece(p, off) =>
      && got != [] && p == got[|got| - 1]
      && off <= |p.data|
      && SentPart(got[..|got| - 1], p, off, submitted)
    case StreamEnd =>
      Sent(got, submitted)
  }

  /** The job of a decode thread that is busy sending something. */
  function JobOf(decode: DecodePc): Option<Job> {
    match decode
    case Need(job) => Some(job)
    case AsleepOnPool(job) => Some(job)
    case WokenOnPool(job) => Some(job)
    case Holding(job, _) => Some(job)
    case _ => None
  }

  /** What has been submitted is exactly what was dequeued. */
  ghost predicate SubmittedInv(decode: DecodePc, got: seq<Packet>, submitted: seq<Chunk>) {
    match JobOf(decode)
    case Some(job) => JobInv(got, submitted, job)
    case None =>
      && Sent(got, DataOf(decode.Done?, submitted))
      && (decode.Done? ==> submitted != [] && IsEos(submitted[|submitted| - 1]))
  }

  ghost predicate IsEos(chunk: Chunk) {
    chunk == EosChunk(chunk.buffer)
  }

  /** The decode thread has left its loop. */
  predicate LeftLoop(s: State) {
    s.decode.Done? || JobOf(s.decode) == Some(StreamEnd)
  }

  ghost predicate DecodeInv(c: Config, s: State) {
    && SubmittedInv(s.decode, s.got, s.submitted)
    && (s.firstPacket <==> DataPart(s) == [])
    && (LeftLoop(s) ==> s.videoFinished && (c.atomicGuard ==> s.videoQ == []))
    && (s.decode.SawEmpty? ==> !c.atomicGuard)
    && Unsent(s.decode)
  }

  /** A thread that has asked for a buffer has something to put into it. */
  predicate Unsent(decode: DecodePc) {
    decode.Need? || match JobOf(decode) case Some(Piece(p, off)) => off < |p.data| case _ => true
  }

  /** A buffer is as its submission left it, if it is at the decoder, and empty otherwise. */
  ghost predicate BufferInv(filled: seq<nat>, memory: seq<seq<byte>>, inFlight: map<nat, Chunk>, done: bool, b: nat)
    requires b < |filled| && b < |memory|
  {
    if b in inFlight then
      && filled[b] == |inFlight[b].data| <= |memory[b]|
      && memory[b][..filled[b]] == inFlight[b].data
      && (inFlight[b].data == [] ==> done)
    else
      filled[b] == 0
  }

  ghost predicate BuffersInv(n: nat, filled: seq<nat>, memory: seq<seq<byte>>, inFlight: map<nat, Chunk>, done: bool) {
    && |filled| == |memory| == n
    && (forall b :: b in inFlight ==> b < n)
    && (forall b {:trigger BufferInv(filled, memory, inFlight, done, b)} :: 0 <= b < n ==>
      BufferInv(filled, memory, inFlight, done, b))
  }

  ghost predicate AllFull(filled: seq<nat>) {
    forall b :: 0 <= b < |filled| ==> filled[b] > 0
  }

  /** What is submitted fits its buffer, fills it unless it ends its packet, and is something; and only the
      first starts the clock. */
  ghost predicate AllProper(alloc: seq<nat>, data: seq<Chunk>) {
    forall i :: 0 <= i < |data| ==>
      && data[i].buffer < |alloc| && 0 < |data[i].data| <= alloc[data[i].buffer]
      && (EndOfFrame !in data[i].flags ==> |data[i].data| == alloc[data[i].buffer])
      && EndOfStream !in data[i].flags
      && (StartTime in data[i].flags <==> i == 0)
  }

  ghost predicate PoolInv(c: Config, s: State) {
    && BuffersInv(|c.alloc|, s.pool.filled, s.memory, s.inFlight, s.decode.Done?)
    && (!s.pool.notempty ==> AllFull(s.pool.filled))
    && (s.decode.AsleepOnPool? ==> !s.pool.notempty)
    && (s.decode.Holding? ==> s.decode.buffer < |c.alloc| && s.decode.buffer !in s.inFlight)
    && AllProper(c.alloc, DataPart(s))
    && (s.decode.Done? ==> s.submitted != [] && s.submitted[|s.submitted| - 1].buffer < |c.alloc|)
  }

  ghost predicate Inv(c: Config, input: seq<AvPacket>, s: State) {
    DemuxInv(c, input, s) && DecodeInv(c, s) && PoolInv(c, s)
  }

  // ---------------------------------------------------------------------------------------------
  // Preservation, action by action

  lemma InitHolds(c: Config, input: seq<AvPacket>)
    requires ValidConfig(c)
    ensures Inv(c, input, Init(c))
  {
    var s := Init(c);
    forall b | 0 <= b < |c.alloc| ensures BufferInv(s.pool.filled, s.memory, s.inFlight, false, b) {
    }
  }

  /** The demultiplexer reads a frame and keeps it in hand, if it is to go into a queue. */
  lemma ReadKeepsDemuxInv(c: Config, input: seq<AvPacket>, s: State)
    requires DemuxInv(c, input, s) && s.demux.Reading? && s.pos < |input|
    ensures DemuxInv(c, input, DemuxStep(c, input, s).value)
  {
    var s' := DemuxStep(c, input, s).value;
    assert input[..s.pos + 1][..s.pos] == input[..s.pos];
    assert Accounted(c, input[..s'.pos], s'.got, s'.videoQ, s'.demux);
    assert AudioAccounted(c, input[..s'.pos], s'.audioTaken, s'.audioQ, s'.demux);
  }

  lemma DemuxKeepsDemuxInv(c: Config, input: seq<AvPacket>, s: State)
    requires DemuxInv(c, input, s) && DemuxStep(c, input, s).Some?
    ensures DemuxInv(c, input, DemuxStep(c, input, s).value)
  {
    if s.demux.Reading? && s.pos < |input| {
      ReadKeepsDemuxInv(c, input, s);
    }
  }

  /** The demultiplexer only adds to the queue, wakes the decode thread, and sets its flags. */
  ghost predicate SameForDecode(s: State, s': State) {
    && s' == s.(pos := s'.pos, demux := s'.demux, videoQ := s'.videoQ, audioQ := s'.audioQ, decode := s'.decode,
                videoFinished := s'.videoFinished, audioFinished := s'.audioFinished)
    && (s'.decode == s.decode || (s.decode.AsleepOnQueue? && s'.decode.Get?))
    && (s.videoFinished ==> s'.videoFinished && s'.videoQ == s.videoQ)
  }

  lemma SameForDecodeKeeps(c: Config, s: State, s': State)
    requires DecodeInv(c, s) && PoolInv(c, s) && SameForDecode(s, s')
    ensures DecodeInv(c, s') && PoolInv(c, s')
  {
    assert JobOf(s'.decode) == JobOf(s.decode) && s'.decode.Done? == s.decode.Done?;
  }

  lemma DemuxKeepsTheRest(c: Config, input: seq<AvPacket>, s: State)
    requires DemuxInv(c, input, s) && DemuxStep(c, input, s).Some?
    ensures SameForDecode(s, DemuxStep(c, input, s).value)
  {
  }

  lemma ScanKeepsInv(c: Config, input: seq<AvPacket>, s: State, job: Job)
    requires Inv(c, input, s) && s.decode == Need(job)
    requires job.Piece? ==> job.off < |job.packet.data|
    ensures Inv(c, input, Scan(s, job))
  {
    var found := FirstFree(s.pool.filled);
    if found.Some? {
      assert BufferInv(s.pool.filled, s.memory, s.inFlight, false, found.value);
    }
  }

  /** The loop over the bytes of a packet ends. */
  lemma PacketDoneKeepsInv(c: Config, input: seq<AvPacket>, s: State, p: Packet, off: nat)
    requires Inv(c, input, s) && s.decode == Need(Piece(p, off)) && off >= |p.data|
    ensures Inv(c, input, s.(decode := Guard))
  {
    assert s.got == s.got[..|s.got| - 1] + [p];
  }

  /** Steps that only move the program counter of the decode thread. */
  lemma MoveKeepsInv(c: Config, input: seq<AvPacket>, s: State, pc: DecodePc)
    requires Inv(c, input, s)
    requires !s.decode.Need?
    requires JobOf(pc) == JobOf(s.decode) || (JobOf(s.decode).None? && JobOf(pc) == Some(StreamEnd))
    requires !pc.Holding? && pc.Done? == s.decode.Done?
    requires (pc.AsleepOnPool? ==> !s.pool.notempty) && (pc.AsleepOnQueue? ==> s.videoQ == [])
    requires pc.SawEmpty? ==> !c.atomicGuard
    requires LeftLoop(s.(decode := pc)) ==> s.videoFinished && (c.atomicGuard ==> s.videoQ == [])
    ensures Inv(c, input, s.(decode := pc))
  {
    assert SubmittedInv(pc, s.got, s.submitted) && Unsent(pc);
  }

  /** The decode thread moves on without touching a queue or a pool. */
  predicate IsControl(s: State) {
    s.decode.Guard? || s.decode.SawEmpty? || s.decode.WokenOnPool? || (s.decode.Get? && s.videoQ == [])
  }

  lemma ControlMoves(c: Config, s: State)
    requires IsControl(s) && DecodeStep(c, s).Some?
    ensures var pc := DecodeStep(c, s).value.decode;
            && DecodeStep(c, s) == Some(s.(decode := pc))
            && !pc.Holding? && !pc.Done? && !s.decode.Done?
            && (pc.AsleepOnPool? ==> !s.pool.notempty) && (pc.AsleepOnQueue? ==> s.videoQ == [])
            && (pc.SawEmpty? ==> !c.atomicGuard)
            && (JobOf(pc) == JobOf(s.decode)
                || (&& JobOf(s.decode).None? && JobOf(pc) == Some(StreamEnd)
                    && s.videoFinished && (s.decode.Guard? ==> s.videoQ == [])))
            && (s.decode.WokenOnPool? ==> JobOf(pc) == JobOf(s.decode))
            && (JobOf(pc) != JobOf(s.decode) ==> s.decode.Guard? || s.decode.SawEmpty?)
  {
  }

  lemma ControlKeepsInv(c: Config, input: seq<AvPacket>, s: State)
    requires Inv(c, input, s) && IsControl(s) && DecodeStep(c, s).Some?
    ensures Inv(c, input, DecodeStep(c, s).value)
  {
    ControlMoves(c, s);
    MoveKeepsInv(c, input, s, DecodeStep(c, s).value.decode);
  }

  lemma DequeueKeepsInv(c: Config, input: seq<AvPacket>, s: State)
    requires Inv(c, input, s) && s.decode.Get? && s.videoQ != []
    ensures Inv(c, input, Dequeue(s))
  {
    var s' := Dequeue(s);
    SendStarts(s.got, s.videoQ[0], s.submitted);
    assert s'.got[..|s'.got| - 1] == s.got;
    assert s'.got + s'.videoQ == s.got + s.videoQ;
  }

  lemma SubmitKeepsSent(got: seq<Packet>, submitted: seq<Chunk>, p: Packet, off: nat, b: nat, alloc: nat)
    requires JobInv(got, submitted, Piece(p, off)) && off < |p.data| && alloc > 0
    ensures var chunk := NextChunk(p, off, b, alloc, submitted == []);
            JobInv(got, submitted + [chunk], Piece(p, off + |chunk.data|))
  {
    SendContinues(got[..|got| - 1], p, off, submitted, b, alloc);
  }

  lemma HeldJob(c: Config, s: State, p: Packet, off: nat, b: nat)
    requires DecodeInv(c, s) && s.decode == Holding(Piece(p, off), b)
    ensures JobInv(s.got, s.submitted, Piece(p, off)) && off < |p.data|
    ensures s.firstPacket <==> s.submitted == []
  {
  }

  lemma WhileSending(c: Config, s: State, job: Job)
    requires s.decode == Need(job) && job.Piece? && JobInv(s.got, s.submitted, job)
    requires !s.firstPacket && s.submitted != []
    ensures DecodeInv(c, s)
  {
    assert DataPart(s) == s.submitted;
  }

  lemma SubmitKeepsDecodeInv(c: Config, s: State, p: Packet, off: nat, b: nat)
    requires ValidConfig(c) && DecodeInv(c, s)
    requires s.decode == Holding(Piece(p, off), b) && HasBuffer(c, s, b) && off <= |p.data|
    ensures DecodeInv(c, Submit(c, s, p, off, b))
  {
    var s' := Submit(c, s, p, off, b);
    HeldJob(c, s, p, off, b);
    SubmitKeepsSent(s.got, s.submitted, p, off, b, c.alloc[b]);
    WhileSending(c, s', s'.decode.job);
  }

  /** The new buffer at the decoder holds what was submitted in it, and the others are as they were. */
  lemma SubmitKeepsBuffers(n: nat, filled: seq<nat>, memory: seq<seq<byte>>, inFlight: map<nat, Chunk>, b: nat,
                           chunk: Chunk)
    requires BuffersInv(n, filled, memory, inFlight, false) && b < n && chunk.data != []
    ensures BuffersInv(n, filled[b := |chunk.data|], memory[b := chunk.data], inFlight[b := chunk], false)
  {
    var filled', memory', inFlight' := filled[b := |chunk.data|], memory[b := chunk.data], inFlight[b := chunk];
    forall i | 0 <= i < n ensures BufferInv(filled', memory', inFlight', false, i) {
      assert BufferInv(filled, memory, inFlight, false, i);
    }
  }

  lemma SubmitKeepsProper(alloc: seq<nat>, submitted: seq<Chunk>, p: Packet, off: nat, b: nat)
    requires AllProper(alloc, submitted) && off < |p.data| && b < |alloc| && alloc[b] > 0
    ensures AllProper(alloc, submitted + [NextChunk(p, off, b, alloc[b], submitted == [])])
  {
  }

  lemma SubmitKeepsPoolInv(c: Config, s: State, p: Packet, off: nat, b: nat)
    requires ValidConfig(c) && DecodeInv(c, s) && PoolInv(c, s)
    requires s.decode == Holding(Piece(p, off), b) && HasBuffer(c, s, b) && off <= |p.data|
    ensures PoolInv(c, Submit(c, s, p, off, b))
  {
    assert s.firstPacket <==> s.submitted == [];
    SubmitKeepsBuffers(|c.alloc|, s.pool.filled, s.memory, s.inFlight, b,
                       NextChunk(p, off, b, c.alloc[b], s.firstPacket));
    SubmitKeepsProper(c.alloc, s.submitted, p, off, b);
    assert DataPart(Submit(c, s, p, off, b)) == Submit(c, s, p, off, b).submitted;
  }

  lemma SubmitEndKeepsInv(c: Config, input: seq<AvPacket>, s: State, b: nat)
    requires Inv(c, input, s) && s.decode == Holding(StreamEnd, b) && HasBuffer(c, s, b)
    ensures Inv(c, input, SubmitEnd(s, b))
  {
    var s' := SubmitEnd(s, b);
    assert DataPart(s') == s.submitted;
    assert BufferInv(s.pool.filled, s.memory, s.inFlight, false, b);
    forall i | 0 <= i < |c.alloc| ensures BufferInv(s'.pool.filled, s'.memory, s'.inFlight, true, i) {
      assert BufferInv(s.pool.filled, s.memory, s.inFlight, false, i);
    }
  }

  lemma DecoderKeepsInv(c: Config, input: seq<AvPacket>, s: State, b: nat)
    requires Inv(c, input, s) && DecoderStep(s, b).Some?
    ensures Inv(c, input, DecoderStep(s, b).value)
  {
    var s' := DecoderStep(s, b).value;
    forall i | 0 <= i < |c.alloc| ensures BufferInv(s'.pool.filled, s'.memory, s'.inFlight, s.decode.Done?, i) {
      assert BufferInv(s.pool.filled, s.memory, s.inFlight, s.decode.Done?, i);
    }
  }

  lemma SpuriousKeepsInv(c: Config, input: seq<AvPacket>, s: State)
    requires Inv(c, input, s) && SpuriousStep(s).Some?
    ensures Inv(c, input, SpuriousStep(s).value)
  {
    var pc := SpuriousStep(s).value.decode;
    assert SpuriousStep(s).value == s.(decode := pc);
    MoveKeepsInv(c, input, s, pc);
  }

  lemma TakeAudioKeepsInv(c: Config, input: seq<AvPacket>, s: State)
    requires Inv(c, input, s) && s.audioQ != []
    ensures Inv(c, input, TakeAudioPacket(s))
  {
    assert s.audioTaken + [s.audioQ[0]] + s.audioQ[1..] == s.audioTaken + s.audioQ;
  }

  lemma StepKeepsInv(c: Config, input: seq<AvPacket>, s: State, a: Action)
    requires ValidConfig(c) && Inv(c, input, s) && Next(c, input, s, a).Some?
    ensures Inv(c, input, Next(c, input, s, a).value)
  {
    match a
    case Demux =>
      DemuxKeepsDemuxInv(c, input, s);
      DemuxKeepsTheRest(c, input, s);
      SameForDecodeKeeps(c, s, Next(c, input, s, a).value);
    case Decode =>
      if IsControl(s) {
        ControlKeepsInv(c, input, s);
      } else {
        match s.decode
        case Holding(Piece(p, off), b) =>
          SubmitKeepsDecodeInv(c, s, p, off, b);
          SubmitKeepsPoolInv(c, s, p, off, b);
        case Holding(StreamEnd, b) => SubmitEndKeepsInv(c, input, s, b);
        case Need(job) =>
          if job.Piece? && job.off >= |job.packet.data| {
            PacketDoneKeepsInv(c, input, s, job.packet, job.off);
          } else {
            ScanKeepsInv(c, input, s, job);
          }
        case Get => DequeueKeepsInv(c, input, s);
      }
    case Decoder(b) =>
      DecoderKeepsInv(c, input, s, b);
    case Spurious =>
      SpuriousKeepsInv(c, input, s);
    case TakeAudio =>
      TakeAudioKeepsInv(c, input, s);
  }

  /** Every state that some run reaches satisfies the invariants. */
  lemma ReachableInv(c: Config, input: seq<AvPacket>, s: State)
    requires ValidConfig(c) && Reachable(c, input, s)
    ensures Inv(c, input, s)
  {
    InitHolds(c, input);
    forall t: State, a: Action | Inv(c, input, t) && Steps(c, input)(t, a).Some?
      ensures Inv(c, input, Steps(c, input)(t, a).value)
    {
      StepKeepsInv(c, input, t, a);
    }
    HoldsWhereReached(Steps(c, input), Init(c), t => Inv(c, input, t), s);
  }
}

/** The writer thread and the encoder component: the output buffers that go round between them, the
queue of encoded packets, and the output file.

As in the other step system, an action is one critical section, or one access to a shared variable.
The encoder may run its callback for several buffers at a time, and it may raise its end-of-stream
event at any time.  The start-up of the writer is not part of this model: it begins at its main loop,
with all buffers allocated. */
module EncoderOutput {
  import opened Media
  import opened Timestamps
  import opened NalSpec
  import opened BufferPools
  import opened Runs

  /** The number of output buffers, all that the encoder will put into buffers, one after the other, and
      av_rescale_q to the time base of the output stream. */
  datatype Config = Config(n: nat, output: seq<Fragment>, rescale: int64 -> int64)

  predicate ValidConfig(c: Config) {
    Acceptable(c.output)
  }

  datatype WriterPc =
    | Top                    // the test of the main loop
    | SawEos                 // has read that eos is set, not yet queue_finished
    | Taking                 // inside omx_get_next_output_buffer, about to lock the mutex
    | Asleep                 // waits for a buffer and has not been signalled
    | HoldingBuffer(b: nat)
    | Dequeuing              // has submitted a buffer, about to look into the queue
    | Exited

  datatype State = State(
    pool: OutPool<nat>,
    encoder: set<nat>,       // submitted, not yet filled
    callback: set<nat>,      // filled and queued, not yet returned to the pool
    writer: WriterPc,
    queue: seq<Fragment>,    // encoded_video_queue
    eos: bool,
    audioFinished: bool,
    mux: Mux,
    produced: seq<Fragment>, // history: the packets encoded so far
    taken: seq<Fragment>,    // history: the packets dequeued
    clock: nat,              // history: counts the returns to the pool
    stamps: seq<nat>)        // history: when each buffer was last put into the pool

  /** omx_alloc_buffers links the buffers in the order of their allocation. */
  function InOrder(n: nat): (r: seq<nat>)
    ensures |r| == n
    ensures forall i :: 0 <= i < n ==> r[i] == i
  {
    if n == 0 then [] else InOrder(n - 1) + [n - 1]
  }

  function Init(c: Config): State {
    State(OutPool(InOrder(c.n), true), {}, {}, Top, [], false, false, INITIAL_MUX, [], [], c.n, InOrder(c.n))
  }

  // ---------------------------------------------------------------------------------------------
  // Steps

  function Dequeue(c: Config, s: State): State {
    if s.queue == [] then s.(writer := Top) else
    s.(queue := s.queue[1..],
       taken := s.taken + [s.queue[0]],
       mux := Step(c.rescale, s.mux, s.queue[0]),
       writer := Top)
  }

  function TakeBuffer(s: State): State {
    var (pool, taken) := Take(s.pool);
    s.(pool := pool,
       writer := match taken
                 case Sleep => Asleep
                 case Retry => Taking
                 case Got(b) => HoldingBuffer(b))
  }

  function WriterStep(c: Config, s: State): Option<State> {
    match s.writer
    case Top => Some(s.(writer := if s.eos then SawEos else Taking))
    case SawEos => Some(s.(writer := if s.audioFinished then Exited else Taking))
    case Taking => Some(TakeBuffer(s))
    case HoldingBuffer(b) => Some(s.(encoder := s.encoder + {b}, writer := Dequeuing))
    case Dequeuing => Some(Dequeue(c, s))
    case _ => None
  }

  /** The encoder has nothing left to put into a buffer. */
  predicate NothingToCome(c: Config, s: State) {
    |s.produced| >= |c.output|
  }

  /** The encoder has filled buffer `b`: its callback copies the bytes into a packet and enqueues it. */
  function FillStep(c: Config, s: State, b: nat): Option<State> {
    if b !in s.encoder || NothingToCome(c, s) then None else
    var f := c.output[|s.produced|];
    Some(s.(encoder := s.encoder - {b}, callback := s.callback + {b},
            queue := s.queue + [f], produced := s.produced + [f]))
  }

  /** The end of the callback: the buffer goes back to the pool. */
  function ReturnStep(s: State, b: nat): Option<State> {
    if b !in s.callback || b >= |s.stamps| then None else
    Some(s.(callback := s.callback - {b},
            pool := Return(s.pool, b),
            writer := if !s.pool.notempty && s.writer == Asleep then Taking else s.writer,
            clock := s.clock + 1,
            stamps := s.stamps[b := s.clock]))
  }

  datatype Action =
    | Writer
    | Fill(buffer: nat)
    | ReturnBuffer(buffer: nat)
    | Spurious
    | EncoderEos
    | AudioEnds

  function Next(c: Config, s: State, a: Action): Option<State> {
    match a
    case Writer => WriterStep(c, s)
    case Fill(b) => FillStep(c, s, b)
    case ReturnBuffer(b) => ReturnStep(s, b)
    case Spurious => if s.writer == Asleep then Some(s.(writer := Taking)) else None
    case EncoderEos => if s.eos then None else Some(s.(eos := true))
    case AudioEnds => if s.audioFinished then None else Some(s.(audioFinished := true))
  }

  function Steps(c: Config): (State, Action) -> Option<State> {
    (s, a) => Next(c, s, a)
  }

  ghost predicate Reachable(c: Config, s: State) {
    Reaches(Steps(c), Init(c), s)
  }

  // ---------------------------------------------------------------------------------------------
  // Invariants

  /** In how many places buffer `b` is. */
  function Places(free: seq<nat>, encoder: set<nat>, callback: set<nat>, writer: WriterPc, b: nat): nat {
    multiset(free)[b] + (if b in encoder then 1 else 0) + (if b in callback then 1 else 0)
    + (if writer == HoldingBuffer(b) then 1 else 0)
  }

  ghost predicate Conserved(n: nat, free: seq<nat>, encoder: set<nat>, callback: set<nat>, writer: WriterPc) {
    forall b: nat {:trigger Places(free, encoder, callback, writer, b)} ::
      Places(free, encoder, callback, writer, b) == if b < n then 1 else 0
  }

  /** The free buffers in the order in which they came back. */
  ghost predicate Ordered(free: seq<nat>, stamps: seq<nat>, clock: nat) {
    && (forall i :: 0 <= i < |free| ==> free[i] < |stamps|)
    && (forall i :: 0 <= i < |stamps| ==> stamps[i] < clock)
    && (forall i, j :: 0 <= i < j < |free| ==> stamps[free[i]] < stamps[free[j]])
  }

  ghost predicate PoolInv(c: Config, s: State) {
    && Conserved(c.n, s.pool.free, s.encoder, s.callback, s.writer)
    && (!s.pool.notempty ==> s.pool.free == [])
    && (s.writer == Asleep ==> !s.pool.notempty)
    && |s.stamps| == c.n
    && Ordered(s.pool.free, s.stamps, s.clock)
  }

  ghost predicate QueueInv(c: Config, s: State) {
    && s.taken + s.queue == s.produced
    && s.mux == Run(c.rescale, s.taken)
    && s.produced <= c.output
    && |s.queue| + |s.encoder| <= c.n + if s.writer == Dequeuing then 1 else 0
  }

  ghost predicate Inv(c: Config, s: State) {
    PoolInv(c, s) && QueueInv(c, s)
  }

  // ---------------------------------------------------------------------------------------------
  // Preservation

  lemma {:induction false} EachOnce(n: nat, b: nat)
    ensures multiset(InOrder(n))[b] == if b < n then 1 else 0
  {
    if n > 0 {
      EachOnce(n - 1, b);
    }
  }

  lemma InOrderIsOrdered(n: nat)
    ensures Ordered(InOrder(n), InOrder(n), n)
  {
  }

  lemma AllFreeIsConserved(n: nat)
    ensures Conserved(n, InOrder(n), {}, {}, Top)
  {
    forall b: nat ensures Places(InOrder(n), {}, {}, Top, b) == if b < n then 1 else 0 {
      EachOnce(n, b);
    }
  }

  lemma InitHolds(c: Config)
    ensures Inv(c, Init(c))
  {
    InOrderIsOrdered(c.n);
    AllFreeIsConserved(c.n);
  }

  /** Nobody holds more buffers than there are. */
  lemma EncoderIsBounded(c: Config, s: State)
    requires PoolInv(c, s)
    ensures |s.encoder| <= c.n
  {
    forall b | b in s.encoder ensures b in Below(c.n) {
      assert Places(s.pool.free, s.encoder, s.callback, s.writer, b) == if b < c.n then 1 else 0;
    }
    SubsetIsSmaller(s.encoder, Below(c.n));
  }

  lemma SubsetIsSmaller(a: set<nat>, b: set<nat>)
    requires a <= b
    ensures |a| <= |b|
  {
    assert b == a + (b - a);
  }

  lemma CountLast(s: seq<nat>, b: nat)
    requires s != []
    ensures multiset(s)[b] == multiset(s[..|s| - 1])[b] + if s[|s| - 1] == b then 1 else 0
  {
    assert s == s[..|s| - 1] + [s[|s| - 1]];
  }

  lemma TakeKeepsPoolInv(c: Config, s: State)
    requires PoolInv(c, s) && s.writer == Taking
    ensures PoolInv(c, TakeBuffer(s))
  {
    var s' := TakeBuffer(s);
    forall b: nat ensures Places(s'.pool.free, s'.encoder, s'.callback, s'.writer, b) == if b < c.n then 1 else 0 {
      assert Places(s.pool.free, s.encoder, s.callback, s.writer, b) == if b < c.n then 1 else 0;
      if s.pool.free != [] {
        CountLast(s.pool.free, b);
      }
    }
  }

  lemma WriterKeepsPoolInv(c: Config, s: State)
    requires PoolInv(c, s) && s.writer != Taking && WriterStep(c, s).Some?
    ensures PoolInv(c, WriterStep(c, s).value)
  {
    var s' := WriterStep(c, s).value;
    forall b: nat ensures Places(s'.pool.free, s'.encoder, s'.callback, s'.writer, b) == if b < c.n then 1 else 0 {
      assert Places(s.pool.free, s.encoder, s.callback, s.writer, b) == if b < c.n then 1 else 0;
    }
  }

  lemma DequeueKeepsQueueInv(c: Config, s: State)
    requires Inv(c, s) && s.writer == Dequeuing
    ensures QueueInv(c, Dequeue(c, s))
  {
    EncoderIsBounded(c, s);
    if s.queue != [] {
      assert (s.taken + [s.queue[0]])[..|s.taken|] == s.taken;
      assert s.taken + [s.queue[0]] + s.queue[1..] == s.produced;
    }
  }

  lemma WriterKeepsQueueInv(c: Config, s: State)
    requires Inv(c, s) && s.writer != Dequeuing && WriterStep(c, s).Some?
    ensures QueueInv(c, WriterStep(c, s).value)
  {
  }

  lemma FillKeepsInv(c: Config, s: State, b: nat)
    requires Inv(c, s) && FillStep(c, s, b).Some?
    ensures Inv(c, FillStep(c, s, b).value)
  {
    var s' := FillStep(c, s, b).value;
    forall x: nat ensures Places(s'.pool.free, s'.encoder, s'.callback, s'.writer, x) == if x < c.n then 1 else 0 {
      assert Places(s.pool.free, s.encoder, s.callback, s.writer, x) == if x < c.n then 1 else 0;
    }
    assert s.encoder == s'.encoder + {b};
  }

  lemma ReturnKeepsInv(c: Config, s: State, b: nat)
    requires Inv(c, s) && ReturnStep(s, b).Some?
    ensures Inv(c, ReturnStep(s, b).value)
  {
    var s' := ReturnStep(s, b).value;
    forall x: nat ensures Places(s'.pool.free, s'.encoder, s'.callback, s'.writer, x) == if x < c.n then 1 else 0 {
      assert Places(s.pool.free, s.encoder, s.callback, s.writer, x) == if x < c.n then 1 else 0;
    }
    assert b !in s.pool.free by {
      assert Places(s.pool.free, s.encoder, s.callback, s.writer, b) == 1;
      assert b in s.pool.free ==> multiset(s.pool.free)[b] > 0;
    }
  }

  lemma WakeKeepsInv(c: Config, s: State)
    requires Inv(c, s) && s.writer == Asleep
    ensures Inv(c, s.(writer := Taking))
  {
    forall b: nat ensures Places(s.pool.free, s.encoder, s.callback, Taking, b) == if b < c.n then 1 else 0 {
      assert Places(s.pool.free, s.encoder, s.callback, s.writer, b) == if b < c.n then 1 else 0;
    }
  }

  lemma AnyWriterKeepsPoolInv(c: Config, s: State)
    requires PoolInv(c, s) && WriterStep(c, s).Some?
    ensures PoolInv(c, WriterStep(c, s).value)
  {
    if s.writer == Taking {
      TakeKeepsPoolInv(c, s);
    } else {
      WriterKeepsPoolInv(c, s);
    }
  }

  lemma AnyWriterKeepsQueueInv(c: Config, s: State)
    requires Inv(c, s) && WriterStep(c, s).Some?
    ensures QueueInv(c, WriterStep(c, s).value)
  {
    if s.writer == Dequeuing {
      DequeueKeepsQueueInv(c, s);
    } else {
      WriterKeepsQueueInv(c, s);
    }
  }

  lemma StepKeepsInv(c: Config, s: State, a: Action)
    requires Inv(c, s) && Next(c, s, a).Some?
    ensures Inv(c, Next(c, s, a).value)
  {
    match a
    case Writer =>
      AnyWriterKeepsPoolInv(c, s);
      AnyWriterKeepsQueueInv(c, s);
    case Fill(b) => FillKeepsInv(c, s, b);
    case ReturnBuffer(b) => ReturnKeepsInv(c, s, b);
    case Spurious => WakeKeepsInv(c, s);
    case _ =>
  }

  /** Every state that some run reaches satisfies the invariants. */
  lemma ReachableInv(c: Config, s: State)
    requires Reachable(c, s)
    ensures Inv(c, s)
  {
    InitHolds(c);
    forall t: State, a: Action | Inv(c, t) && Steps(c)(t, a).Some? ensures Inv(c, Steps(c)(t, a).value) {
      StepKeepsInv(c, t, a);
    }
    HoldsWhereReached(Steps(c), Init(c), t => Inv(c, t), s);
  }
}

/** What the invariants of the writer and the encoder amount to. */
module EncoderTheorems {
  import opened NalSpec
  import opened IntrusiveList
  import opened BufferPools
  import opened EncoderOutput
  import opened Runs

  // ---------------------------------------------------------------------------------------------
  // Buffers

  /** Each buffer is in exactly one place: in the pool, with the writer, at the encoder, or inside
      the callback; and nothing else is anywhere. */
  lemma BufferIsInOnePlace(c: Config, s: State, b: nat)
    requires Reachable(c, s)
    ensures b < c.n <==> b in s.pool.free || s.writer == HoldingBuffer(b) || b in s.encoder || b in s.callback
    ensures b in s.pool.free ==> s.writer != HoldingBuffer(b) && b !in s.encoder && b !in s.callback
    ensures s.writer == HoldingBuffer(b) ==> b !in s.encoder && b !in s.callback
    ensures b in s.encoder ==> b !in s.callback
  {
    ReachableInv(c, s);
    assert Places(s.pool.free, s.encoder, s.callback, s.writer, b) == if b < c.n then 1 else 0;
    assert b in s.pool.free <==> multiset(s.pool.free)[b] > 0;
  }

  /** The chain of free buffers does not contain a buffer twice. */
  lemma FreeChainIsDistinct(c: Config, s: State)
    requires Reachable(c, s)
    ensures Distinct(s.pool.free)
  {
    ReachableInv(c, s);
  }

  /** The chain is ordered by the time of the last return, so a take yields the buffer that came back
      most recently: the pool is a stack. */
  lemma TakesMostRecent(c: Config, s: State, b: nat)
    requires Reachable(c, s) && s.writer == Taking
    requires TakeBuffer(s).writer == HoldingBuffer(b)
    ensures b in s.pool.free && b < |s.stamps|
    ensures forall x :: x in s.pool.free ==> x < |s.stamps| && (x != b ==> s.stamps[x] < s.stamps[b])
  {
    ReachableInv(c, s);
  }

  /** A buffer that comes back and is not overtaken by another return is the next one taken. */
  lemma ReturnThenTake(s: State, b: nat)
    requires b in s.callback && b < |s.stamps|
    ensures var s' := ReturnStep(s, b).value;
            && TakeBuffer(s').writer == HoldingBuffer(b)
            && TakeBuffer(s').pool.free == s.pool.free
  {
  }

  /** No wakeup is lost: the flag is false only if no buffer is free, and the writer sleeps only then;
      so what it waits for is owed by the encoder. */
  lemma NoLostWakeup(c: Config, s: State)
    requires Reachable(c, s)
    ensures !s.pool.notempty ==> s.pool.free == []
    ensures s.writer == Asleep ==> s.pool.free == [] && forall b: nat :: b < c.n ==> b in s.encoder + s.callback
  {
    ReachableInv(c, s);
    if s.writer == Asleep {
      forall b: nat | b < c.n ensures b in s.encoder + s.callback {
        assert Places(s.pool.free, s.encoder, s.callback, s.writer, b) == 1;
      }
    }
  }

  /** The writer leaves its loop only after both flags have been set. */
  lemma ExitNeedsBothFlags(c: Config, s: State)
    requires Reachable(c, s)
    ensures s.writer == Exited ==> s.eos && s.audioFinished
  {
    var knows := (t: State) =>
      (t.writer == SawEos || t.writer == Exited ==> t.eos) && (t.writer == Exited ==> t.audioFinished);
    HoldsWhereReached(Steps(c), Init(c), knows, s);
  }

  // ---------------------------------------------------------------------------------------------
  // The queue of encoded packets

  /** Nothing checks the length of the queue, but the packets in it and the buffers at the encoder
      together never exceed the number of buffers at the top of the writer's loop, nor that number
      plus one anywhere. */
  lemma EncodedQueueIsBounded(c: Config, s: State)
    requires Reachable(c, s)
    ensures |s.queue| + |s.encoder| <= c.n + 1
    ensures s.writer == Top ==> |s.queue| + |s.encoder| <= c.n
  {
    ReachableInv(c, s);
  }

  /** One round of the writer's loop that takes and submits a buffer and misses in the queue. */
  lemma RoundWithoutPacket(c: Config, s: State, b: nat) returns (s': State)
    requires Reachable(c, s) && s.writer == Top && !s.eos && s.queue == []
    requires s.pool.notempty && s.pool.free != [] && s.pool.free[|s.pool.free| - 1] == b
    ensures Reachable(c, s')
    ensures s' == s.(pool := OutPool(s.pool.free[..|s.pool.free| - 1], true), encoder := s.encoder + {b})
  {
    var free := s.pool.free[..|s.pool.free| - 1];
    s' := GoOn(Steps(c), Init(c), s, Writer);
    s' := GoOn(Steps(c), Init(c), s', Writer);
    assert s' == s.(writer := HoldingBuffer(b), pool := OutPool(free, true));
    s' := GoOn(Steps(c), Init(c), s', Writer);
    s' := GoOn(Steps(c), Init(c), s', Writer);
  }

  /** The writer can submit any number of buffers before the encoder fills one. */
  lemma {:induction false} SubmitSome(c: Config, k: nat) returns (s: State)
    requires k <= c.n
    ensures Reachable(c, s)
    ensures s == Init(c).(pool := OutPool(InOrder(c.n - k), true), encoder := s.encoder)
    ensures |s.encoder| == k && forall b :: b in s.encoder ==> b >= c.n - k
  {
    if k == 0 {
      s := Init(c);
      ReachesStart(Steps(c), s);
    } else {
      var before := SubmitSome(c, k - 1);
      s := RoundWithoutPacket(c, before, c.n - k);
    }
  }

  /** The encoder can fill all buffers it has before any of them is returned. */
  lemma {:induction false} FillAll(c: Config, s: State) returns (s': State)
    requires Reachable(c, s) && |s.produced| + |s.encoder| <= |c.output|
    ensures Reachable(c, s')
    ensures s' == s.(encoder := {}, callback := s.callback + s.encoder, queue := s'.queue, produced := s'.produced)
    ensures |s'.queue| == |s.queue| + |s.encoder| && |s'.produced| == |s.produced| + |s.encoder|
    decreases |s.encoder|
  {
    if s.encoder == {} {
      s' := s;
    } else {
      var b :| b in s.encoder;
      var next := GoOn(Steps(c), Init(c), s, Fill(b));
      s' := FillAll(c, next);
      assert s.callback + {b} + (s.encoder - {b}) == s.callback + s.encoder;
    }
  }

  /** One of the buffers in the callback comes back, and the writer submits it again. */
  lemma ReturnAndSubmit(c: Config, s: State) returns (s': State)
    requires Reachable(c, s) && s.writer == Top && !s.eos && s.callback != {} && s.encoder == {}
    ensures Reachable(c, s') && s'.writer == Dequeuing && |s'.encoder| == 1
    ensures s'.queue == s.queue && s'.produced == s.produced
  {
    var b :| b in s.callback;
    ReachableInv(c, s);
    assert Places(s.pool.free, s.encoder, s.callback, s.writer, b) == if b < c.n then 1 else 0;
    s' := GoOn(Steps(c), Init(c), s, ReturnBuffer(b));
    s' := GoOn(Steps(c), Init(c), s', Writer);
    s' := GoOn(Steps(c), Init(c), s', Writer);
    s' := GoOn(Steps(c), Init(c), s', Writer);
    assert s'.encoder == {b};
  }

  /** The bound of one more than the number of buffers is reached by the queue alone, whatever that number
      is and whatever the encoder delivers, if only it delivers that much: all buffers are submitted
      before the first packet is queued, all are filled, and one comes back, is submitted and is filled
      again. */
  lemma BoundIsReached(c: Config) returns (s: State)
    requires c.n > 0 && |c.output| > c.n
    ensures Reachable(c, s) && |s.queue| == c.n + 1
  {
    s := SubmitSome(c, c.n);
    s := FillAll(c, s);
    assert s.callback != {};
    s := ReturnAndSubmit(c, s);
    s := FillAll(c, s);
  }

  // ---------------------------------------------------------------------------------------------
  // The output

  /** In every run, at every moment, the data written are exactly the NAL units of the encoder's
      output that are wanted, up to where the writer has got: a prefix, in order, of those of all that
      the encoder ever puts out. */
  lemma OutputIsPrefix(c: Config, s: State)
    requires ValidConfig(c) && Reachable(c, s)
    ensures s.taken <= s.produced <= c.output
    ensures Meets(c.rescale, s.mux, Group(s.taken))
    ensures NonEmptyWrites(s.mux.writes) == Filtered(c.rescale, Group(s.taken).nals)
    ensures NonEmptyWrites(s.mux.writes) <= Filtered(c.rescale, Group(c.output).nals)
  {
    ReachableInv(c, s);
    WriterMeetsSpec(c.rescale, s.taken);
    var k := |s.taken|;
    assert c.output[..k] == s.taken;
    AcceptablePrefix(c.output, k);
    AcceptableNalsAreReadable(s.taken);
    FilteredAreNonEmpty(c.rescale, Group(s.taken).nals);
    GroupPrefix(c.output, k);
    var all := Group(c.output).nals;
    assert all[..|Group(s.taken).nals|] == Group(s.taken).nals;
    FilteredPrefix(c.rescale, all, |Group(s.taken).nals|);
  }

  /** What the writer is about to dequeue fits the reassembly buffer and can be read: the conditions
      under which write_video_frame stays inside its buffers. */
  lemma DequeuedFits(c: Config, s: State)
    requires ValidConfig(c) && Reachable(c, s) && s.queue != []
    ensures FitsAfter(s.mux.open, s.queue[0])
  {
    ReachableInv(c, s);
    WriterMeetsSpec(c.rescale, s.taken);
    var k := |s.taken|;
    assert c.output[..k] == s.taken && c.output[k] == s.queue[0];
    AcceptablePrefix(c.output, k);
  }
}

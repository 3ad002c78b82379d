/** The buffer pools of an OMX component (omx.c), first as values, then on the heap.

The values are what the step systems of the other modules work with; the methods of `Component`
show that the pointer code does to the chains of buffer headers what the functions say. */
module BufferPools {
  import opened IntrusiveList
  import opened Media

  // ---------------------------------------------------------------------------------------------
  // The output pool as a value

  /** The free buffers, from `out_buffers` on along pAppPrivate, and the flag `buf_out_notempty`. */
  datatype OutPool<B> = OutPool(free: seq<B>, notempty: bool)

  /** What a thread that holds the mutex finds out: it must sleep, it must try again, or it has a
      buffer. */
  datatype Taken<B> = Sleep | Retry | Got(buffer: B)

  /** One pass of the loop of omx_get_next_output_buffer, while the mutex is held. */
  function Take<B>(p: OutPool<B>): (OutPool<B>, Taken<B>) {
    if !p.notempty then (p, Sleep)
    else if p.free == [] then (p.(notempty := false), Retry)
    else (p.(free := p.free[..|p.free| - 1]), Got(p.free[|p.free| - 1]))
  }

  /** The end of omx_encoder_fill_buffer_done, while the mutex is held. */
  function Return<B>(p: OutPool<B>, b: B): OutPool<B> {
    OutPool(p.free + [b], true)
  }

  // ---------------------------------------------------------------------------------------------
  // The input pool as a value

  /** The fill level of each buffer of the chain, in chain order, and the flag `buf_in_notempty`. */
  datatype InPool = InPool(filled: seq<nat>, notempty: bool)

  /** The first buffer that holds nothing. */
  function FirstFree(filled: seq<nat>): (r: Option<nat>)
    ensures r.Some? ==> r.value < |filled| && filled[r.value] == 0
    ensures r.Some? ==> forall i :: 0 <= i < r.value ==> filled[i] > 0
    ensures r.None? ==> forall i :: 0 <= i < |filled| ==> filled[i] > 0
  {
    if filled == [] then None
    else match FirstFree(filled[..|filled| - 1])
      case Some(i) => Some(i)
      case None => if filled[|filled| - 1] == 0 then Some(|filled| - 1) else None
  }

  /** One pass of omx_get_next_input_buffer up to line 383 or 385. */
  function TakeIn(p: InPool): (InPool, Option<nat>) {
    match FirstFree(p.filled)
    case Some(i) => (p, Some(i))
    case None => (p.(notempty := false), None)
  }

  /** The component has emptied buffer `i` and runs omx_empty_buffer_done. */
  function EmptyDone(p: InPool, i: nat): InPool
    requires i < |p.filled|
  {
    InPool(p.filled[i := 0], true)
  }

  function CountFree(filled: seq<nat>): nat {
    if filled == [] then 0
    else CountFree(filled[..|filled| - 1]) + if filled[|filled| - 1] == 0 then 1 else 0
  }

  // ---------------------------------------------------------------------------------------------
  // The pools on the heap

  /** OMX_BUFFERHEADERTYPE */
  class BufferHeader {
    var pAppPrivate: BufferHeader?
    var nFilledLen: nat
    const nAllocLen: nat

    constructor (allocLen: nat)
      ensures pAppPrivate == null && nFilledLen == 0 && nAllocLen == allocLen
    {
      pAppPrivate, nFilledLen, nAllocLen := null, 0, allocLen;
    }
  }

  /** From `first` on, pAppPrivate leads through exactly the buffers `s`, each once, and ends in NULL. */
  ghost predicate Chain(first: BufferHeader?, s: seq<BufferHeader>)
    reads s
  {
    && Distinct(s)
    && first == At(s, 0)
    && forall i {:trigger s[i].pAppPrivate} :: 0 <= i < |s| ==> s[i].pAppPrivate == At(s, i + 1)
  }

  ghost function At(s: seq<BufferHeader>, i: nat): BufferHeader? {
    if i < |s| then s[i] else null
  }

  /** The chain is determined by its first buffer. */
  lemma {:induction false} ChainIsUnique(first: BufferHeader?, s: seq<BufferHeader>, t: seq<BufferHeader>)
    requires Chain(first, s) && Chain(first, t)
    ensures s == t
  {
    forall i: nat | i <= |s| || i <= |t| ensures At(s, i) == At(t, i) {
      ChainsAgree(first, s, t, i);
    }
    assert At(s, |s|) == At(t, |s|) && At(s, |t|) == At(t, |t|);
    assert forall i :: 0 <= i < |s| && i < |t| ==> s[i] == At(s, i) == At(t, i) == t[i];
  }

  lemma {:induction false} ChainsAgree(first: BufferHeader?, s: seq<BufferHeader>, t: seq<BufferHeader>, i: nat)
    requires Chain(first, s) && Chain(first, t)
    ensures At(s, i) == At(t, i)
  {
    if i > 0 {
      ChainsAgree(first, s, t, i - 1);
      if i - 1 < |s| {
        assert s[i - 1].pAppPrivate == At(s, i);
      }
      if i - 1 < |t| {
        assert t[i - 1].pAppPrivate == At(t, i);
      }
    }
  }

  /** Of lists without repetitions, each part is apart from what comes before it. */
  lemma PartIsApart<T>(start: seq<T>, parts: seq<seq<T>>, k: nat)
    requires Distinct(start + Flatten(parts)) && k < |parts|
    ensures Distinct(parts[k]) && Disjoint(parts[k], start + Flatten(parts[..k]))
    ensures forall i :: 0 <= i < |parts[k]| ==> parts[k][i] in Flatten(parts)
  {
    FlattenSplit(parts, k);
    var all, before := start + Flatten(parts), start + Flatten(parts[..k]);
    assert forall i :: 0 <= i < |before| ==> all[i] == before[i];
    assert forall i :: 0 <= i < |parts[k]| ==> all[|before| + i] == parts[k][i];
    PartIsIn(parts, k);
  }

  ghost function Levels(s: seq<BufferHeader>): (r: seq<nat>)
    reads s
    ensures |r| == |s|
  {
    seq(|s|, i requires 0 <= i < |s| reads s => s[i].nFilledLen)
  }

  /** The part of struct omx_component_t that holds the pools. */
  class Component {
    var inBuffers: BufferHeader?
    var bufInNotempty: bool
    var outBuffers: BufferHeader?
    var bufOutNotempty: bool
    ghost var input: seq<BufferHeader>
    ghost var free: seq<BufferHeader>

    ghost predicate Valid()
      reads this, input, free
    {
      Chain(inBuffers, input) && Chain(outBuffers, free) && Disjoint(input, free)
    }

    ghost function Out(): OutPool<BufferHeader>
      reads this
    {
      OutPool(free, bufOutNotempty)
    }

    ghost function In(): InPool
      reads this, input
    {
      InPool(Levels(input), bufInNotempty)
    }

    constructor ()
      ensures Valid() && input == free == [] && !bufInNotempty && !bufOutNotempty
    {
      inBuffers, outBuffers, bufInNotempty, bufOutNotempty := null, null, false, false;
      input, free := [], [];
    }

    /** omx_alloc_buffers: `end` is the header whose pAppPrivate the next header is linked into, or
        null while that place is the local variable `list`. */
    method AllocBuffers(count: nat, size: nat, dirInput: bool)
      requires Valid()
      modifies this
      ensures Valid()
      ensures var s := if dirInput then input else free;
              && |s| == count && fresh(s)
              && forall i :: 0 <= i < |s| ==> s[i].nFilledLen == 0 && s[i].nAllocLen == size
      ensures dirInput ==> bufInNotempty && free == old(free) && bufOutNotempty == old(bufOutNotempty)
      ensures !dirInput ==> bufOutNotempty && input == old(input) && bufInNotempty == old(bufInNotempty)
    {
      var list: BufferHeader?, end: BufferHeader? := null, null;
      ghost var s: seq<BufferHeader> := [];
      for i := 0 to count
        invariant unchanged(this) && Valid()
        invariant |s| == i && fresh(s) && Chain(list, s)
        invariant end == if s == [] then null else s[|s| - 1]
        invariant forall k :: 0 <= k < |s| ==> s[k].nFilledLen == 0 && s[k].nAllocLen == size
      {
        var header := new BufferHeader(size);
        if end == null {
          list := header;
        } else {
          end.pAppPrivate := header;
        }
        end := header;
        s := s + [header];
      }
      assert Disjoint(s, free) && Disjoint(input, s);
      if dirInput {
        bufInNotempty, inBuffers, input := true, list, s;
      } else {
        bufOutNotempty, outBuffers, free := true, list, s;
      }
    }

    /** Lines 408-432: one pass of the loop of omx_get_next_output_buffer. */
    method TakeOutput() returns (r: Taken<BufferHeader>)
      requires Valid()
      modifies this`outBuffers, this`bufOutNotempty, this`free, free`pAppPrivate
      ensures Valid() && input == old(input)
      ensures (Out(), r) == Take(old(Out()))
      ensures r.Sleep? <==> !old(bufOutNotempty)
      ensures r.Got? <==> old(bufOutNotempty) && old(free) != []
      ensures if r.Got? then free + [r.buffer] == old(free) else free == old(free)
      ensures bufOutNotempty <==> old(bufOutNotempty) && old(free) != []
      ensures r.Got? ==> r.buffer.pAppPrivate == null && r.buffer !in free
    {
      if !bufOutNotempty {
        return Sleep;
      }
      var ret, prev: BufferHeader? := outBuffers, null;
      ghost var k := 0;
      while ret != null && ret.pAppPrivate != null
        invariant k <= |free| && ret == At(free, k)
        invariant k < |free| || free == []
        invariant prev == if k == 0 then null else free[k - 1]
        decreases |free| - k
      {
        prev := ret;
        ret := ret.pAppPrivate;
        k := k + 1;
      }
      if ret != null {
        assert k == |free| - 1;
        if prev == null {
          outBuffers := ret.pAppPrivate;
        } else {
          prev.pAppPrivate := ret.pAppPrivate;
        }
        ret.pAppPrivate := null;
        free := free[..k];
        r := Got(ret);
      } else {
        bufOutNotempty := false;
        r := Retry;
      }
    }

    /** Lines 218-237: the end of omx_encoder_fill_buffer_done. */
    method FillBufferDone(buffer: BufferHeader) returns (signalled: bool)
      requires Valid() && buffer !in free && buffer !in input
      modifies this`outBuffers, this`bufOutNotempty, this`free, free`pAppPrivate, buffer
      ensures Valid() && input == old(input)
      ensures Out() == Return(old(Out()), buffer)
      ensures free == old(free) + [buffer] && bufOutNotempty
      ensures buffer.nFilledLen == 0
      ensures signalled <==> !old(bufOutNotempty)
    {
      buffer.nFilledLen := 0;
      var current := outBuffers;
      ghost var k := 0;
      while current != null && current.pAppPrivate != null
        invariant k <= |free| && current == At(free, k)
        invariant k < |free| || free == []
        decreases |free| - k
      {
        current := current.pAppPrivate;
        k := k + 1;
      }
      if current == null {
        outBuffers := buffer;
      } else {
        assert k == |free| - 1;
        current.pAppPrivate := buffer;
      }
      buffer.pAppPrivate := null;
      free := free + [buffer];
      signalled := !bufOutNotempty;
      if !bufOutNotempty {
        bufOutNotempty := true;
      }
    }

    /** What the callbacks do to the pool while the writer has given up the mutex. */
    method ReturnAll(buffers: seq<BufferHeader>, ghost nodes: set<BufferHeader>)
      requires Valid() && Distinct(buffers) && Disjoint(buffers, free) && Disjoint(buffers, input)
      requires forall i :: 0 <= i < |free| ==> free[i] in nodes
      requires forall i :: 0 <= i < |buffers| ==> buffers[i] in nodes
      requires forall i :: 0 <= i < |input| ==> input[i] !in nodes
      modifies this`outBuffers, this`bufOutNotempty, this`free, nodes
      ensures Valid() && input == old(input)
      ensures free == old(free) + buffers
      ensures bufOutNotempty == (old(bufOutNotempty) || buffers != [])
    {
      for i := 0 to |buffers|
        invariant forall i :: 0 <= i < |free| ==> free[i] in nodes
        invariant Valid() && input == old(input)
        invariant free == old(free) + buffers[..i]
        invariant bufOutNotempty == (old(bufOutNotempty) || i > 0)
      {
        var _ := FillBufferDone(buffers[i]);
      }
    }

    /** What holds of the output pool whenever the mutex is free. */
    ghost predicate FlagIsSafe()
      reads this
    {
      !bufOutNotempty ==> free == []
    }

    /** All free buffers are among `nodes`, and no input buffer is. */
    ghost predicate Within(nodes: set<BufferHeader>)
      reads this
    {
      && (forall i :: 0 <= i < |free| ==> free[i] in nodes)
      && (forall i :: 0 <= i < |input| ==> input[i] !in nodes)
    }

    /** One pass of the loop, seen from outside. */
    method Pass(ghost nodes: set<BufferHeader>) returns (taken: Taken<BufferHeader>)
      requires Valid() && FlagIsSafe() && Within(nodes)
      modifies this`outBuffers, this`bufOutNotempty, this`free, nodes`pAppPrivate
      ensures Valid() && FlagIsSafe() && Within(nodes) && input == old(input)
      ensures taken.Got? ==> free + [taken.buffer] == old(free) && taken.buffer.pAppPrivate == null
      ensures !taken.Got? ==> free == old(free) == [] && !bufOutNotempty
      ensures taken.Retry? ==> old(bufOutNotempty)
    {
      taken := TakeOutput();
    }

    /** One wait: the callbacks return `batch`. */
    method AwaitReturns(batch: seq<BufferHeader>, ghost nodes: set<BufferHeader>)
      requires Valid() && FlagIsSafe() && Within(nodes) && free == []
      requires Distinct(batch) && forall i :: 0 <= i < |batch| ==> batch[i] in nodes
      modifies this`outBuffers, this`bufOutNotempty, this`free, nodes
      ensures Valid() && FlagIsSafe() && Within(nodes) && input == old(input)
      ensures free == batch
    {
      ReturnAll(batch, nodes);
    }

    /** omx_get_next_output_buffer.  `arrivals[k]` are the buffers that callbacks have returned by the
        time the caller holds the mutex again after its wait number k (none for a wakeup without a
        signal).  The result is null if the caller is still asleep when no wakeup is left. */
    method GetNextOutputBuffer(arrivals: seq<seq<BufferHeader>>) returns (ret: BufferHeader?, waits: nat)
      requires Valid() && FlagIsSafe()
      requires Distinct(free + Flatten(arrivals)) && Disjoint(Flatten(arrivals), input)
      modifies this`outBuffers, this`bufOutNotempty, this`free, free, Flatten(arrivals)
      ensures Valid() && FlagIsSafe() && input == old(input) && waits <= |arrivals|
      ensures ret != null ==> free + [ret] == old(free) + Flatten(arrivals[..waits]) && ret.pAppPrivate == null
      ensures ret == null ==> waits == |arrivals| && old(free) + Flatten(arrivals) == []
    {
      ret, waits := null, 0;
      ghost var start, back := free, [];
      ghost var nodes := (set b | b in free) + (set b | b in Flatten(arrivals));
      while true
        invariant Valid() && FlagIsSafe() && Within(nodes) && input == old(input)
        invariant waits <= |arrivals| && back == Flatten(arrivals[..waits])
        invariant free == start + back
        decreases |arrivals| - waits, bufOutNotempty
      {
        var taken := Pass(nodes);
        if taken.Got? {
          ret := taken.buffer;
          return;
        }
        if taken.Sleep? {
          if waits == |arrivals| {
            assert arrivals[..waits] == arrivals;
            return;
          }
          FlattenSplit(arrivals, waits);
          PartIsApart(start, arrivals, waits);
          AwaitReturns(arrivals[waits], nodes);
          back, waits := back + arrivals[waits], waits + 1;
        }
      }
    }

    /** Lines 371-386: one pass of omx_get_next_input_buffer.  Null means that the caller sleeps. */
    method TakeInput() returns (ret: BufferHeader?)
      requires Valid()
      modifies this`bufInNotempty
      ensures Valid()
      ensures var (p, found) := TakeIn(old(In()));
              && In() == p
              && (ret == null <==> found.None?)
              && (found.Some? ==> ret == input[found.value])
      ensures ret == null <==> forall i :: 0 <= i < |input| ==> input[i].nFilledLen > 0
      ensures ret != null ==>
                exists i :: 0 <= i < |input| && ret == input[i] && ret.nFilledLen == 0 &&
                  forall j :: 0 <= j < i ==> input[j].nFilledLen > 0
      ensures bufInNotempty <==> old(bufInNotempty) && ret != null
    {
      ret := inBuffers;
      ghost var k := 0;
      while ret != null && ret.nFilledLen > 0
        invariant k <= |input| && ret == At(input, k)
        invariant forall i :: 0 <= i < k ==> Levels(input)[i] > 0
        decreases |input| - k
      {
        ret := ret.pAppPrivate;
        k := k + 1;
      }
      assert k < |input| ==> Levels(input)[k] == ret.nFilledLen;
      assert forall i :: 0 <= i < |input| ==> Levels(input)[i] == input[i].nFilledLen;
      if ret == null {
        bufInNotempty := false;
      }
    }

    /** The component is done with an input buffer: it empties it and calls omx_empty_buffer_done.  `seen` is
        what line 171 has read from the flag, without the mutex and so perhaps some time ago. */
    method EmptyBufferDone(buffer: BufferHeader, seen: bool, ghost i: nat) returns (signalled: bool)
      requires Valid() && i < |input| && buffer == input[i]
      modifies this`bufInNotempty, buffer`nFilledLen
      ensures Valid()
      ensures In() == InPool(old(In().filled)[i := 0], old(bufInNotempty) || !seen)
      ensures seen == old(bufInNotempty) ==> In() == EmptyDone(old(In()), i)
      ensures signalled <==> !seen
    {
      buffer.nFilledLen := 0;
      signalled := false;
      if !seen {
        bufInNotempty := true;
        signalled := true;
      }
      assert forall j :: 0 <= j < |input| && j != i ==> input[j] != buffer;
    }

    /** The fill levels once these buffers are emptied. */
    ghost function Without(filled: seq<nat>, buffers: seq<BufferHeader>): (r: seq<nat>)
      requires |filled| == |input|
      reads this
      ensures |r| == |filled|
    {
      seq(|filled|, i requires 0 <= i < |filled| && |filled| == |input| reads this =>
        if input[i] in buffers then 0 else filled[i])
    }

    ghost predicate AreInput(buffers: seq<BufferHeader>)
      reads this
    {
      forall b :: b in buffers ==> b in input
    }

    /** What the component does to the pool while the caller has given up the mutex.  Each buffer is emptied
        and the flag tested at once. */
    method EmptyAll(buffers: seq<BufferHeader>)
      requires Valid() && AreInput(buffers)
      modifies this`bufInNotempty, input`nFilledLen
      ensures Valid()
      ensures In() == InPool(Without(old(In().filled), buffers), old(bufInNotempty) || buffers != [])
    {
      ghost var before := In().filled;
      for k := 0 to |buffers|
        invariant Valid()
        invariant In() == InPool(Without(before, buffers[..k]), old(bufInNotempty) || k > 0)
      {
        assert buffers[k] in buffers;
        ghost var i :| 0 <= i < |input| && input[i] == buffers[k];
        var _ := EmptyBufferDone(buffers[k], bufInNotempty, i);
        WithoutOneMore(before, buffers[..k], i);
        assert buffers[..k] + [input[i]] == buffers[..k + 1];
      }
      assert buffers[..|buffers|] == buffers;
    }

    lemma WithoutOneMore(filled: seq<nat>, buffers: seq<BufferHeader>, i: nat)
      requires |filled| == |input| && i < |input| && Distinct(input)
      ensures Without(filled, buffers)[i := 0] == Without(filled, buffers + [input[i]])
    {
    }

    lemma WithoutConcat(filled: seq<nat>, a: seq<BufferHeader>, b: seq<BufferHeader>)
      requires |filled| == |input|
      ensures Without(Without(filled, a), b) == Without(filled, a + b)
    {
    }

    /** No buffer is empty after the first `k` waits exactly if none was before and none came back. */
    lemma AllFullIff(before: seq<nat>, arrivals: seq<seq<BufferHeader>>, k: nat)
      requires |before| == |input| && AreInput(Flatten(arrivals)) && k <= |arrivals|
      ensures FirstFree(Without(before, Flatten(arrivals[..k]))).None? <==>
                FirstFree(before).None? && Flatten(arrivals[..k]) == []
      ensures Flatten(arrivals[..|arrivals|]) == Flatten(arrivals)
      ensures Flatten(arrivals) == [] ==> Flatten(arrivals[..k]) == []
    {
      var back := Flatten(arrivals[..k]);
      var filled := Without(before, back);
      assert arrivals[..|arrivals|] == arrivals;
      assert arrivals == arrivals[..k] + arrivals[k..];
      FlattenConcat(arrivals[..k], arrivals[k..]);
      if back != [] {
        assert back[0] in Flatten(arrivals);
        var i :| 0 <= i < |input| && input[i] == back[0];
        assert filled[i] == 0;
      } else {
        assert filled == before;
      }
    }

    /** Wait number k: the component empties the buffers `arrivals[k]`. */
    method AwaitEmptied(arrivals: seq<seq<BufferHeader>>, k: nat, ghost before: seq<nat>)
      requires Valid() && AreInput(Flatten(arrivals)) && k < |arrivals| && |before| == |input|
      requires In().filled == Without(before, Flatten(arrivals[..k]))
      modifies this`bufInNotempty, input`nFilledLen
      ensures Valid() && In().filled == Without(before, Flatten(arrivals[..k + 1]))
      ensures bufInNotempty <==> old(bufInNotempty) || arrivals[k] != []
    {
      FlattenSplit(arrivals, k);
      WithoutConcat(before, Flatten(arrivals[..k]), arrivals[k]);
      PartIsIn(arrivals, k);
      EmptyAll(arrivals[k]);
    }

    /** Lines 385-386, from wait number `from` on: sleep until the flag is set, or no wakeup is left. */
    method WaitForFlag(arrivals: seq<seq<BufferHeader>>, from: nat, ghost before: seq<nat>) returns (waits: nat)
      requires Valid() && AreInput(Flatten(arrivals)) && from <= |arrivals| && |before| == |input|
      requires In().filled == Without(before, Flatten(arrivals[..from]))
      modifies this`bufInNotempty, input`nFilledLen
      ensures Valid() && from <= waits <= |arrivals|
      ensures In().filled == Without(before, Flatten(arrivals[..waits]))
      ensures if bufInNotempty then old(bufInNotempty) || from < waits
              else waits == |arrivals| && Flatten(arrivals[..waits]) == Flatten(arrivals[..from])
    {
      waits := from;
      while !bufInNotempty && waits < |arrivals|
        invariant Valid() && from <= waits <= |arrivals|
        invariant In().filled == Without(before, Flatten(arrivals[..waits]))
        invariant if bufInNotempty then old(bufInNotempty) || from < waits
                  else Flatten(arrivals[..waits]) == Flatten(arrivals[..from])
      {
        FlattenSplit(arrivals, waits);
        AwaitEmptied(arrivals, waits, before);
        waits := waits + 1;
      }
    }

    /** omx_get_next_input_buffer.  `arrivals[k]` are the buffers that the component has returned by the
        time the caller holds the mutex again after its wait number k (none for a wakeup without a
        signal).  The result is null if the caller is still asleep when no wakeup is left. */
    method GetNextInputBuffer(arrivals: seq<seq<BufferHeader>>) returns (ret: BufferHeader?, waits: nat)
      requires Valid() && AreInput(Flatten(arrivals))
      modifies this`bufInNotempty, input`nFilledLen
      ensures Valid() && waits <= |arrivals|
      ensures In().filled == Without(old(In().filled), Flatten(arrivals[..waits]))
      ensures ret != null ==> var found := FirstFree(In().filled); found.Some? && ret == input[found.value]
      ensures ret == null <==> FirstFree(old(In().filled)).None? && Flatten(arrivals) == []
      ensures ret == null ==> waits == |arrivals|
    {
      waits := 0;
      ghost var before := In().filled;
      while true
        invariant Valid() && waits <= |arrivals|
        invariant In().filled == Without(before, Flatten(arrivals[..waits]))
        decreases |arrivals| - waits
      {
        ret := TakeInput();
        AllFullIff(before, arrivals, waits);
        if ret != null {
          return;
        }
        waits := WaitForFlag(arrivals, waits, before);
        if !bufInNotempty {
          AllFullIff(before, arrivals, waits);
          return;
        }
      }
    }

    /** omx_get_free_buffer_count */
    method GetFreeBufferCount() returns (n: nat)
      requires Valid()
      ensures n == CountFree(In().filled)
    {
      n := 0;
      var buf := inBuffers;
      ghost var k := 0;
      while buf != null
        invariant k <= |input| && buf == At(input, k)
        invariant n == CountFree(Levels(input)[..k])
        decreases |input| - k
      {
        assert Levels(input)[..k + 1][..k] == Levels(input)[..k];
        if buf.nFilledLen == 0 {
          n := n + 1;
        }
        buf := buf.pAppPrivate;
        k := k + 1;
      }
      assert Levels(input)[..k] == Levels(input);
    }
  }
}

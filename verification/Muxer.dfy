/** write_video_frame and its helpers (mux.c:152-290) on the heap: the reassembly buffer, the copies
of the parameter sets, and who owns which block. */
module Muxer {
  import opened Media
  import opened Memory
  import opened Timestamps
  import opened NalSpec
  import opened NalLaws
  import opened PacketQueue

  ghost function Contents(block: array?<byte>): Option<seq<byte>>
    reads block
  {
    if block == null then None else Some(block[..])
  }

  ghost function FragmentOf(p: Packet): Fragment
    requires p.data != null
    reads p.data
  {
    Fragment(p.data[..], p.pts, p.flags)
  }

  /** What one dequeue contributes; NULL is a miss. */
  ghost function PartOf(p: Packet?): seq<Fragment>
    requires p != null ==> p.data != null
    reads if p != null then {p.data} else {}
  {
    if p == null then [] else [FragmentOf(p)]
  }

  /** No two packets are the same or share their payload. */
  ghost predicate Apart(sources: seq<Packet?>) {
    forall i, j :: 0 <= i < j < |sources| && sources[i] != null && sources[j] != null ==>
      sources[i] != sources[j] && sources[i].data != sources[j].data
  }

  /** struct mux_state_t, with the extra data of the video stream's codec context. */
  class MuxState {
    var sps: array?<byte>
    var pps: array?<byte>
    var buf: array?<byte>
    var bufOffset: nat
    var flushFramebuf: bool
    var extradata: array?<byte>
    ghost var written: seq<Written>
    const rescale: int64 -> int64

    ghost predicate Valid()
      reads this
    {
      && (bufOffset > 0 ==> buf != null)
      && (buf != null ==> buf.Length == 0x100000 && bufOffset <= 0x100000)
      && (sps != null ==> sps != pps && sps != buf && sps != extradata)
      && (pps != null ==> pps != buf && pps != extradata)
      && (buf != null ==> buf != extradata)
    }

    /** The blocks of the writer are live. */
    ghost predicate Owns(heap: Heap)
      reads this, heap
    {
      && (sps != null ==> heap.Live(sps))
      && (pps != null ==> heap.Live(pps))
      && (buf != null ==> heap.Live(buf))
      && (extradata != null ==> heap.Live(extradata))
    }

    ghost predicate IsMine(block: array?<byte>)
      reads this
    {
      block != null && (block == sps || block == pps || block == buf || block == extradata)
    }

    /** The writer gets hold of new blocks only by allocating them. */
    twostate predicate OldOrNew(heap: Heap)
      reads this, heap
    {
      && old(heap.allocations) <= heap.allocations
      && (sps == null || sps == old(sps) || fresh(sps))
      && (pps == null || pps == old(pps) || fresh(pps))
      && (buf == null || buf == old(buf) || fresh(buf))
      && (extradata == null || extradata == old(extradata) || fresh(extradata))
    }

    /** The blocks of the writer, with those of this packet. */
    ghost function Held(source: Packet): set<object?>
      reads this
    {
      {source, source.data, sps, pps, buf, extradata}
    }

    /** The bytes of the open NAL unit. */
    ghost function Open(): (r: seq<byte>)
      requires Valid()
      reads this, buf
      ensures |r| == bufOffset
    {
      if bufOffset == 0 then [] else buf[..bufOffset]
    }

    ghost function Value(): Mux
      requires Valid()
      reads this, sps, pps, buf, extradata
    {
      Mux(Contents(sps), Contents(pps), Open(), if extradata == null then [] else extradata[..], written)
    }

    /** `struct mux_state_t mux_state = {0}` */
    constructor (rescale: int64 -> int64)
      ensures Valid() && Value() == INITIAL_MUX && this.rescale == rescale
      ensures sps == pps == buf == extradata == null
    {
      sps, pps, buf, bufOffset, flushFramebuf, extradata := null, null, null, 0, false, null;
      written := [];
      this.rescale := rescale;
    }

    /** Lines 165-170 and 177-182: the old copy is freed, if there is one, and a new one made. */
    static method Replace(heap: Heap, old_: array?<byte>, data: array<byte>, size: nat) returns (block: array<byte>)
      requires size <= data.Length && (old_ != null ==> heap.Live(old_))
      modifies heap`allocations, heap`freed
      ensures fresh(block) && block[..] == data[..size]
      ensures heap.allocations == old(heap.allocations) + {block}
      ensures heap.freed == old(heap.freed) + if old_ == null then [] else [old_]
      ensures old(heap.Once()) ==> heap.Once()
    {
      if old_ != null {
        heap.Free(old_);
      }
      block := heap.Copy(data, size);
    }

    /** Lines 157-162 and 175: what the first bytes say. */
    static method PacketType(data: array<byte>, size: nat) returns (kind: Kind)
      requires size <= data.Length && Readable(data[..size])
      ensures kind == KindOf(data[..size])
      ensures kind == Sps <==> IsNalOfType(data[..size], 7)
      ensures kind == Pps <==> IsNalOfType(data[..size], 8)
    {
      KindOfIff(data[..size]);
      kind := Other;
      ghost var d := data[..size];
      if data[0] == 0 && data[1] == 0 && data[2] == 0 && data[3] == 1 {
        var packetType := data[4] % 0x20;
        if packetType == SPS_PACKET {
          kind := Sps;
        } else if packetType == PPS_PACKET {
          kind := Pps;
        }
      }
    }

    /** Lines 165-173 */
    method StoreSps(heap: Heap, data: array<byte>, size: nat)
      requires Valid() && Owns(heap) && !IsMine(data) && size <= data.Length
      modifies this`sps, this`flushFramebuf, heap`allocations, heap`freed
      ensures Valid() && Owns(heap) && fresh(sps) && !flushFramebuf
      ensures Value() == old(Value()).(sps := Some(data[..size]))
      ensures heap.freed == old(heap.freed) + if old(sps) == null then [] else [old(sps)]
      ensures OldOrNew(heap)
      ensures old(heap.Once()) ==> heap.Once()
    {
      sps := Replace(heap, sps, data, size);
      flushFramebuf := false;
    }

    /** Lines 177-185 */
    method StorePps(heap: Heap, data: array<byte>, size: nat)
      requires Valid() && Owns(heap) && !IsMine(data) && size <= data.Length
      modifies this`pps, this`flushFramebuf, heap`allocations, heap`freed
      ensures Valid() && Owns(heap) && fresh(pps) && !flushFramebuf
      ensures Value() == old(Value()).(pps := Some(data[..size]))
      ensures heap.freed == old(heap.freed) + if old(pps) == null then [] else [old(pps)]
      ensures OldOrNew(heap)
      ensures old(heap.Once()) ==> heap.Once()
    {
      pps := Replace(heap, pps, data, size);
      flushFramebuf := false;
    }

    /** extract_pps_ssp_packet, for a packet with the first `size` bytes of `data`. */
    method ExtractParameterSet(heap: Heap, data: array<byte>, size: nat) returns (detected: bool)
      requires Valid() && Owns(heap) && !IsMine(data)
      requires size <= data.Length && Readable(data[..size])
      modifies this`sps, this`pps, this`flushFramebuf, heap`allocations, heap`freed
      ensures Valid() && Owns(heap)
      ensures var kind := KindOf(data[..size]);
              && (detected <==> kind != Other)
              && Value() == (match kind
                             case Sps => old(Value()).(sps := Some(data[..size]))
                             case Pps => old(Value()).(pps := Some(data[..size]))
                             case Other => old(Value()))
              && (sps == old(sps) || fresh(sps)) && (pps == old(pps) || fresh(pps))
              && heap.freed == old(heap.freed) + ReplacedBy(kind, old(sps), old(pps))
      ensures flushFramebuf == (old(flushFramebuf) && !detected)
      ensures detected <==> IsParameterSet(data[..size])
      ensures OldOrNew(heap)
      ensures old(heap.Once()) ==> heap.Once()
    {
      var kind := PacketType(data, size);
      detected := kind != Other;
      if kind == Sps {
        StoreSps(heap, data, size);
      } else if kind == Pps {
        StorePps(heap, data, size);
      }
    }

    /** init_stream_extra_data */
    method InitStreamExtraData(heap: Heap)
      requires Valid() && Owns(heap)
      modifies this`extradata, heap`allocations, heap`freed
      ensures Valid() && Owns(heap)
      ensures Value() == old(Value()).(extradata := Extra(Contents(sps), Contents(pps)))
      ensures if sps == null || pps == null then extradata == null
              else extradata != null && extradata[..] == sps[..] + pps[..]
      ensures heap.freed == old(heap.freed) + if old(extradata) == null then [] else [old(extradata)]
      ensures extradata != null ==> fresh(extradata)
      ensures OldOrNew(heap)
      ensures old(heap.Once()) ==> heap.Once()
    {
      if extradata != null {
        heap.Free(extradata);
        extradata := null;
      }
      if pps != null && sps != null {
        var block := heap.Malloc(pps.Length + sps.Length);
        forall i | 0 <= i < sps.Length {
          block[i] := sps[i];
        }
        forall i | 0 <= i < pps.Length {
          block[sps.Length + i] := pps[i];
        }
        assert block[..] == sps[..] + pps[..];
        assert fresh(block);
        extradata := block;
      }
    }

    /** A packet from the queue: its blocks are live and no other part of the writer knows them. */
    ghost predicate IsPacket(heap: Heap, p: Packet)
      reads this, heap
    {
      && heap.Live(p)
      && p.data != null && p.data.Length == p.dataLength
      && heap.Live(p.data) && !IsMine(p.data)
    }

    /** memcpy to the end of the reassembly buffer. */
    method Append(data: array<byte>)
      requires Valid() && buf != null && data != buf && bufOffset + data.Length <= ONE_MB
      modifies buf, this`bufOffset
      ensures Valid() && Open() == old(Open()) + data[..]
      ensures data[..] == old(data[..])
    {
      forall i | 0 <= i < data.Length {
        buf[bufOffset + i] := data[i];
      }
      bufOffset := bufOffset + data.Length;
      assert buf[..bufOffset] == old(buf[..bufOffset]) + data[..];
    }

    /** Lines 226-235: no end of a NAL unit yet. */
    method BufferFragment(heap: Heap, source: Packet)
      requires Valid() && Owns(heap) && IsPacket(heap, source)
      requires bufOffset + source.dataLength <= ONE_MB
      modifies this`buf, this`bufOffset, buf, heap`allocations, heap`freed
      ensures Valid() && Owns(heap) && heap.Live(source) && OldOrNew(heap)
      ensures Value() == old(Value()).(open := old(Open()) + old(source.data[..]))
      ensures heap.freed == old(heap.freed) + [source.data]
      ensures old(heap.Once()) ==> heap.Once()
    {
      if buf == null {
        buf := heap.Malloc(ONE_MB);
      }
      Append(source.data);
      heap.Free(source.data);
    }

    /** Lines 240-256: the end of a NAL unit.  The unit is in the reassembly buffer, which is given up,
        or in the packet itself. */
    method CompleteNal(source: Packet) returns (data: array<byte>, size: nat)
      requires Valid() && source.data != null && source.data.Length == source.dataLength && !IsMine(source.data)
      requires bufOffset > 0 ==> bufOffset + source.dataLength <= ONE_MB
      modifies this`buf, this`bufOffset, buf
      ensures Valid() && size <= data.Length
      ensures data[..size] == old(Open()) + old(source.data[..])
      ensures Value() == old(Value()).(open := [])
      ensures if old(bufOffset) > 0 then data == old(buf) && buf == null else data == source.data && buf == old(buf)
    {
      if bufOffset > 0 {
        Append(source.data);
        data, size := buf, bufOffset;
        bufOffset := 0;
        buf := null;
      } else {
        data, size := source.data, source.dataLength;
      }
    }

    /** Lines 269-271: a complete NAL unit that is a parameter set is stored instead of written. */
    method StoreParameterSet(heap: Heap, data: array<byte>, size: nat)
      requires Valid() && Owns(heap) && !IsMine(data)
      requires size <= data.Length && Readable(data[..size])
      modifies this`sps, this`pps, this`extradata, this`flushFramebuf, heap`allocations, heap`freed
      ensures Valid() && Owns(heap) && !IsMine(data)
      ensures Value() == AfterNal(old(Value()), data[..size])
      ensures flushFramebuf == (old(flushFramebuf) && KindOf(data[..size]) == Other)
      ensures heap.freed == old(heap.freed) + FreedFor(KindOf(data[..size]), old(sps), old(pps), old(extradata))
      ensures OldOrNew(heap)
      ensures old(heap.Once()) ==> heap.Once()
    {
      ghost var kind := KindOf(data[..size]);
      var detected := ExtractParameterSet(heap, data, size);
      if detected {
        ghost var freed := heap.freed;
        InitStreamExtraData(heap);
        FreedInOrder(freed, old(heap.freed), kind, old(sps), old(pps), old(extradata));
      }
    }

    /** Lines 238-271: a fragment that ends a NAL unit, up to the write.  `data` is the packet's data. */
    method FinishNal(heap: Heap, source: Packet) returns (data: array<byte>, size: nat)
      requires Valid() && Owns(heap) && IsPacket(heap, source)
      requires bufOffset > 0 ==> bufOffset + source.dataLength <= ONE_MB
      requires Readable(Open() + source.data[..])
      modifies this`sps, this`pps, this`buf, this`bufOffset, this`extradata, this`flushFramebuf
      modifies buf, heap`allocations, heap`freed
      ensures Valid() && Owns(heap) && !IsMine(data)
      ensures size <= data.Length && data[..size] == old(Open()) + old(source.data[..])
      ensures data == if old(bufOffset) > 0 then old(buf) else source.data
      ensures Value() == AfterNal(old(Value()).(open := []), data[..size])
      ensures flushFramebuf == (old(flushFramebuf) && KindOf(data[..size]) == Other)
      ensures heap.freed == old(heap.freed) + FreedFor(KindOf(data[..size]), old(sps), old(pps), old(extradata))
      ensures OldOrNew(heap)
      ensures old(heap.Once()) ==> heap.Once()
    {
      data, size := CompleteNal(source);
      StoreParameterSet(heap, data, size);
    }

    /** Lines 277-289: the write, unless it is held back, and the end of the packet's header. */
    method WriteAndRelease(heap: Heap, source: Packet, data: array?<byte>, packet: Written)
      requires Valid() && Owns(heap) && heap.Live(source)
      requires data != null && flushFramebuf ==> heap.Live(data) && !IsMine(data) && data as object != source
      modifies this`written, heap`freed, heap`given
      ensures Valid() && Owns(heap)
      ensures Value() == old(Value()).(writes := if flushFramebuf then old(written) + [packet] else old(written))
      ensures heap.freed == old(heap.freed) + [source]
      ensures heap.given == old(heap.given) + if flushFramebuf && data != null then [data] else []
      ensures old(heap.Once()) ==> heap.Once()
    {
      if flushFramebuf {
        if data != null {
          heap.Give(data);
        }
        written := written + [packet];
      }
      heap.Free(source);
    }

    /** The blocks that write_video_frame frees, given this packet. */
    ghost function FreedWith(source: Packet): seq<object>
      requires Valid() && source.data != null
      reads this, buf, source.data
    {
      if EndOfNal !in source.flags then [source.data, source]
      else FreedFor(KindOf(Open() + source.data[..]), sps, pps, extradata) + [source]
    }

    /** The blocks that it hands over: a complete NAL unit of other than parameter sets, if both parameter
        sets were known before. */
    ghost function GivenWith(source: Packet): seq<object>
      requires Valid() && source.data != null
      reads this, sps, pps, buf, extradata, source.data
    {
      if EndOfNal in source.flags && KindOf(Open() + source.data[..]) == Other && Ready(Value())
      then [if bufOffset > 0 then buf else source.data] else []
    }

    lemma ConsumedAreHeld(source: Packet)
      requires Valid() && source.data != null
      ensures forall b :: b in FreedWith(source) || b in GivenWith(source) ==> b in Held(source)
    {
    }

    /** write_video_frame for a fragment that does not end a NAL unit. */
    method WritePartial(heap: Heap, source: Packet)
      requires Valid() && Owns(heap) && IsPacket(heap, source)
      requires bufOffset + source.dataLength <= ONE_MB
      requires EndOfNal !in source.flags && flushFramebuf == Ready(Value())
      modifies this`buf, this`bufOffset, this`written, buf, heap
      ensures Valid() && Owns(heap) && OldOrNew(heap)
      ensures Value() == Step(rescale, old(Value()), old(FragmentOf(source)))
      ensures heap.freed == old(heap.freed) + old(FreedWith(source))
      ensures heap.given == old(heap.given) + old(GivenWith(source))
      ensures old(heap.Once()) ==> heap.Once()
    {
      BufferFragment(heap, source);
      WriteAndRelease(heap, source, null, EMPTY_WRITE);
    }

    /** write_video_frame for a fragment that ends a NAL unit. */
    method WriteComplete(heap: Heap, source: Packet)
      requires Valid() && Owns(heap) && IsPacket(heap, source)
      requires bufOffset > 0 ==> bufOffset + source.dataLength <= ONE_MB
      requires EndOfNal in source.flags && flushFramebuf == Ready(Value())
      requires Readable(Open() + source.data[..])
      modifies this`sps, this`pps, this`buf, this`bufOffset, this`extradata, this`flushFramebuf, this`written
      modifies buf, heap
      ensures Valid() && Owns(heap) && OldOrNew(heap)
      ensures Value() == Step(rescale, old(Value()), old(FragmentOf(source)))
      ensures heap.freed == old(heap.freed) + old(FreedWith(source))
      ensures heap.given == old(heap.given) + old(GivenWith(source))
      ensures old(heap.Once()) ==> heap.Once()
    {
      ghost var m, d := Value(), Open() + source.data[..];
      var data, size := FinishNal(heap, source);
      assert data[..size] == d && Value() == AfterNal(m.(open := []), d);
      var packet := Written(data[..size], rescale(source.pts), SyncFrame in source.flags);
      ghost var stored := FreedFor(KindOf(d), old(sps), old(pps), old(extradata));
      AppendTwice(old(heap.freed), stored, [source]);
      assert stored + [source] == old(FreedWith(source));
      WriteAndRelease(heap, source, data, packet);
    }

    /** write_video_frame, given what it got from the queue of encoded packets. */
    method WriteVideoFrame(heap: Heap, source: Packet?)
      requires Valid() && Owns(heap)
      requires source != null ==> IsPacket(heap, source)
      requires source != null ==> FitsAfter(Open(), FragmentOf(source))
      modifies this`sps, this`pps, this`buf, this`bufOffset, this`extradata, this`flushFramebuf, this`written
      modifies buf, heap
      ensures Valid() && Owns(heap) && OldOrNew(heap)
      ensures source == null ==>
                Value() == old(Value()) && heap.freed == old(heap.freed) && heap.given == old(heap.given)
      ensures source != null ==> Value() == Step(rescale, old(Value()), old(FragmentOf(source)))
      ensures source != null ==> heap.freed == old(heap.freed) + old(FreedWith(source))
      ensures source != null ==> heap.given == old(heap.given) + old(GivenWith(source))
      ensures old(heap.Once()) ==> heap.Once()
    {
      flushFramebuf := pps != null && sps != null;
      if source == null {
        return;
      }
      if EndOfNal !in source.flags {
        WritePartial(heap, source);
      } else {
        WriteComplete(heap, source);
      }
    }
  }

  /** What the writer is about to process meets the precondition of write_video_frame. */
  lemma NextFits(rescale: int64 -> int64, parts: seq<seq<Fragment>>, i: nat, f: Fragment)
    requires Acceptable(Flatten(parts)) && i < |parts| && parts[i] == [f]
    ensures FitsAfter(Run(rescale, Flatten(parts[..i])).open, f)
    ensures Run(rescale, Flatten(parts[..i + 1])) == Step(rescale, Run(rescale, Flatten(parts[..i])), f)
  {
    var before := Flatten(parts[..i]);
    FlattenAt(parts, i, f);
    AcceptablePrefix(Flatten(parts), |before|);
    WriterMeetsSpec(rescale, before);
    assert (before + [f])[..|before|] == before;
  }

  lemma MissAddsNothing(parts: seq<seq<Fragment>>, i: nat)
    requires i < |parts| && parts[i] == []
    ensures Flatten(parts[..i + 1]) == Flatten(parts[..i])
  {
    FlattenSplit(parts, i);
  }

  /** The packets from number `i` on are still to be processed, nobody else has them, and `parts` is
      what they contain. */
  ghost predicate Remaining(mux: MuxState, heap: Heap, sources: seq<Packet?>, parts: seq<seq<Fragment>>, i: nat)
    reads mux, heap, set p: Packet? | p in sources && p != null && p.data != null :: p.data
  {
    && |parts| == |sources| && Apart(sources)
    && (forall j :: i <= j < |sources| && sources[j] != null ==> mux.IsPacket(heap, sources[j]))
    && (forall j :: i <= j < |sources| ==> parts[j] == if sources[j] == null then [] else PartOf(sources[j]))
  }

  /** write_video_frame leaves the packets alone that it does not get. */
  method WritePacket(mux: MuxState, heap: Heap, source: Packet, ghost others: set<Packet>)
    requires mux.Valid() && mux.Owns(heap) && mux.IsPacket(heap, source)
    requires FitsAfter(mux.Open(), FragmentOf(source))
    requires forall p :: p in others ==> mux.IsPacket(heap, p) && p != source && p.data != source.data
    modifies mux, mux.buf, heap
    ensures mux.Valid() && mux.Owns(heap) && mux.OldOrNew(heap)
    ensures mux.Value() == Step(mux.rescale, old(mux.Value()), old(FragmentOf(source)))
    ensures forall p :: p in others ==> mux.IsPacket(heap, p) && p.data[..] == old(p.data[..])
    ensures old(heap.Once()) ==> heap.Once()
  {
    ghost var f, g := mux.FreedWith(source), mux.GivenWith(source);
    assert forall p :: p in others ==> p !in f && p !in g && p.data !in f && p.data !in g by {
      mux.ConsumedAreHeld(source);
      assert forall p :: p in others ==> p !in mux.Held(source) && p.data !in mux.Held(source);
    }
    mux.WriteVideoFrame(heap, source);
  }

  /** A missed dequeue leaves everything alone but the flag. */
  method WriteMiss(mux: MuxState, heap: Heap, ghost others: set<Packet>)
    requires mux.Valid() && mux.Owns(heap)
    requires forall p :: p in others ==> mux.IsPacket(heap, p)
    modifies mux, mux.buf, heap
    ensures mux.Valid() && mux.Owns(heap) && mux.OldOrNew(heap) && mux.Value() == old(mux.Value())
    ensures forall p :: p in others ==> mux.IsPacket(heap, p) && p.data[..] == old(p.data[..])
    ensures old(heap.Once()) ==> heap.Once()
  {
    mux.WriteVideoFrame(heap, null);
  }

  /** One round of the main loop of writer_thread, as far as video is concerned. */
  method WriteNext(mux: MuxState, heap: Heap, sources: seq<Packet?>, ghost parts: seq<seq<Fragment>>, i: nat)
    requires mux.Valid() && mux.Owns(heap)
    requires i < |sources| && Remaining(mux, heap, sources, parts, i) && Acceptable(Flatten(parts))
    requires mux.Value() == Run(mux.rescale, Flatten(parts[..i]))
    modifies mux, mux.buf, heap
    ensures mux.Valid() && mux.Owns(heap) && mux.OldOrNew(heap) && Remaining(mux, heap, sources, parts, i + 1)
    ensures mux.Value() == Run(mux.rescale, Flatten(parts[..i + 1]))
    ensures old(heap.Once()) ==> heap.Once()
  {
    var source := sources[i];
    ghost var others := set j | i < j < |sources| && sources[j] != null :: sources[j];
    if source == null {
      MissAddsNothing(parts, i);
      WriteMiss(mux, heap, others);
    } else {
      NextFits(mux.rescale, parts, i, FragmentOf(source));
      WritePacket(mux, heap, source, others);
    }
    forall j | i < j < |sources| && sources[j] != null
      ensures mux.IsPacket(heap, sources[j]) && parts[j] == PartOf(sources[j])
    {
      assert sources[j] in others;
    }
  }

  /** The main loop of writer_thread, as far as video is concerned: write_video_frame gets whatever was
      dequeued, and what it writes in all, empty packets aside, are the wanted NAL units.  No block is freed
      or handed over twice on the way. */
  method WriteAll(mux: MuxState, heap: Heap, sources: seq<Packet?>, ghost parts: seq<seq<Fragment>>)
    requires mux.Valid() && mux.Value() == INITIAL_MUX
    requires mux.sps == mux.pps == mux.buf == mux.extradata == null
    requires Remaining(mux, heap, sources, parts, 0) && Acceptable(Flatten(parts))
    modifies mux, heap
    ensures mux.Valid() && mux.Owns(heap)
    ensures old(heap.Once()) ==> heap.Once()
    ensures mux.Value() == Run(mux.rescale, Flatten(parts))
    ensures NonEmptyWrites(mux.written) == Filtered(mux.rescale, Group(Flatten(parts)).nals)
    ensures AreTheWanted(mux.rescale, Group(Flatten(parts)).nals, NonEmptyWrites(mux.written))
  {
    for i := 0 to |sources|
      invariant mux.Valid() && mux.Owns(heap) && mux.OldOrNew(heap) && (old(heap.Once()) ==> heap.Once())
      invariant Remaining(mux, heap, sources, parts, i)
      invariant mux.Value() == Run(mux.rescale, Flatten(parts[..i]))
    {
      WriteNext(mux, heap, sources, parts, i);
    }
    assert parts[..|sources|] == parts;
    WriterMeetsSpec(mux.rescale, Flatten(parts));
    AcceptableNalsAreReadable(Flatten(parts));
    FilteredAreNonEmpty(mux.rescale, Group(Flatten(parts)).nals);
    FilteredAre(mux.rescale, Group(Flatten(parts)).nals);
  }

  /** The copy that a parameter set of this kind replaces. */
  function ReplacedBy(kind: Kind, sps: array?<byte>, pps: array?<byte>): seq<object> {
    if kind == Sps && sps != null then [sps] else if kind == Pps && pps != null then [pps] else []
  }

  lemma FreedInOrder(freed: seq<object>, before: seq<object>, kind: Kind, sps: array?<byte>, pps: array?<byte>,
                     extradata: array?<byte>)
    requires freed == before + ReplacedBy(kind, sps, pps) && kind != Other
    ensures freed + (if extradata == null then [] else [extradata]) == before + FreedFor(kind, sps, pps, extradata)
  {
  }

  /** All blocks that are freed for a NAL unit of this kind. */
  function FreedFor(kind: Kind, sps: array?<byte>, pps: array?<byte>, extradata: array?<byte>): seq<object> {
    ReplacedBy(kind, sps, pps) + if kind != Other && extradata != null then [extradata] else []
  }
}

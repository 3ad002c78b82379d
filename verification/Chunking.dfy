/** How decode_thread cuts packets into OMX buffers (encode.c:50-87, 186-191), and how the pieces
are put together again: a buffer that carries ENDOFFRAME ends a group. */
module Chunking {
  import opened Media
  import opened Timestamps

  /** A demuxed video packet: the fields of struct packet_t that decode_thread reads. */
  datatype Packet = Packet(data: seq<byte>, pts: int64, flags: set<Flag>)

  /** What is handed to the decoder in one OMX_EmptyThisBuffer: which buffer, its filled part, its
      timestamp (None where the code leaves the old one in place) and its flags. */
  datatype Chunk = Chunk(buffer: nat, data: seq<byte>, ticks: Option<Ticks>, flags: set<Flag>)

  /** Lines 60-83: the next piece of `p`, of which `off` bytes are already sent, in a buffer that
      has room for `alloc` bytes. */
  function NextChunk(p: Packet, off: nat, buffer: nat, alloc: nat, first: bool): Chunk
    requires off <= |p.data|
  {
    var left := |p.data| - off;
    var n := if left < alloc then left else alloc;
    Chunk(buffer, p.data[off..off + n], Some(PtsToOmx(ToUnsigned(p.pts))),
          {if first then StartTime else TimeUnknown}
          + (if KeyFrame in p.flags then {SyncFrame} else {})
          + (if n == left then {EndOfFrame} else {}))
  }

  /** Lines 197-198 */
  function EosChunk(buffer: nat): Chunk {
    Chunk(buffer, [], None, {TimeUnknown, EndOfStream})
  }

  /** Packets without bytes are never sent. */
  function NonEmpty(ps: seq<Packet>): seq<Packet> {
    if ps == [] then [] else
    var p := ps[|ps| - 1];
    NonEmpty(ps[..|ps| - 1]) + if p.data == [] then [] else [p]
  }

  // ---------------------------------------------------------------------------------------------
  // The receiving side

  datatype Groups = Groups(closed: seq<seq<Chunk>>, open: seq<Chunk>)

  /** Cut a list of chunks after each ENDOFFRAME; what follows the last one is still open. */
  function Regroup(cs: seq<Chunk>): Groups {
    if cs == [] then Groups([], []) else
    var g := Regroup(cs[..|cs| - 1]);
    var c := cs[|cs| - 1];
    if EndOfFrame in c.flags then Groups(g.closed + [g.open + [c]], []) else Groups(g.closed, g.open + [c])
  }

  function Bytes(cs: seq<Chunk>): seq<byte> {
    if cs == [] then [] else Bytes(cs[..|cs| - 1]) + cs[|cs| - 1].data
  }

  /** Chunk `i` of the chunks `cs` that carry the first `off` bytes of `p`: it carries something, and
      the timestamp and flags of its packet and its place.  `first` tells whether nothing was sent
      before `p`. */
  ghost predicate Marked(p: Packet, off: nat, cs: seq<Chunk>, first: bool, i: nat)
    requires i < |cs|
  {
    && cs[i].data != []
    && cs[i].ticks == Some(PtsToOmx(ToUnsigned(p.pts)))
    && (SyncFrame in cs[i].flags <==> KeyFrame in p.flags)
    && (EndOfFrame in cs[i].flags <==> i == |cs| - 1 && off == |p.data|)
    && (StartTime in cs[i].flags <==> first && i == 0)
    && (TimeUnknown in cs[i].flags <==> !(first && i == 0))
    && EndOfStream !in cs[i].flags
  }

  /** `cs` are proper pieces of the first `off` bytes of `p`. */
  ghost predicate Cuts(p: Packet, off: nat, cs: seq<Chunk>, first: bool)
    requires off <= |p.data|
  {
    && Bytes(cs) == p.data[..off]
    && forall i {:trigger Marked(p, off, cs, first, i)} :: 0 <= i < |cs| ==> Marked(p, off, cs, first, i)
  }

  /** `groups` are the packets `ps`, one group of chunks each, in order. */
  ghost predicate Delivers(ps: seq<Packet>, groups: seq<seq<Chunk>>) {
    && |groups| == |ps|
    && forall i :: 0 <= i < |ps| ==> Cuts(ps[i], |ps[i].data|, groups[i], i == 0)
  }

  /** Everything sent for `ps` has arrived, and nothing else. */
  ghost predicate Sent(ps: seq<Packet>, cs: seq<Chunk>) {
    Delivers(NonEmpty(ps), Regroup(cs).closed) && Regroup(cs).open == []
  }

  /** Everything sent for `ps` has arrived, then `off` bytes of `p`. */
  ghost predicate SentPart(ps: seq<Packet>, p: Packet, off: nat, cs: seq<Chunk>)
    requires off <= |p.data|
  {
    if off == |p.data| then
      Sent(ps + [p], cs)
    else
      && Delivers(NonEmpty(ps), Regroup(cs).closed)
      && Cuts(p, off, Regroup(cs).open, NonEmpty(ps) == [])
  }

  // ---------------------------------------------------------------------------------------------
  // Regrouping neither loses nor invents a byte

  function Payloads(ps: seq<Packet>): (r: seq<seq<byte>>)
    ensures |r| == |ps|
  {
    seq(|ps|, i requires 0 <= i < |ps| => ps[i].data)
  }

  function GroupBytes(groups: seq<seq<Chunk>>): (r: seq<seq<byte>>)
    ensures |r| == |groups|
  {
    seq(|groups|, i requires 0 <= i < |groups| => Bytes(groups[i]))
  }

  lemma DeliveredPayloads(ps: seq<Packet>, groups: seq<seq<Chunk>>)
    requires Delivers(ps, groups)
    ensures GroupBytes(groups) == Payloads(ps)
  {
    forall i | 0 <= i < |ps| ensures Bytes(groups[i]) == ps[i].data {
      assert ps[i].data[..|ps[i].data|] == ps[i].data;
    }
  }

  /** The timestamp that a receiver reads from a chunk. */
  function TimestampOf(c: Chunk): Option<int64> {
    if c.ticks.None? then None else Some(ToSigned(OmxToPts(c.ticks.value)))
  }

  /** Every chunk of a packet carries the timestamp of the packet. */
  lemma CutsKeepTimestamp(p: Packet, off: nat, cs: seq<Chunk>, first: bool, i: nat)
    requires off <= |p.data| && Cuts(p, off, cs, first) && i < |cs|
    ensures TimestampOf(cs[i]) == Some(p.pts)
  {
    assert Marked(p, off, cs, first, i);
    HalvesAgree(p.pts, cs[i].ticks.value);
  }

  lemma RegroupSnoc(cs: seq<Chunk>, c: Chunk)
    ensures var g := Regroup(cs);
            Regroup(cs + [c]) ==
            if EndOfFrame in c.flags then Groups(g.closed + [g.open + [c]], []) else Groups(g.closed, g.open + [c])
  {
    assert (cs + [c])[..|cs|] == cs;
  }

  /** Regrouping only cuts: the groups in order are the list. */
  lemma {:induction false} RegroupKeepsAll(cs: seq<Chunk>)
    ensures Flatten(Regroup(cs).closed) + Regroup(cs).open == cs
  {
    if cs != [] {
      var rest, c := cs[..|cs| - 1], cs[|cs| - 1];
      RegroupKeepsAll(rest);
      var g := Regroup(rest);
      FlattenSnoc(g.closed, g.open + [c]);
      assert Flatten(g.closed) + (g.open + [c]) == rest + [c];
    }
  }

  /** Every closed group ends with the one chunk of it that carries ENDOFFRAME. */
  ghost predicate EndsAtEndOfFrame(g: Groups) {
    && (forall i :: 0 <= i < |g.closed| ==>
      && g.closed[i] != []
      && forall j :: 0 <= j < |g.closed[i]| ==> (EndOfFrame in g.closed[i][j].flags <==> j == |g.closed[i]| - 1))
    && (forall j :: 0 <= j < |g.open| ==> EndOfFrame !in g.open[j].flags)
  }

  lemma {:induction false} GroupsEndAtEndOfFrame(cs: seq<Chunk>)
    ensures EndsAtEndOfFrame(Regroup(cs))
  {
    if cs != [] {
      GroupsEndAtEndOfFrame(cs[..|cs| - 1]);
    }
  }

  lemma NonEmptySnoc(ps: seq<Packet>, p: Packet)
    ensures NonEmpty(ps + [p]) == NonEmpty(ps) + if p.data == [] then [] else [p]
  {
    assert (ps + [p])[..|ps|] == ps;
  }

  lemma {:induction false} NonEmptyConcat(ps: seq<Packet>, qs: seq<Packet>)
    ensures NonEmpty(ps + qs) == NonEmpty(ps) + NonEmpty(qs)
  {
    if qs == [] {
      assert ps + qs == ps;
    } else {
      var rest, q := qs[..|qs| - 1], qs[|qs| - 1];
      NonEmptyConcat(ps, rest);
      assert (ps + qs)[..|ps + qs| - 1] == ps + rest;
      AppendTwice(NonEmpty(ps), NonEmpty(rest), if q.data == [] then [] else [q]);
    }
  }

  // ---------------------------------------------------------------------------------------------
  // One step of the sender

  lemma SendStarts(ps: seq<Packet>, p: Packet, cs: seq<Chunk>)
    requires Sent(ps, cs)
    ensures SentPart(ps, p, 0, cs)
  {
    NonEmptySnoc(ps, p);
  }

  lemma CutsOneMore(p: Packet, off: nat, cs: seq<Chunk>, buffer: nat, alloc: nat, first: bool)
    requires off < |p.data| && alloc > 0
    requires Cuts(p, off, cs, first)
    ensures var c := NextChunk(p, off, buffer, alloc, first && cs == []);
            && 0 < |c.data| <= alloc && off + |c.data| <= |p.data|
            && Cuts(p, off + |c.data|, cs + [c], first)
  {
    var c := NextChunk(p, off, buffer, alloc, first && cs == []);
    var cs', off' := cs + [c], off + |c.data|;
    assert cs'[..|cs|] == cs;
    assert p.data[..off] + c.data == p.data[..off'];
    forall i | 0 <= i < |cs'| ensures Marked(p, off', cs', first, i) {
      assert i < |cs| ==> Marked(p, off, cs, first, i);
    }
  }

  lemma DeliversOneMore(ps: seq<Packet>, groups: seq<seq<Chunk>>, p: Packet, group: seq<Chunk>)
    requires Delivers(ps, groups) && Cuts(p, |p.data|, group, ps == [])
    ensures Delivers(ps + [p], groups + [group])
  {
  }

  lemma NothingSentYet(cs: seq<Chunk>)
    ensures cs == [] <==> Regroup(cs).closed == [] && Regroup(cs).open == []
  {
  }

  /** The next chunk is the last one of the packet. */
  lemma SendEnds(ps: seq<Packet>, p: Packet, cs: seq<Chunk>, c: Chunk)
    requires p.data != [] && EndOfFrame in c.flags
    requires Delivers(NonEmpty(ps), Regroup(cs).closed)
    requires Cuts(p, |p.data|, Regroup(cs).open + [c], NonEmpty(ps) == [])
    ensures Sent(ps + [p], cs + [c])
  {
    RegroupSnoc(cs, c);
    NonEmptySnoc(ps, p);
    DeliversOneMore(NonEmpty(ps), Regroup(cs).closed, p, Regroup(cs).open + [c]);
  }

  /** The next chunk is not the last one of the packet. */
  lemma SendStays(ps: seq<Packet>, p: Packet, off: nat, cs: seq<Chunk>, c: Chunk)
    requires off < |p.data| && EndOfFrame !in c.flags
    requires Delivers(NonEmpty(ps), Regroup(cs).closed)
    requires Cuts(p, off, Regroup(cs).open + [c], NonEmpty(ps) == [])
    ensures SentPart(ps, p, off, cs + [c])
  {
    RegroupSnoc(cs, c);
  }

  /** Whether nothing has been sent before shows in what has been sent for the packets so far. */
  lemma FirstChunkIff(ps: seq<Packet>, p: Packet, off: nat, cs: seq<Chunk>)
    requires off < |p.data| && SentPart(ps, p, off, cs)
    ensures cs == [] <==> NonEmpty(ps) == [] && Regroup(cs).open == []
  {
    NothingSentYet(cs);
  }

  /** Chunk `c` takes the packet from `off` to `off'`. */
  lemma SendOn(ps: seq<Packet>, p: Packet, off: nat, off': nat, cs: seq<Chunk>, c: Chunk)
    requires off < |p.data| && SentPart(ps, p, off, cs)
    requires off' <= |p.data| && (EndOfFrame in c.flags <==> off' == |p.data|)
    requires Cuts(p, off', Regroup(cs).open + [c], NonEmpty(ps) == [])
    ensures SentPart(ps, p, off', cs + [c])
  {
    if off' == |p.data| {
      SendEnds(ps, p, cs, c);
    } else {
      SendStays(ps, p, off', cs, c);
    }
  }

  lemma LastChunkIff(p: Packet, off: nat, buffer: nat, alloc: nat, first: bool)
    requires off < |p.data|
    ensures var c := NextChunk(p, off, buffer, alloc, first);
            && (EndOfFrame in c.flags <==> off + |c.data| == |p.data|)
            && (EndOfFrame !in c.flags ==> |c.data| == alloc)
  {
  }

  lemma NextChunkCuts(ps: seq<Packet>, p: Packet, off: nat, cs: seq<Chunk>, c: Chunk, alloc: nat)
    requires off < |p.data| && alloc > 0 && SentPart(ps, p, off, cs)
    requires c == NextChunk(p, off, c.buffer, alloc, cs == [])
    ensures 0 < |c.data| <= alloc && off + |c.data| <= |p.data|
    ensures Cuts(p, off + |c.data|, Regroup(cs).open + [c], NonEmpty(ps) == [])
  {
    FirstChunkIff(ps, p, off, cs);
    CutsOneMore(p, off, Regroup(cs).open, c.buffer, alloc, NonEmpty(ps) == []);
  }

  lemma SendContinues(ps: seq<Packet>, p: Packet, off: nat, cs: seq<Chunk>, buffer: nat, alloc: nat)
    requires off < |p.data| && alloc > 0
    requires SentPart(ps, p, off, cs)
    ensures var c := NextChunk(p, off, buffer, alloc, cs == []);
            && 0 < |c.data| <= alloc && off + |c.data| <= |p.data|
            && (EndOfFrame !in c.flags ==> |c.data| == alloc)
            && SentPart(ps, p, off + |c.data|, cs + [c])
  {
    var c := NextChunk(p, off, buffer, alloc, cs == []);
    NextChunkCuts(ps, p, off, cs, c, alloc);
    LastChunkIff(p, off, buffer, alloc, cs == []);
    SendOn(ps, p, off, off + |c.data|, cs, c);
  }

  // ---------------------------------------------------------------------------------------------
  // There is only one such cut

  /** These chunks fit into buffers with this room, and all but the last one fill them. */
  ghost predicate FillBuffers(cs: seq<Chunk>, room: nat -> nat) {
    forall i :: 0 <= i < |cs| ==> |cs[i].data| <= room(i) && (EndOfFrame !in cs[i].flags ==> |cs[i].data| == room(i))
  }

  lemma {:induction false} BytesPrefix(cs: seq<Chunk>, k: nat)
    requires k <= |cs|
    ensures Bytes(cs[..k]) <= Bytes(cs)
    ensures k < |cs| && cs[k].data != [] ==> |Bytes(cs[..k])| < |Bytes(cs)|
  {
    if k == |cs| {
      assert cs[..k] == cs;
    } else {
      var rest := cs[..|cs| - 1];
      BytesPrefix(rest, k);
      assert rest[..k] == cs[..k];
    }
  }

  /** The bytes in chunk `k`: as many of those still to be sent as its buffer takes. */
  lemma ChunkIs(p: Packet, cs: seq<Chunk>, first: bool, room: nat -> nat, k: nat)
    requires Cuts(p, |p.data|, cs, first) && FillBuffers(cs, room) && k < |cs|
    ensures var o := |Bytes(cs[..k])|;
            && o <= |p.data| && Bytes(cs[..k]) == p.data[..o]
            && |cs[k].data| == (if |p.data| - o < room(k) then |p.data| - o else room(k))
            && cs[k].data == p.data[o..o + |cs[k].data|]
  {
    assert Marked(p, |p.data|, cs, first, k);
    BytesNext(cs, k);
    assert p.data[..|p.data|] == p.data;
    BytesPrefix(cs, k);
    BytesPrefix(cs, k + 1);
    if k == |cs| - 1 {
      assert cs[..k + 1] == cs;
    } else {
      assert Marked(p, |p.data|, cs, first, k + 1);
    }
  }

  lemma BytesNext(cs: seq<Chunk>, k: nat)
    requires k < |cs|
    ensures Bytes(cs[..k + 1]) == Bytes(cs[..k]) + cs[k].data
  {
    assert cs[..k + 1][..k] == cs[..k];
  }

  lemma SameChunk(p: Packet, cs: seq<Chunk>, ds: seq<Chunk>, first: bool, room: nat -> nat, k: nat)
    requires Cuts(p, |p.data|, cs, first) && FillBuffers(cs, room)
    requires Cuts(p, |p.data|, ds, first) && FillBuffers(ds, room)
    requires k < |cs| && k < |ds| && Bytes(cs[..k]) == Bytes(ds[..k])
    ensures cs[k].data == ds[k].data && Bytes(cs[..k + 1]) == Bytes(ds[..k + 1])
  {
    ChunkIs(p, cs, first, room, k);
    ChunkIs(p, ds, first, room, k);
    BytesNext(cs, k);
    BytesNext(ds, k);
  }

  lemma {:induction false} SameUpTo(p: Packet, cs: seq<Chunk>, ds: seq<Chunk>, first: bool, room: nat -> nat, m: nat)
    requires Cuts(p, |p.data|, cs, first) && FillBuffers(cs, room)
    requires Cuts(p, |p.data|, ds, first) && FillBuffers(ds, room)
    requires m <= |cs| && m <= |ds|
    ensures Bytes(cs[..m]) == Bytes(ds[..m])
    ensures forall k :: 0 <= k < m ==> cs[k].data == ds[k].data
  {
    if m > 0 {
      SameUpTo(p, cs, ds, first, room, m - 1);
      SameChunk(p, cs, ds, first, room, m - 1);
    }
  }

  /** The room in the buffers determines how a packet is cut. */
  lemma CutIsUnique(p: Packet, cs: seq<Chunk>, ds: seq<Chunk>, first: bool, room: nat -> nat)
    requires Cuts(p, |p.data|, cs, first) && FillBuffers(cs, room)
    requires Cuts(p, |p.data|, ds, first) && FillBuffers(ds, room)
    ensures |cs| == |ds| && forall k :: 0 <= k < |cs| ==> cs[k].data == ds[k].data
  {
    var m := if |cs| < |ds| then |cs| else |ds|;
    SameUpTo(p, cs, ds, first, room, m);
    assert cs[..|cs|] == cs && ds[..|ds|] == ds;
    if m < |cs| {
      assert Marked(p, |p.data|, cs, first, m);
      BytesPrefix(cs, m);
    }
    if m < |ds| {
      assert Marked(p, |p.data|, ds, first, m);
      BytesPrefix(ds, m);
    }
  }

  // ---------------------------------------------------------------------------------------------
  // The two loops

  /** Lines 60-83, statement by statement: fill the buffer and compose its flag word. */
  method FillBuffer(packet: Packet, p: nat, buffer: nat, allocLen: nat, first: bool) returns (chunk: Chunk)
    requires p <= |packet.data|
    ensures chunk == NextChunk(packet, p, buffer, allocLen, first)
    ensures |chunk.data| <= allocLen && p + |chunk.data| <= |packet.data|
    ensures chunk.data == packet.data[p..p + |chunk.data|]
    ensures |chunk.data| == allocLen || p + |chunk.data| == |packet.data|
    ensures EndOfFrame in chunk.flags <==> p + |chunk.data| == |packet.data|
    ensures SyncFrame in chunk.flags <==> KeyFrame in packet.flags
    ensures (StartTime in chunk.flags <==> first) && (TimeUnknown in chunk.flags <==> !first)
    ensures TimestampOf(chunk) == Some(packet.pts)
  {
    var bytesLeft := |packet.data| - p;
    var copyLength := if bytesLeft < allocLen then bytesLeft else allocLen;
    var data := packet.data[p..p + copyLength];
    bytesLeft := bytesLeft - copyLength;
    var ticks := PtsToOmx(ToUnsigned(packet.pts));
    var flags;
    if first {
      flags := {StartTime};
    } else {
      flags := {TimeUnknown};
    }
    if KeyFrame in packet.flags {
      flags := flags + {SyncFrame};
    }
    if bytesLeft == 0 {
      flags := flags + {EndOfFrame};
    }
    chunk := Chunk(buffer, data, Some(ticks), flags);
    HalvesAgree(packet.pts, ticks);
  }

  /** The chunks travel in the buffers chosen for them, and they fit; a chunk that does not end its packet
      fills its buffer. */
  ghost predicate InBuffers(cs: seq<Chunk>, choose: nat -> nat, alloc: nat -> nat) {
    forall i :: 0 <= i < |cs| ==>
      && cs[i].buffer == choose(i) && |cs[i].data| <= alloc(choose(i))
      && (EndOfFrame !in cs[i].flags ==> |cs[i].data| == alloc(choose(i)))
  }

  lemma InBuffersNext(cs: seq<Chunk>, c: Chunk, choose: nat -> nat, alloc: nat -> nat)
    requires InBuffers(cs, choose, alloc) && c.buffer == choose(|cs|) && |c.data| <= alloc(c.buffer)
    requires EndOfFrame !in c.flags ==> |c.data| == alloc(c.buffer)
    ensures InBuffers(cs + [c], choose, alloc)
  {
  }

  /** One round of the loop over the bytes of a packet. */
  method SendChunk(packet: Packet, p: nat, sent: seq<Chunk>, b: nat, allocLen: nat, ghost before: seq<Packet>)
    returns (chunk: Chunk)
    requires p < |packet.data| && allocLen > 0
    requires SentPart(before, packet, p, sent)
    ensures chunk.buffer == b && 0 < |chunk.data| <= allocLen && p + |chunk.data| <= |packet.data|
    ensures EndOfFrame !in chunk.flags ==> |chunk.data| == allocLen
    ensures SentPart(before, packet, p + |chunk.data|, sent + [chunk])
  {
    SendContinues(before, packet, p, sent, b, allocLen);
    chunk := FillBuffer(packet, p, b, allocLen, sent == []);
  }

  /** decode_thread's loop over the bytes of one packet.  `choose(n)` is the buffer that the n-th
      call of omx_get_next_input_buffer in the run returns, `alloc(b)` the room in buffer b. */
  method SendPacket(packet: Packet, sent: seq<Chunk>, choose: nat -> nat, alloc: nat -> nat, ghost before: seq<Packet>)
    returns (sent': seq<Chunk>)
    requires forall b :: alloc(b) > 0
    requires Sent(before, sent) && InBuffers(sent, choose, alloc)
    ensures Sent(before + [packet], sent')
    ensures InBuffers(sent', choose, alloc)
  {
    sent' := sent;
    var p, bytesLeft := 0, |packet.data|;
    SendStarts(before, packet, sent);
    while bytesLeft > 0
      invariant 0 <= bytesLeft == |packet.data| - p && p >= 0
      invariant SentPart(before, packet, p, sent')
      invariant InBuffers(sent', choose, alloc)
      decreases bytesLeft
    {
      var b := choose(|sent'|);
      var chunk := SendChunk(packet, p, sent', b, alloc(b), before);
      p, bytesLeft := p + |chunk.data|, bytesLeft - |chunk.data|;
      InBuffersNext(sent', chunk, choose, alloc);
      sent' := sent' + [chunk];
    }
  }

  /** decode_thread's loop over the packets it dequeues, up to the end of the stream. */
  method SendPackets(packets: seq<Packet>, choose: nat -> nat, alloc: nat -> nat) returns (sent: seq<Chunk>)
    requires forall b :: alloc(b) > 0
    ensures Sent(packets, sent)
    ensures GroupBytes(Regroup(sent).closed) == Payloads(NonEmpty(packets))
    ensures InBuffers(sent, choose, alloc)
  {
    sent := [];
    for k := 0 to |packets|
      invariant Sent(packets[..k], sent)
      invariant InBuffers(sent, choose, alloc)
    {
      sent := SendPacket(packets[k], sent, choose, alloc, packets[..k]);
      assert packets[..k + 1] == packets[..k] + [packets[k]];
    }
    assert packets[..|packets|] == packets;
    SentPayloads(packets, sent);
  }

  lemma SentPayloads(packets: seq<Packet>, sent: seq<Chunk>)
    requires Sent(packets, sent)
    ensures GroupBytes(Regroup(sent).closed) == Payloads(NonEmpty(packets))
  {
    DeliveredPayloads(NonEmpty(packets), Regroup(sent).closed);
  }
}

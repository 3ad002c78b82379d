/** Which frames become packets, and what each packet carries, frame by frame (demux.c:69-116). */
module FrameLaws {
  import opened Media
  import opened Selections
  import opened Chunking
  import opened Pipeline

  // ---------------------------------------------------------------------------------------------
  // Video

  function IsVideoFrame(c: Config, frames: seq<AvPacket>): nat -> bool {
    (k: nat) => k < |frames| && frames[k].stream == c.videoIndex && frames[k].pts.Some?
  }

  predicate CarriesVideo(c: Config, p: Packet, f: AvPacket) {
    p.data == f.data && f.pts.Some? && p.pts == c.rescale(f.pts.value) && p.flags == f.flags
  }

  /** `packets` are the timestamped video frames among `frames`, one packet for each and in order, with the
      frame's bytes and flags and its rescaled timestamp. */
  ghost predicate AreTheVideo(c: Config, frames: seq<AvPacket>, packets: seq<Packet>) {
    exists at :: Picks(at, |frames|, IsVideoFrame(c, frames)) && MatchVideo(c, frames, at, packets)
  }

  ghost predicate MatchVideo(c: Config, frames: seq<AvPacket>, at: seq<nat>, packets: seq<Packet>) {
    && |packets| == |at|
    && forall i :: 0 <= i < |at| ==> at[i] < |frames| && CarriesVideo(c, packets[i], frames[at[i]])
  }

  lemma VideoNext(c: Config, frames: seq<AvPacket>, n: nat)
    requires n < |frames|
    ensures var before, next := VideoPackets(c, frames[..n]), VideoPackets(c, frames[..n + 1]);
            if IsVideoFrame(c, frames)(n)
            then |next| == |before| + 1 && next[..|before|] == before && CarriesVideo(c, next[|before|], frames[n])
            else next == before
  {
    assert frames[..n + 1][..n] == frames[..n];
  }

  lemma MatchVideoNext(c: Config, frames: seq<AvPacket>, at: seq<nat>, n: nat)
    requires n < |frames| && MatchVideo(c, frames, at, VideoPackets(c, frames[..n]))
    ensures MatchVideo(c, frames, if IsVideoFrame(c, frames)(n) then at + [n] else at, VideoPackets(c, frames[..n + 1]))
  {
    VideoNext(c, frames, n);
  }

  lemma {:induction false} VideoAt(c: Config, frames: seq<AvPacket>, n: nat) returns (at: seq<nat>)
    requires n <= |frames|
    ensures Picks(at, n, IsVideoFrame(c, frames))
    ensures MatchVideo(c, frames, at, VideoPackets(c, frames[..n]))
  {
    if n == 0 {
      at := [];
    } else {
      var before := VideoAt(c, frames, n - 1);
      PicksNext(before, n - 1, IsVideoFrame(c, frames));
      MatchVideoNext(c, frames, before, n - 1);
      at := if IsVideoFrame(c, frames)(n - 1) then before + [n - 1] else before;
    }
  }

  lemma VideoPacketsAre(c: Config, frames: seq<AvPacket>)
    ensures AreTheVideo(c, frames, VideoPackets(c, frames))
  {
    var at := VideoAt(c, frames, |frames|);
    assert frames[..|frames|] == frames;
  }

  // ---------------------------------------------------------------------------------------------
  // Audio

  function IsAudioFrame(c: Config, frames: seq<AvPacket>): nat -> bool {
    (k: nat) =>
      k < |frames| && frames[k].stream == c.audioIndex && frames[k].stream != c.videoIndex && frames[k].pts.Some?
  }

  predicate CarriesAudio(p: AudioPacket, f: AvPacket) {
    p.data == f.data && f.pts == Some(p.pts) && p.dts == f.dts && p.duration == f.duration
  }

  /** `packets` are the timestamped audio frames among `frames`, one packet for each and in order, with the
      frame's bytes, timestamps and duration. */
  ghost predicate AreTheAudio(c: Config, frames: seq<AvPacket>, packets: seq<AudioPacket>) {
    exists at :: Picks(at, |frames|, IsAudioFrame(c, frames)) && MatchAudio(frames, at, packets)
  }

  ghost predicate MatchAudio(frames: seq<AvPacket>, at: seq<nat>, packets: seq<AudioPacket>) {
    && |packets| == |at|
    && forall i :: 0 <= i < |at| ==> at[i] < |frames| && CarriesAudio(packets[i], frames[at[i]])
  }

  lemma AudioNext(c: Config, frames: seq<AvPacket>, n: nat)
    requires n < |frames|
    ensures var before, next := AudioPackets(c, frames[..n]), AudioPackets(c, frames[..n + 1]);
            if IsAudioFrame(c, frames)(n)
            then |next| == |before| + 1 && next[..|before|] == before && CarriesAudio(next[|before|], frames[n])
            else next == before
  {
    assert frames[..n + 1][..n] == frames[..n];
  }

  lemma MatchAudioNext(c: Config, frames: seq<AvPacket>, at: seq<nat>, n: nat)
    requires n < |frames| && MatchAudio(frames, at, AudioPackets(c, frames[..n]))
    ensures MatchAudio(frames, if IsAudioFrame(c, frames)(n) then at + [n] else at, AudioPackets(c, frames[..n + 1]))
  {
    AudioNext(c, frames, n);
  }

  lemma {:induction false} AudioAt(c: Config, frames: seq<AvPacket>, n: nat) returns (at: seq<nat>)
    requires n <= |frames|
    ensures Picks(at, n, IsAudioFrame(c, frames))
    ensures MatchAudio(frames, at, AudioPackets(c, frames[..n]))
  {
    if n == 0 {
      at := [];
    } else {
      var before := AudioAt(c, frames, n - 1);
      PicksNext(before, n - 1, IsAudioFrame(c, frames));
      MatchAudioNext(c, frames, before, n - 1);
      at := if IsAudioFrame(c, frames)(n - 1) then before + [n - 1] else before;
    }
  }

  lemma AudioPacketsAre(c: Config, frames: seq<AvPacket>)
    ensures AreTheAudio(c, frames, AudioPackets(c, frames))
  {
    var at := AudioAt(c, frames, |frames|);
    assert frames[..|frames|] == frames;
  }

  // ---------------------------------------------------------------------------------------------
  // Packets with data

  function HasData(ps: seq<Packet>): nat -> bool {
    (k: nat) => k < |ps| && ps[k].data != []
  }

  ghost predicate AreAt(ps: seq<Packet>, at: seq<nat>, qs: seq<Packet>) {
    |qs| == |at| && forall i :: 0 <= i < |at| ==> at[i] < |ps| && qs[i] == ps[at[i]]
  }

  /** `qs` are the packets among `ps` that have data, all of them and in order. */
  ghost predicate AreTheNonEmpty(ps: seq<Packet>, qs: seq<Packet>) {
    exists at :: Picks(at, |ps|, HasData(ps)) && AreAt(ps, at, qs)
  }

  lemma NonEmptyNext(ps: seq<Packet>, n: nat)
    requires n < |ps|
    ensures NonEmpty(ps[..n + 1]) == NonEmpty(ps[..n]) + if HasData(ps)(n) then [ps[n]] else []
  {
    assert ps[..n + 1][..n] == ps[..n];
  }

  ghost predicate PickNonEmpty(ps: seq<Packet>, at: seq<nat>, n: nat)
    requires n <= |ps|
  {
    Picks(at, n, HasData(ps)) && AreAt(ps, at, NonEmpty(ps[..n]))
  }

  lemma PickNext(ps: seq<Packet>, at: seq<nat>, n: nat)
    requires n < |ps| && PickNonEmpty(ps, at, n)
    ensures PickNonEmpty(ps, if HasData(ps)(n) then at + [n] else at, n + 1)
  {
    PicksNext(at, n, HasData(ps));
    NonEmptyNext(ps, n);
  }

  lemma {:induction false} NonEmptyAt(ps: seq<Packet>, n: nat) returns (at: seq<nat>)
    requires n <= |ps|
    ensures PickNonEmpty(ps, at, n)
  {
    if n == 0 {
      at := [];
    } else {
      at := NonEmptyAt(ps, n - 1);
      PickNext(ps, at, n - 1);
      at := if HasData(ps)(n - 1) then at + [n - 1] else at;
    }
  }

  lemma NonEmptyAre(ps: seq<Packet>)
    ensures AreTheNonEmpty(ps, NonEmpty(ps))
  {
    var at := NonEmptyAt(ps, |ps|);
    assert ps[..|ps|] == ps;
  }
}

/** extract_streams as the loop it is (demux.c:55-126): which packets go into which queue, in which order,
and how the waiting for shorter queues bounds them.  The consumers' dequeues are a parameter here; their
interleaving with the rest of the program is the subject of the step system in module Pipeline, whose
actions make the same choices. */
module Demux {
  import opened Media
  import opened Chunking
  import opened Pipeline
  import opened FrameLaws

  /** How many packets the consumers of the two queues want to dequeue. */
  datatype Dequeues = Dequeues(video: nat, audio: nat)

  function Drop<T>(q: seq<T>, n: nat): seq<T> {
    q[if n < |q| then n else |q|..]
  }

  function Front<T>(q: seq<T>, n: nat): seq<T> {
    q[..if n < |q| then n else |q|]
  }

  function Left(length: nat, n: nat): nat {
    if n < length then length - n else 0
  }

  /** What is left of a queue of this length after the dequeues from number `from` up to number `to`. */
  function Remaining(ofVideo: bool, length: nat, looks: seq<Dequeues>, from: nat, to: nat): nat
    requires from <= to <= |looks|
  {
    if from == to then length else
    var before, d := Remaining(ofVideo, length, looks, from, to - 1), looks[to - 1];
    Left(before, if ofVideo then d.video else d.audio)
  }

  /** The consumers take at least one packet from each queue, if there is one, between two looks. */
  ghost predicate Brisk(looks: seq<Dequeues>) {
    forall k :: 0 <= k < |looks| ==> looks[k].video > 0 && looks[k].audio > 0
  }

  /** The two queues, the flags that extract_streams sets, and what has been dequeued. */
  class Queues {
    var video: seq<Packet>
    var audio: seq<AudioPacket>
    var videoFinished: bool
    var audioFinished: bool
    ghost var videoTaken: seq<Packet>
    ghost var audioTaken: seq<AudioPacket>

    constructor ()
      ensures video == videoTaken == [] && audio == audioTaken == [] && !videoFinished && !audioFinished
    {
      video, audio, videoFinished, audioFinished := [], [], false, false;
      videoTaken, audioTaken := [], [];
    }

    /** All that has ever been put into a queue, in order. */
    ghost function AllVideo(): seq<Packet>
      reads this
    {
      videoTaken + video
    }

    ghost function AllAudio(): seq<AudioPacket>
      reads this
    {
      audioTaken + audio
    }

    ghost predicate Short()
      reads this
    {
      |video| <= QUEUE_LIMIT + 1 && |audio| <= QUEUE_LIMIT + 1
    }

    method Consume(d: Dequeues)
      modifies this`video, this`audio, this`videoTaken, this`audioTaken
      ensures AllVideo() == old(AllVideo()) && AllAudio() == old(AllAudio())
      ensures |video| == Left(old(|video|), d.video) && |audio| == Left(old(|audio|), d.audio)
    {
      videoTaken, audioTaken := videoTaken + Front(video, d.video), audioTaken + Front(audio, d.audio);
      video, audio := Drop(video, d.video), Drop(audio, d.audio);
    }

    function LengthOf(ofVideo: bool): nat
      reads this
    {
      if ofVideo then |video| else |audio|
    }

    /** Lines 92-95 and 111-113: sleep until the queue is short enough.  `looks[k]` is what the consumers
        have dequeued by the time of look number k at the length of a queue.  The wait ends at the first
        look that finds the queue short enough.  If it is too long at all looks that are left, the result
        is false: the thread is still waiting. */
    method AwaitRoom(ofVideo: bool, looks: seq<Dequeues>, from: nat) returns (room: bool, looked: nat)
      requires from <= |looks| && Short()
      modifies this`video, this`audio, this`videoTaken, this`audioTaken
      ensures AllVideo() == old(AllVideo()) && AllAudio() == old(AllAudio()) && Short()
      ensures from <= looked <= |looks|
      ensures LengthOf(ofVideo) == Remaining(ofVideo, old(LengthOf(ofVideo)), looks, from, looked)
      ensures forall k :: from < k < looked ==>
                Remaining(ofVideo, old(LengthOf(ofVideo)), looks, from, k) > QUEUE_LIMIT
      ensures if room then from < looked && LengthOf(ofVideo) <= QUEUE_LIMIT
              else looked == |looks| && (from < looked ==> LengthOf(ofVideo) > QUEUE_LIMIT)
      ensures Brisk(looks) && from < |looks| ==> room && looked == from + 1
    {
      looked := from;
      ghost var start := LengthOf(ofVideo);
      while looked < |looks|
        invariant AllVideo() == old(AllVideo()) && AllAudio() == old(AllAudio()) && Short()
        invariant from <= looked <= |looks|
        invariant LengthOf(ofVideo) == Remaining(ofVideo, start, looks, from, looked)
        invariant forall k :: from < k <= looked ==> Remaining(ofVideo, start, looks, from, k) > QUEUE_LIMIT
        invariant from < looked ==> !Brisk(looks)
      {
        Consume(looks[looked]);
        looked := looked + 1;
        if LengthOf(ofVideo) <= QUEUE_LIMIT {
          return true, looked;
        }
      }
      room := false;
    }

    /** One frame: it goes into its queue as soon as that is short enough, or nowhere. */
    method ExtractFrame(c: Config, f: AvPacket, looks: seq<Dequeues>, from: nat) returns (done: bool, looked: nat)
      requires from <= |looks| && Short()
      modifies this`video, this`audio, this`videoTaken, this`audioTaken
      ensures Short() && from <= looked <= |looks|
      ensures AllVideo() == old(AllVideo()) + if done then VideoPackets(c, [f]) else []
      ensures AllAudio() == old(AllAudio()) + if done then AudioPackets(c, [f]) else []
      ensures !done ==> looked == |looks|
      ensures Brisk(looks) && from < |looks| ==> done && looked <= from + 1
    {
      assert [f][..0] == [];
      done, looked := true, from;
      if f.stream == c.videoIndex {
        if f.pts.Some? {
          var packet := Packet(f.data, c.rescale(f.pts.value), f.flags);
          done, looked := AwaitRoom(true, looks, from);
          if done {
            video := video + [packet];
          }
        }
      } else if f.stream == c.audioIndex {
        if f.pts.Some? {
          var packet := AudioPacket(f.data, f.pts.value, f.dts, f.duration);
          done, looked := AwaitRoom(false, looks, from);
          if done {
            audio := audio + [packet];
          }
        }
      }
    }

    /** extract_streams.  `read` is the number of frames that have been dealt with when no look is left; the
        flags are set exactly if these are all, as they are if the consumers keep taking packets. */
    method ExtractStreams(c: Config, input: seq<AvPacket>, looks: seq<Dequeues>) returns (read: nat)
      requires Short() && !videoFinished && !audioFinished
      modifies this
      ensures Short() && read <= |input|
      ensures AllVideo() == old(AllVideo()) + VideoPackets(c, input[..read])
      ensures AllAudio() == old(AllAudio()) + AudioPackets(c, input[..read])
      ensures AreTheVideo(c, input[..read], AllVideo()[|old(AllVideo())|..])
      ensures AreTheAudio(c, input[..read], AllAudio()[|old(AllAudio())|..])
      ensures (videoFinished <==> read == |input|) && (audioFinished <==> read == |input|)
      ensures Brisk(looks) && |input| <= |looks| ==> read == |input|
    {
      read := 0;
      var looked := 0;
      while read < |input|
        invariant Short() && read <= |input| && looked <= |looks| && !videoFinished && !audioFinished
        invariant Brisk(looks) ==> looked <= read
        invariant AllVideo() == old(AllVideo()) + VideoPackets(c, input[..read])
        invariant AllAudio() == old(AllAudio()) + AudioPackets(c, input[..read])
      {
        var done;
        done, looked := ExtractFrame(c, input[read], looks, looked);
        if !done {
          VideoPacketsAre(c, input[..read]);
          AudioPacketsAre(c, input[..read]);
          return;
        }
        OneMoreFrame(c, input, read);
        AppendTwice(old(AllVideo()), VideoPackets(c, input[..read]), VideoPackets(c, [input[read]]));
        AppendTwice(old(AllAudio()), AudioPackets(c, input[..read]), AudioPackets(c, [input[read]]));
        read := read + 1;
      }
      VideoPacketsAre(c, input[..read]);
      AudioPacketsAre(c, input[..read]);
      videoFinished := true;
      audioFinished := true;
    }
  }

  /** Reading can be cut anywhere: what the parts yield, in order, is what the whole yields. */
  lemma PacketsConcat(c: Config, a: seq<AvPacket>, b: seq<AvPacket>)
    ensures VideoPackets(c, a + b) == VideoPackets(c, a) + VideoPackets(c, b)
    ensures AudioPackets(c, a + b) == AudioPackets(c, a) + AudioPackets(c, b)
  {
    VideoConcat(c, a, b);
    AudioConcat(c, a, b);
  }

  lemma {:induction false} VideoConcat(c: Config, a: seq<AvPacket>, b: seq<AvPacket>)
    ensures VideoPackets(c, a + b) == VideoPackets(c, a) + VideoPackets(c, b)
  {
    if b == [] {
      assert a + b == a;
    } else {
      var rest := b[..|b| - 1];
      VideoConcat(c, a, rest);
      assert (a + b)[..|a + b| - 1] == a + rest;
    }
  }

  lemma {:induction false} AudioConcat(c: Config, a: seq<AvPacket>, b: seq<AvPacket>)
    ensures AudioPackets(c, a + b) == AudioPackets(c, a) + AudioPackets(c, b)
  {
    if b == [] {
      assert a + b == a;
    } else {
      var rest := b[..|b| - 1];
      AudioConcat(c, a, rest);
      assert (a + b)[..|a + b| - 1] == a + rest;
    }
  }

  lemma OneMoreFrame(c: Config, input: seq<AvPacket>, k: nat)
    requires k < |input|
    ensures VideoPackets(c, input[..k + 1]) == VideoPackets(c, input[..k]) + VideoPackets(c, [input[k]])
    ensures AudioPackets(c, input[..k + 1]) == AudioPackets(c, input[..k]) + AudioPackets(c, [input[k]])
  {
    assert input[..k + 1] == input[..k] + [input[k]];
    PacketsConcat(c, input[..k], [input[k]]);
  }

  /** A frame goes into exactly one queue, with all its fields, if it carries a timestamp and
      belongs to one of the two streams, and nowhere otherwise. */
  lemma EachFrameGoesToOnePlace(c: Config, f: AvPacket)
    ensures var v, a := VideoPackets(c, [f]), AudioPackets(c, [f]);
            && |v| + |a| == (if f.pts.Some? && (f.stream == c.videoIndex || f.stream == c.audioIndex) then 1 else 0)
            && (v != [] ==> f.stream == c.videoIndex && CarriesVideo(c, v[0], f))
            && (a != [] ==> f.stream != c.videoIndex && CarriesAudio(a[0], f))
  {
    assert [f][..0] == [];
  }
}

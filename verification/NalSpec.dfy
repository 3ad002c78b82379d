/** What the writer does with the encoder's output (mux.c:152-290), on values.

The encoder delivers NAL units in fragments.  `Group` and `Filtered` say what should be written:
group the fragments into NAL units, then keep those that are not parameter sets and come after both
parameter sets are known.  `Step` is what write_video_frame does with one fragment. */
module NalSpec {
  import opened Media
  import opened Timestamps

  /** An encoded packet: the fields of struct packet_t that write_video_frame reads. */
  datatype Fragment = Fragment(data: seq<byte>, pts: int64, flags: set<Flag>)

  datatype Nal = Nal(data: seq<byte>, pts: int64, key: bool)

  /** The AVPacket handed to av_interleaved_write_frame. */
  datatype Written = Written(data: seq<byte>, pts: int64, key: bool)

  /** `AVPacket pkt = { 0 }` */
  const EMPTY_WRITE := Written([], 0, false)

  // ---------------------------------------------------------------------------------------------
  // NAL units.  Annex B of ITU-T H.264 gives the start code, section 7.3.1 the header byte, Table 7-1
  // the types.

  datatype Kind = Sps | Pps | Other

  const SPS_PACKET := 7
  const PPS_PACKET := 8

  predicate HasStartCode(d: seq<byte>) {
    |d| >= 4 && d[0] == 0 && d[1] == 0 && d[2] == 0 && d[3] == 1
  }

  /** The kind of a NAL unit: the low five bits of the byte after a four-byte start code.  A unit
      without such a start code is not looked at any further. */
  function KindOf(d: seq<byte>): Kind {
    if !HasStartCode(d) || |d| < 5 then Other
    else if d[4] % 0x20 == SPS_PACKET then Sps
    else if d[4] % 0x20 == PPS_PACKET then Pps
    else Other
  }

  /** The tests of lines 157-162, from left to right, stay inside `d`. */
  predicate Readable(d: seq<byte>) {
    && |d| >= 1
    && (d[0] == 0 ==>
      && |d| >= 2
      && (d[1] == 0 ==>
        && |d| >= 3
        && (d[2] == 0 ==>
          && |d| >= 4
          && (d[3] == 1 ==> |d| >= 5))))
  }

  /** The size of the reassembly buffer */
  const ONE_MB: nat := 0x100000

  /** Nothing is written or read out of bounds when `f` arrives while `open` is in the reassembly buffer:
      what has to go into the buffer fits, and the header of a complete NAL unit can be read. */
  predicate FitsAfter(open: seq<byte>, f: Fragment) {
    && (open != [] || EndOfNal !in f.flags ==> |open + f.data| <= ONE_MB)
    && (EndOfNal in f.flags ==> Readable(open + f.data))
  }

  // ---------------------------------------------------------------------------------------------
  // Specification

  datatype Grouped = Grouped(nals: seq<Nal>, open: seq<byte>)

  /** The NAL units of a list of fragments: the fragments up to ENDOFNAL together, with the timestamp
      and the key flag of the last one. */
  function Group(fs: seq<Fragment>): Grouped {
    if fs == [] then Grouped([], []) else
    var g := Group(fs[..|fs| - 1]);
    var f := fs[|fs| - 1];
    if EndOfNal in f.flags then
      Grouped(g.nals + [Nal(g.open + f.data, f.pts, SyncFrame in f.flags)], [])
    else
      Grouped(g.nals, g.open + f.data)
  }

  /** A parameter set of this kind comes before position `i`. */
  ghost predicate KnownBefore(nals: seq<Nal>, i: nat, kind: Kind)
    requires i <= |nals|
  {
    exists j :: 0 <= j < i && KindOf(nals[j].data) == kind
  }

  ghost predicate Wanted(nals: seq<Nal>, i: nat)
    requires i < |nals|
  {
    KindOf(nals[i].data) == Other && KnownBefore(nals, i, Sps) && KnownBefore(nals, i, Pps)
  }

  ghost function Filtered(rescale: int64 -> int64, nals: seq<Nal>): seq<Written> {
    if nals == [] then [] else
    var i := |nals| - 1;
    var before := Filtered(rescale, nals[..i]);
    if Wanted(nals, i) then before + [Written(nals[i].data, rescale(nals[i].pts), nals[i].key)] else before
  }

  /** Each fragment fits after those before it: what the encoder has to guarantee. */
  predicate Acceptable(fs: seq<Fragment>) {
    fs != [] ==> Acceptable(fs[..|fs| - 1]) && FitsAfter(Group(fs[..|fs| - 1]).open, fs[|fs| - 1])
  }

  function Latest(nals: seq<Nal>, kind: Kind): Option<seq<byte>> {
    if nals == [] then None else
    var n := nals[|nals| - 1];
    if KindOf(n.data) == kind then Some(n.data) else Latest(nals[..|nals| - 1], kind)
  }

  /** The codec's extra data: both parameter sets, or nothing. */
  function Extra(sps: Option<seq<byte>>, pps: Option<seq<byte>>): seq<byte> {
    if sps.Some? && pps.Some? then sps.value + pps.value else []
  }

  // ---------------------------------------------------------------------------------------------
  // The writer

  /** struct mux_state_t, the extra data of the output stream, and what was handed to
      av_interleaved_write_frame so far.  `open` is the filled part of the reassembly buffer. */
  datatype Mux = Mux(sps: Option<seq<byte>>, pps: Option<seq<byte>>, open: seq<byte>, extradata: seq<byte>,
                     writes: seq<Written>)

  const INITIAL_MUX := Mux(None, None, [], [], [])

  function Ready(m: Mux): bool {
    m.sps.Some? && m.pps.Some?
  }

  /** The writer after it has looked at the complete NAL unit `d` and before it writes anything. */
  function AfterNal(m: Mux, d: seq<byte>): Mux {
    match KindOf(d)
    case Sps => m.(sps := Some(d), extradata := Extra(Some(d), m.pps))
    case Pps => m.(pps := Some(d), extradata := Extra(m.sps, Some(d)))
    case Other => m
  }

  /** write_video_frame, given a fragment.  Note the write of an empty packet for a fragment that does
      not end a NAL unit, once both parameter sets are known. */
  function Step(rescale: int64 -> int64, m: Mux, f: Fragment): Mux {
    var d := m.open + f.data;
    if EndOfNal !in f.flags then
      m.(open := d, writes := if Ready(m) then m.writes + [EMPTY_WRITE] else m.writes)
    else
      var m' := AfterNal(m.(open := []), d);
      if Ready(m) && KindOf(d) == Other then
        m'.(writes := m.writes + [Written(d, rescale(f.pts), SyncFrame in f.flags)])
      else m'
  }

  function Run(rescale: int64 -> int64, fs: seq<Fragment>): Mux {
    if fs == [] then INITIAL_MUX else Step(rescale, Run(rescale, fs[..|fs| - 1]), fs[|fs| - 1])
  }

  /** The writes that carry data. */
  function NonEmptyWrites(ws: seq<Written>): seq<Written> {
    if ws == [] then [] else
    var before, w := NonEmptyWrites(ws[..|ws| - 1]), ws[|ws| - 1];
    if w.data == [] then before else before + [w]
  }

  // ---------------------------------------------------------------------------------------------
  // The writer meets the specification

  lemma NonEmptyWritesSnoc(ws: seq<Written>, w: Written)
    ensures NonEmptyWrites(ws + [w]) == if w.data == [] then NonEmptyWrites(ws) else NonEmptyWrites(ws) + [w]
  {
    assert (ws + [w])[..|ws|] == ws;
  }

  lemma {:induction false} LatestIffKnown(nals: seq<Nal>, kind: Kind)
    ensures Latest(nals, kind).Some? <==> KnownBefore(nals, |nals|, kind)
  {
    if nals != [] {
      var rest := nals[..|nals| - 1];
      LatestIffKnown(rest, kind);
      assert forall j :: 0 <= j < |rest| ==> rest[j] == nals[j];
    }
  }

  /** The state of the writer is what the specification says of the fragments seen so far. */
  ghost predicate Meets(rescale: int64 -> int64, m: Mux, g: Grouped) {
    && m.open == g.open
    && m.sps == Latest(g.nals, Sps)
    && m.pps == Latest(g.nals, Pps)
    && m.extradata == Extra(m.sps, m.pps)
    && NonEmptyWrites(m.writes) == NonEmptyWrites(Filtered(rescale, g.nals))
  }

  lemma FilteredSnoc(rescale: int64 -> int64, nals: seq<Nal>, n: Nal)
    ensures Filtered(rescale, nals + [n]) ==
            if KindOf(n.data) == Other && Latest(nals, Sps).Some? && Latest(nals, Pps).Some?
            then Filtered(rescale, nals) + [Written(n.data, rescale(n.pts), n.key)]
            else Filtered(rescale, nals)
  {
    var all := nals + [n];
    assert all[..|nals|] == nals;
    LatestIffKnown(nals, Sps);
    LatestIffKnown(nals, Pps);
    assert forall j :: 0 <= j < |nals| ==> all[j] == nals[j];
  }

  lemma LatestSnoc(nals: seq<Nal>, n: Nal, kind: Kind)
    ensures Latest(nals + [n], kind) == if KindOf(n.data) == kind then Some(n.data) else Latest(nals, kind)
  {
    assert (nals + [n])[..|nals|] == nals;
  }

  lemma StepMeets(rescale: int64 -> int64, m: Mux, g: Grouped, f: Fragment)
    requires Meets(rescale, m, g)
    ensures Meets(rescale, Step(rescale, m, f),
                  if EndOfNal in f.flags then Grouped(g.nals + [Nal(g.open + f.data, f.pts, SyncFrame in f.flags)], [])
                  else Grouped(g.nals, g.open + f.data))
  {
    var m' := Step(rescale, m, f);
    if EndOfNal in f.flags {
      var n := Nal(g.open + f.data, f.pts, SyncFrame in f.flags);
      var w := Written(n.data, rescale(n.pts), n.key);
      LatestSnoc(g.nals, n, Sps);
      LatestSnoc(g.nals, n, Pps);
      FilteredSnoc(rescale, g.nals, n);
      NonEmptyWritesSnoc(m.writes, w);
      NonEmptyWritesSnoc(Filtered(rescale, g.nals), w);
    } else {
      NonEmptyWritesSnoc(m.writes, EMPTY_WRITE);
    }
  }

  /** For every list of fragments: the writer's buffer holds the open NAL unit, its parameter sets are
      the latest ones, the extra data are both or nothing, and what it has written, empty packets
      aside, is what grouping and filtering gives. */
  lemma {:induction false} WriterMeetsSpec(rescale: int64 -> int64, fs: seq<Fragment>)
    ensures Meets(rescale, Run(rescale, fs), Group(fs))
  {
    if fs != [] {
      WriterMeetsSpec(rescale, fs[..|fs| - 1]);
      StepMeets(rescale, Run(rescale, fs[..|fs| - 1]), Group(fs[..|fs| - 1]), fs[|fs| - 1]);
    }
  }

  /** How a NAL unit was cut into fragments makes no difference to the output. */
  lemma FragmentationIsInvisible(rescale: int64 -> int64, fs: seq<Fragment>, gs: seq<Fragment>)
    requires Group(fs) == Group(gs)
    ensures NonEmptyWrites(Run(rescale, fs).writes) == NonEmptyWrites(Run(rescale, gs).writes)
    ensures Run(rescale, fs).(writes := []) == Run(rescale, gs).(writes := [])
  {
    WriterMeetsSpec(rescale, fs);
    WriterMeetsSpec(rescale, gs);
  }

  lemma {:induction false} GroupContinues(fs: seq<Fragment>, gs: seq<Fragment>, more: seq<Fragment>)
    requires Group(fs) == Group(gs)
    ensures Group(fs + more) == Group(gs + more)
  {
    if more == [] {
      assert fs + more == fs && gs + more == gs;
    } else {
      var rest := more[..|more| - 1];
      GroupContinues(fs, gs, rest);
      assert (fs + more)[..|fs + more| - 1] == fs + rest;
      assert (gs + more)[..|gs + more| - 1] == gs + rest;
    }
  }

  lemma GroupSnoc(fs: seq<Fragment>, f: Fragment)
    ensures var g := Group(fs);
            Group(fs + [f]) ==
            if EndOfNal in f.flags then Grouped(g.nals + [Nal(g.open + f.data, f.pts, SyncFrame in f.flags)], [])
            else Grouped(g.nals, g.open + f.data)
  {
    assert (fs + [f])[..|fs|] == fs;
  }

  lemma CutInTwo(fs: seq<Fragment>, f: Fragment, first: Fragment, second: Fragment)
    requires first.data + second.data == f.data && second == f.(data := second.data) && EndOfNal !in first.flags
    ensures Group(fs + [f]) == Group(fs + [first] + [second])
  {
    GroupSnoc(fs, f);
    GroupSnoc(fs, first);
    GroupSnoc(fs + [first], second);
    AppendTwice(Group(fs).open, first.data, second.data);
  }

  /** Cutting a fragment in two, anywhere and with any timestamp and flags on the first part, changes
      nothing that is written later or sooner. */
  lemma CuttingIsInvisible(rescale: int64 -> int64, before: seq<Fragment>, f: Fragment, after: seq<Fragment>,
                           k: nat, first: Fragment)
    requires k <= |f.data| && first.data == f.data[..k] && EndOfNal !in first.flags
    ensures var whole, cut := before + [f] + after, before + [first] + [f.(data := f.data[k..])] + after;
            && Group(whole) == Group(cut)
            && NonEmptyWrites(Run(rescale, whole).writes) == NonEmptyWrites(Run(rescale, cut).writes)
  {
    var second := f.(data := f.data[k..]);
    Halves(f.data, k);
    CutInTwo(before, f, first, second);
    GroupContinues(before + [f], before + [first] + [second], after);
    FragmentationIsInvisible(rescale, before + [f] + after, before + [first] + [second] + after);
  }

  /** Grouping keeps every byte, in order. */
  lemma {:induction false} GroupKeepsAll(fs: seq<Fragment>)
    ensures NalBytes(Group(fs).nals) + Group(fs).open == FragmentBytes(fs)
  {
    if fs != [] {
      var rest, f := fs[..|fs| - 1], fs[|fs| - 1];
      var g := Group(rest);
      GroupKeepsAll(rest);
      assert NalBytes(g.nals) + (g.open + f.data) == NalBytes(g.nals) + g.open + f.data;
    }
  }

  function NalBytes(nals: seq<Nal>): seq<byte> {
    if nals == [] then [] else NalBytes(nals[..|nals| - 1]) + nals[|nals| - 1].data
  }

  function FragmentBytes(fs: seq<Fragment>): seq<byte> {
    if fs == [] then [] else FragmentBytes(fs[..|fs| - 1]) + fs[|fs| - 1].data
  }

  /** When every NAL unit has a first byte, the filter itself never yields an empty packet, so the
      non-empty writes are exactly the filtered NAL units. */
  lemma {:induction false} FilteredAreNonEmpty(rescale: int64 -> int64, nals: seq<Nal>)
    requires forall i :: 0 <= i < |nals| ==> nals[i].data != []
    ensures NonEmptyWrites(Filtered(rescale, nals)) == Filtered(rescale, nals)
  {
    if nals != [] {
      var rest, n := nals[..|nals| - 1], nals[|nals| - 1];
      FilteredAreNonEmpty(rescale, rest);
      assert nals == rest + [n];
      FilteredSnoc(rescale, rest, n);
      NonEmptyWritesSnoc(Filtered(rescale, rest), Written(n.data, rescale(n.pts), n.key));
    }
  }

  /** No parameter set is ever written. */
  lemma {:induction false} NoParameterSetIsWritten(rescale: int64 -> int64, fs: seq<Fragment>)
    ensures forall w :: w in Run(rescale, fs).writes ==> KindOf(w.data) == Other
  {
    if fs != [] {
      NoParameterSetIsWritten(rescale, fs[..|fs| - 1]);
    }
  }

  /** In every run, a write happens only while both parameter sets are known, and then the extra data are
      the latest ones, before and after. */
  lemma WritesAreGated(rescale: int64 -> int64, fs: seq<Fragment>, k: nat)
    requires k < |fs| && Run(rescale, fs[..k + 1]).writes != Run(rescale, fs[..k]).writes
    ensures Run(rescale, fs[..k]).writes < Run(rescale, fs[..k + 1]).writes
    ensures HasLatestExtra(Run(rescale, fs[..k]), Group(fs[..k]).nals)
    ensures HasLatestExtra(Run(rescale, fs[..k + 1]), Group(fs[..k + 1]).nals)
  {
    var m := Run(rescale, fs[..k]);
    assert fs[..k + 1][..k] == fs[..k];
    assert Run(rescale, fs[..k + 1]) == Step(rescale, m, fs[k]);
    WriteNeedsBoth(rescale, m, fs[k]);
    WriterMeetsSpec(rescale, fs[..k]);
    WriterMeetsSpec(rescale, fs[..k + 1]);
  }

  lemma WriteNeedsBoth(rescale: int64 -> int64, m: Mux, f: Fragment)
    requires Step(rescale, m, f).writes != m.writes
    ensures m.writes < Step(rescale, m, f).writes && Ready(m) && Ready(Step(rescale, m, f))
  {
  }

  /** Both parameter sets have been seen, and the extra data are the latest SPS and the latest PPS. */
  ghost predicate HasLatestExtra(m: Mux, nals: seq<Nal>) {
    && Latest(nals, Sps).Some? && Latest(nals, Pps).Some?
    && m.extradata == Latest(nals, Sps).value + Latest(nals, Pps).value
  }

  /** Once known, the parameter sets stay known. */
  lemma {:induction false} StaysReady(rescale: int64 -> int64, fs: seq<Fragment>, k: nat)
    requires k <= |fs| && Ready(Run(rescale, fs[..k]))
    ensures Ready(Run(rescale, fs))
  {
    if k < |fs| {
      var rest := fs[..|fs| - 1];
      assert rest[..k] == fs[..k];
      StaysReady(rescale, rest, k);
    } else {
      assert fs[..k] == fs;
    }
  }

  lemma {:induction false} GroupPrefix(fs: seq<Fragment>, k: nat)
    requires k <= |fs|
    ensures Group(fs[..k]).nals <= Group(fs).nals
  {
    if k < |fs| {
      var rest := fs[..|fs| - 1];
      assert rest[..k] == fs[..k];
      GroupPrefix(rest, k);
    } else {
      assert fs[..k] == fs;
    }
  }

  /** What is written for a prefix of the fragments is a prefix of what is written for all. */
  lemma {:induction false} FilteredPrefix(rescale: int64 -> int64, nals: seq<Nal>, k: nat)
    requires k <= |nals|
    ensures Filtered(rescale, nals[..k]) <= Filtered(rescale, nals)
  {
    if k < |nals| {
      var rest := nals[..|nals| - 1];
      assert rest[..k] == nals[..k];
      FilteredPrefix(rescale, rest, k);
    } else {
      assert nals[..k] == nals;
    }
  }

  lemma {:induction false} AcceptablePrefix(fs: seq<Fragment>, k: nat)
    requires Acceptable(fs) && k <= |fs|
    ensures Acceptable(fs[..k])
    ensures k < |fs| ==> FitsAfter(Group(fs[..k]).open, fs[k])
  {
    if k == |fs| {
      assert fs[..k] == fs;
    } else {
      var rest := fs[..|fs| - 1];
      assert rest[..k] == fs[..k];
      if k < |rest| {
        AcceptablePrefix(rest, k);
      } else {
        assert rest[..k] == rest;
      }
    }
  }

  lemma {:induction false} AcceptableNalsAreReadable(fs: seq<Fragment>)
    requires Acceptable(fs)
    ensures forall i :: 0 <= i < |Group(fs).nals| ==> Readable(Group(fs).nals[i].data)
  {
    if fs != [] {
      AcceptableNalsAreReadable(fs[..|fs| - 1]);
    }
  }
}

/** The writer's specification once more, by positions and bytes: which fragments make a NAL unit, which NAL
units are written, and what the extra data are. */
module NalLaws {
  import opened Media
  import opened Timestamps
  import opened Selections
  import opened NalSpec

  // ---------------------------------------------------------------------------------------------
  // Kinds, by bytes

  /** The header byte of a NAL unit: its three high bits (forbidden_zero_bit and nal_ref_idc), then its type. */
  function HeaderByte(high: nat, nalType: nat): nat {
    32 * high + nalType
  }

  /** A four-byte start code, then a header byte with this type; section 7.3.1 and Annex B of ITU-T H.264. */
  ghost predicate IsNalOfType(d: seq<byte>, nalType: nat) {
    && |d| >= 5 && d[..4] == [0, 0, 0, 1]
    && exists high: nat :: high < 8 && d[4] == HeaderByte(high, nalType)
  }

  lemma HasTypeIff(x: byte, nalType: nat)
    requires nalType < 32
    ensures (exists high: nat :: high < 8 && x == HeaderByte(high, nalType)) <==> x % 32 == nalType
  {
    if x % 32 == nalType {
      assert x == HeaderByte(x / 32, nalType);
    }
  }

  /** Sequence parameter sets have type 7, picture parameter sets type 8, by Table 7-1. */
  lemma KindOfIff(d: seq<byte>)
    ensures KindOf(d) == Sps <==> IsNalOfType(d, 7)
    ensures KindOf(d) == Pps <==> IsNalOfType(d, 8)
  {
    if |d| >= 5 {
      HasTypeIff(d[4], 7);
      HasTypeIff(d[4], 8);
      assert d[..4] == [d[0], d[1], d[2], d[3]];
    }
  }

  /** The tests read byte `i` if the bytes before it agree with a start code; that it exists is all that is
      asked. */
  lemma ReadableIff(d: seq<byte>)
    ensures Readable(d) <==>
              forall i :: 0 <= i <= 4 && i <= |d| && d[..i] == [0, 0, 0, 1][..i] ==> i < |d|
  {
    var code: seq<byte> := [0, 0, 0, 1];
    if Readable(d) {
      forall i | 0 <= i <= 4 && i <= |d| && d[..i] == code[..i] ensures i < |d| {
        assert forall j :: 0 <= j < i ==> d[..i][j] == d[j] && code[..i][j] == code[j];
      }
    } else {
      var n := |d|;
      assert n <= 4 && d[..n] == code[..n];
    }
  }

  ghost predicate IsParameterSet(d: seq<byte>) {
    IsNalOfType(d, 7) || IsNalOfType(d, 8)
  }

  // ---------------------------------------------------------------------------------------------
  // Which fragments make a NAL unit

  lemma {:induction false} FragmentBytesConcat(a: seq<Fragment>, b: seq<Fragment>)
    ensures FragmentBytes(a + b) == FragmentBytes(a) + FragmentBytes(b)
  {
    if b == [] {
      assert a + b == a;
    } else {
      var rest, last := b[..|b| - 1], b[|b| - 1];
      FragmentBytesConcat(a, rest);
      assert (a + b)[..|a + b| - 1] == a + rest;
      AppendTwice(FragmentBytes(a), FragmentBytes(rest), last.data);
    }
  }

  lemma OneFragment(f: Fragment)
    ensures FragmentBytes([f]) == f.data
  {
    assert [f][..0] == [];
  }

  function EndsNal(fs: seq<Fragment>): nat -> bool {
    (k: nat) => k < |fs| && EndOfNal in fs[k].flags
  }

  /** The first fragment after the one at which NAL unit number `i` before it ends. */
  function StartOf(ends: seq<nat>, i: nat): nat
    requires i <= |ends|
  {
    if i == 0 then 0 else ends[i - 1] + 1
  }

  /** `n` is the bytes of the fragments from position `from` up to `end`, with the timestamp and the key flag of
      the one at `end`. */
  ghost predicate IsUnit(fs: seq<Fragment>, from: nat, end: nat, n: Nal) {
    && from <= end < |fs|
    && n.data == FragmentBytes(fs[from..end + 1])
    && n.pts == fs[end].pts
    && (n.key <==> SyncFrame in fs[end].flags)
  }

  /** The NAL units between these ends. */
  ghost predicate UnitsAt(fs: seq<Fragment>, ends: seq<nat>, nals: seq<Nal>) {
    && |nals| == |ends|
    && forall i {:trigger nals[i]} :: 0 <= i < |ends| ==> IsUnit(fs, StartOf(ends, i), ends[i], nals[i])
  }

  /** `ends` are the fragments that end a NAL unit among the first `k`, and `g` what is between them. */
  ghost predicate GroupedAt(fs: seq<Fragment>, ends: seq<nat>, k: nat, g: Grouped) {
    && k <= |fs|
    && Picks(ends, k, EndsNal(fs))
    && UnitsAt(fs, ends, g.nals)
    && StartOf(ends, |ends|) <= k
    && g.open == FragmentBytes(fs[StartOf(ends, |ends|)..k])
  }

  lemma OpenGrows(fs: seq<Fragment>, from: nat, k: nat)
    requires from <= k < |fs|
    ensures FragmentBytes(fs[from..k + 1]) == FragmentBytes(fs[from..k]) + fs[k].data
  {
    assert fs[from..k + 1] == fs[from..k] + [fs[k]];
    FragmentBytesConcat(fs[from..k], [fs[k]]);
    OneFragment(fs[k]);
  }

  /** A fragment that ends no unit is added to the open one. */
  lemma GroupedStays(fs: seq<Fragment>, ends: seq<nat>, k: nat, g: Grouped)
    requires k < |fs| && GroupedAt(fs, ends, k, g) && !EndsNal(fs)(k)
    ensures GroupedAt(fs, ends, k + 1, Grouped(g.nals, g.open + fs[k].data))
  {
    PicksNext(ends, k, EndsNal(fs));
    OpenGrows(fs, StartOf(ends, |ends|), k);
  }

  lemma UnitsStay(fs: seq<Fragment>, ends: seq<nat>, k: nat, nals: seq<Nal>, n: Nal)
    requires UnitsAt(fs, ends, nals) && IsUnit(fs, StartOf(ends, |ends|), k, n)
    ensures UnitsAt(fs, ends + [k], nals + [n])
  {
    var ends', nals' := ends + [k], nals + [n];
    forall i | 0 <= i < |ends'| ensures IsUnit(fs, StartOf(ends', i), ends'[i], nals'[i]) {
      assert StartOf(ends', i) == StartOf(ends, i);
      assert i < |ends| ==> nals'[i] == nals[i] && ends'[i] == ends[i];
    }
  }

  /** A fragment that ends a unit completes the open one. */
  lemma GroupedEnds(fs: seq<Fragment>, ends: seq<nat>, k: nat, g: Grouped)
    requires k < |fs| && GroupedAt(fs, ends, k, g) && EndsNal(fs)(k)
    ensures GroupedAt(fs, ends + [k], k + 1,
                      Grouped(g.nals + [Nal(g.open + fs[k].data, fs[k].pts, SyncFrame in fs[k].flags)], []))
  {
    var n := Nal(g.open + fs[k].data, fs[k].pts, SyncFrame in fs[k].flags);
    PicksNext(ends, k, EndsNal(fs));
    OpenGrows(fs, StartOf(ends, |ends|), k);
    assert IsUnit(fs, StartOf(ends, |ends|), k, n);
    UnitsStay(fs, ends, k, g.nals, n);
    assert StartOf(ends + [k], |ends| + 1) == k + 1;
    assert FragmentBytes(fs[k + 1..k + 1]) == [];
  }

  lemma GroupedNext(fs: seq<Fragment>, ends: seq<nat>, k: nat)
    requires k < |fs| && GroupedAt(fs, ends, k, Group(fs[..k]))
    ensures GroupedAt(fs, if EndsNal(fs)(k) then ends + [k] else ends, k + 1, Group(fs[..k + 1]))
  {
    assert fs[..k + 1] == fs[..k] + [fs[k]];
    GroupSnoc(fs[..k], fs[k]);
    if EndsNal(fs)(k) {
      GroupedEnds(fs, ends, k, Group(fs[..k]));
    } else {
      GroupedStays(fs, ends, k, Group(fs[..k]));
    }
  }

  lemma {:induction false} EndsAt(fs: seq<Fragment>, k: nat) returns (ends: seq<nat>)
    requires k <= |fs|
    ensures GroupedAt(fs, ends, k, Group(fs[..k]))
  {
    if k == 0 {
      ends := [];
    } else {
      ends := EndsAt(fs, k - 1);
      GroupedNext(fs, ends, k - 1);
      ends := if EndsNal(fs)(k - 1) then ends + [k - 1] else ends;
    }
  }

  /** The NAL units are the runs of fragments up to each ENDOFNAL, with the timestamp and key flag of their last
      fragment, and the open one is what follows the last ENDOFNAL. */
  lemma GroupsAre(fs: seq<Fragment>)
    ensures exists ends :: GroupedAt(fs, ends, |fs|, Group(fs))
  {
    var ends := EndsAt(fs, |fs|);
    assert fs[..|fs|] == fs;
  }

  // ---------------------------------------------------------------------------------------------
  // Which NAL units are written

  ghost predicate TypeBefore(nals: seq<Nal>, i: nat, nalType: nat)
    requires i <= |nals|
  {
    exists j :: 0 <= j < i && IsNalOfType(nals[j].data, nalType)
  }

  /** NAL unit `i` is no parameter set, and both kinds of parameter sets come before it. */
  ghost predicate IsToWrite(nals: seq<Nal>, i: nat)
    requires i < |nals|
  {
    !IsParameterSet(nals[i].data) && TypeBefore(nals, i, 7) && TypeBefore(nals, i, 8)
  }

  lemma KnownBeforeIff(nals: seq<Nal>, i: nat)
    requires i <= |nals|
    ensures KnownBefore(nals, i, Sps) <==> TypeBefore(nals, i, 7)
    ensures KnownBefore(nals, i, Pps) <==> TypeBefore(nals, i, 8)
  {
    forall j | 0 <= j < i
      ensures KindOf(nals[j].data) == Sps <==> IsNalOfType(nals[j].data, 7)
      ensures KindOf(nals[j].data) == Pps <==> IsNalOfType(nals[j].data, 8)
    {
      KindOfIff(nals[j].data);
    }
  }

  lemma WantedIff(nals: seq<Nal>, i: nat)
    requires i < |nals|
    ensures Wanted(nals, i) <==> IsToWrite(nals, i)
  {
    KindOfIff(nals[i].data);
    KnownBeforeIff(nals, i);
  }

  ghost function ToWrite(nals: seq<Nal>): nat -> bool {
    (k: nat) => k < |nals| && IsToWrite(nals, k)
  }

  /** `ws` are the NAL units to be written among the first `n`, in order, each with its bytes, its rescaled
      timestamp and its key flag. */
  ghost predicate WrittenAt(rescale: int64 -> int64, nals: seq<Nal>, at: seq<nat>, n: nat, ws: seq<Written>) {
    && n <= |nals|
    && Picks(at, n, ToWrite(nals))
    && |ws| == |at|
    && forall i {:trigger ws[i]} :: 0 <= i < |at| ==>
      at[i] < n && ws[i] == Written(nals[at[i]].data, rescale(nals[at[i]].pts), nals[at[i]].key)
  }

  lemma WantedInPart(nals: seq<Nal>, n: nat)
    requires n < |nals|
    ensures Wanted(nals[..n + 1], n) <==> Wanted(nals, n)
  {
    assert forall j :: 0 <= j <= n ==> nals[..n + 1][j] == nals[j];
  }

  lemma FilteredNext(rescale: int64 -> int64, nals: seq<Nal>, n: nat)
    requires n < |nals|
    ensures Filtered(rescale, nals[..n + 1]) == Filtered(rescale, nals[..n])
            + if ToWrite(nals)(n) then [Written(nals[n].data, rescale(nals[n].pts), nals[n].key)] else []
  {
    WantedInPart(nals, n);
    WantedIff(nals, n);
    assert nals[..n + 1][..n] == nals[..n];
  }

  ghost predicate PickWanted(rescale: int64 -> int64, nals: seq<Nal>, at: seq<nat>, n: nat)
    requires n <= |nals|
  {
    WrittenAt(rescale, nals, at, n, Filtered(rescale, nals[..n]))
  }

  lemma PickWantedNext(rescale: int64 -> int64, nals: seq<Nal>, at: seq<nat>, n: nat)
    requires n < |nals| && PickWanted(rescale, nals, at, n)
    ensures PickWanted(rescale, nals, if ToWrite(nals)(n) then at + [n] else at, n + 1)
  {
    PicksNext(at, n, ToWrite(nals));
    FilteredNext(rescale, nals, n);
  }

  lemma {:induction false} FilteredAt(rescale: int64 -> int64, nals: seq<Nal>, n: nat) returns (at: seq<nat>)
    requires n <= |nals|
    ensures PickWanted(rescale, nals, at, n)
  {
    if n == 0 {
      at := [];
    } else {
      at := FilteredAt(rescale, nals, n - 1);
      PickWantedNext(rescale, nals, at, n - 1);
      at := if ToWrite(nals)(n - 1) then at + [n - 1] else at;
    }
  }

  ghost predicate AreTheWanted(rescale: int64 -> int64, nals: seq<Nal>, ws: seq<Written>) {
    exists at :: WrittenAt(rescale, nals, at, |nals|, ws)
  }

  lemma FilteredAre(rescale: int64 -> int64, nals: seq<Nal>)
    ensures AreTheWanted(rescale, nals, Filtered(rescale, nals))
  {
    var at := FilteredAt(rescale, nals, |nals|);
    assert nals[..|nals|] == nals;
  }

  // ---------------------------------------------------------------------------------------------
  // Every single write

  /** What write_video_frame writes for a fragment `f` that comes after the NAL units of `g`: nothing while a
      parameter set is missing, an empty packet for a fragment that ends no unit, and otherwise the unit,
      unless it is a parameter set. */
  ghost predicate IsWriteFor(rescale: int64 -> int64, g: Grouped, f: Fragment, ws: seq<Written>) {
    var d := g.open + f.data;
    if !(TypeBefore(g.nals, |g.nals|, 7) && TypeBefore(g.nals, |g.nals|, 8)) then ws == []
    else if EndOfNal !in f.flags then ws == [Written([], 0, false)]
    else if IsParameterSet(d) then ws == []
    else ws == [Written(d, rescale(f.pts), SyncFrame in f.flags)]
  }

  lemma EveryWrite(rescale: int64 -> int64, fs: seq<Fragment>, k: nat)
    requires k < |fs|
    ensures var before, after := Run(rescale, fs[..k]).writes, Run(rescale, fs[..k + 1]).writes;
            before <= after && IsWriteFor(rescale, Group(fs[..k]), fs[k], after[|before|..])
  {
    var m, g := Run(rescale, fs[..k]), Group(fs[..k]);
    assert fs[..k + 1][..k] == fs[..k];
    WriterMeetsSpec(rescale, fs[..k]);
    LatestIffKnown(g.nals, Sps);
    LatestIffKnown(g.nals, Pps);
    KnownBeforeIff(g.nals, |g.nals|);
    KindOfIff(g.open + fs[k].data);
  }

  // ---------------------------------------------------------------------------------------------
  // The extra data

  /** NAL unit `i` is the last one of this type. */
  ghost predicate IsLastOf(nals: seq<Nal>, i: nat, nalType: nat) {
    && i < |nals| && IsNalOfType(nals[i].data, nalType)
    && forall j :: i < j < |nals| ==> !IsNalOfType(nals[j].data, nalType)
  }

  lemma {:induction false} LatestIs(nals: seq<Nal>, i: nat)
    ensures IsLastOf(nals, i, 7) ==> Latest(nals, Sps) == Some(nals[i].data)
    ensures IsLastOf(nals, i, 8) ==> Latest(nals, Pps) == Some(nals[i].data)
  {
    if i < |nals| {
      var last, rest := nals[|nals| - 1], nals[..|nals| - 1];
      KindOfIff(last.data);
      if i < |rest| {
        assert forall j :: 0 <= j < |rest| ==> rest[j] == nals[j];
        LatestIs(rest, i);
      }
    }
  }

  /** In every run, the extra data are empty while either parameter set is missing, and afterwards the last SPS
      followed by the last PPS. */
  lemma ExtraDataAre(rescale: int64 -> int64, fs: seq<Fragment>)
    ensures var nals, extra := Group(fs).nals, Run(rescale, fs).extradata;
            && (!TypeBefore(nals, |nals|, 7) || !TypeBefore(nals, |nals|, 8) ==> extra == [])
            && (forall i: nat, k: nat :: IsLastOf(nals, i, 7) && IsLastOf(nals, k, 8) ==>
                  extra == nals[i].data + nals[k].data)
  {
    var nals := Group(fs).nals;
    WriterMeetsSpec(rescale, fs);
    LatestIffKnown(nals, Sps);
    LatestIffKnown(nals, Pps);
    KnownBeforeIff(nals, |nals|);
    forall i: nat, k: nat | IsLastOf(nals, i, 7) && IsLastOf(nals, k, 8)
      ensures Run(rescale, fs).extradata == nals[i].data + nals[k].data
    {
      LatestIs(nals, i);
      LatestIs(nals, k);
    }
  }

  /** Nothing that was ever written is a parameter set. */
  lemma NoParameterSetEver(rescale: int64 -> int64, fs: seq<Fragment>)
    ensures forall w :: w in Run(rescale, fs).writes ==> !IsParameterSet(w.data)
  {
    NoParameterSetIsWritten(rescale, fs);
    forall w | w in Run(rescale, fs).writes ensures !IsParameterSet(w.data) {
      KindOfIff(w.data);
    }
  }
}

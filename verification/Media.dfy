/** The values the threads pass to each other. */
module Media {

  datatype Option<+T> = None | Some(value: T)

  type byte = x: int | 0 <= x < 0x100

  /** The bits of the flag words that the program tests or sets.  A flag word is modelled as the set
      of its bits: `|=` is union and `&` is membership. */
  datatype Flag =
    | KeyFrame     // AV_PKT_FLAG_KEY
    | StartTime    // OMX_BUFFERFLAG_STARTTIME
    | TimeUnknown  // OMX_BUFFERFLAG_TIME_UNKNOWN
    | SyncFrame    // OMX_BUFFERFLAG_SYNCFRAME
    | EndOfFrame   // OMX_BUFFERFLAG_ENDOFFRAME
    | EndOfNal     // OMX_BUFFERFLAG_ENDOFNAL
    | EndOfStream  // OMX_BUFFERFLAG_EOS

  /** The numbers below `n`. */
  function Below(n: nat): (r: set<nat>)
    ensures |r| == n
    ensures forall b: nat :: b in r <==> b < n
  {
    if n == 0 then {} else Below(n - 1) + {n - 1}
  }

  lemma AppendTwice<T>(a: seq<T>, b: seq<T>, c: seq<T>)
    ensures (a + b) + c == a + (b + c)
  {
  }

  lemma Halves<T>(s: seq<T>, k: nat)
    requires k <= |s|
    ensures s[..k] + s[k..] == s
  {
  }

  /** The concatenation of a list of lists, in order. */
  function Flatten<T>(parts: seq<seq<T>>): seq<T> {
    if parts == [] then [] else Flatten(parts[..|parts| - 1]) + parts[|parts| - 1]
  }

  lemma {:induction false} FlattenConcat<T>(a: seq<seq<T>>, b: seq<seq<T>>)
    ensures Flatten(a + b) == Flatten(a) + Flatten(b)
  {
    if b == [] {
      assert a + b == a;
    } else {
      var rest, last := b[..|b| - 1], b[|b| - 1];
      FlattenConcat(a, rest);
      assert (a + b)[..|a + b| - 1] == a + rest;
      AppendTwice(Flatten(a), Flatten(rest), last);
    }
  }

  lemma FlattenNext<T>(parts: seq<seq<T>>, k: nat)
    requires k < |parts|
    ensures Flatten(parts[..k + 1]) == Flatten(parts[..k]) + parts[k]
  {
    assert parts[..k + 1] == parts[..k] + [parts[k]];
    FlattenSnoc(parts[..k], parts[k]);
  }

  lemma FlattenHalves<T>(parts: seq<seq<T>>, k: nat)
    requires k <= |parts|
    ensures Flatten(parts) == Flatten(parts[..k]) + Flatten(parts[k..])
  {
    FlattenConcat(parts[..k], parts[k..]);
    Halves(parts, k);
  }

  lemma FlattenSplit<T>(parts: seq<seq<T>>, k: nat)
    requires k < |parts|
    ensures Flatten(parts) == Flatten(parts[..k]) + parts[k] + Flatten(parts[k + 1..])
    ensures Flatten(parts[..k + 1]) == Flatten(parts[..k]) + parts[k]
  {
    FlattenNext(parts, k);
    FlattenHalves(parts, k + 1);
  }

  /** The first part that is not empty begins the whole. */
  lemma FlattenFirst<T>(parts: seq<seq<T>>, k: nat)
    requires k < |parts| && Flatten(parts[..k]) == []
    ensures Flatten(parts[..k + 1]) == parts[k] <= Flatten(parts)
  {
    FlattenSplit(parts, k);
  }

  /** Where the only element of part number `k` is in the whole. */
  lemma FlattenAt<T>(parts: seq<seq<T>>, k: nat, x: T)
    requires k < |parts| && parts[k] == [x]
    ensures var all, before := Flatten(parts), Flatten(parts[..k]);
            && |before| < |all| && all[..|before|] == before && all[|before|] == x
            && Flatten(parts[..k + 1]) == before + [x]
  {
    FlattenSplit(parts, k);
  }

  lemma PartIsIn<T>(parts: seq<seq<T>>, k: nat)
    requires k < |parts|
    ensures forall x :: x in parts[k] ==> x in Flatten(parts)
  {
    FlattenSplit(parts, k);
  }

  lemma FlattenSnoc<T>(parts: seq<seq<T>>, part: seq<T>)
    ensures Flatten(parts + [part]) == Flatten(parts) + part
  {
    assert (parts + [part])[..|parts|] == parts;
  }
}

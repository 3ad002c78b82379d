/** Timestamps cross the OMX interface as two 32-bit halves (omx.c:31-44). */
module Timestamps {

  const TWO_32: int := 0x1_0000_0000
  const TWO_63: int := 0x8000_0000_0000_0000
  const TWO_64: int := 0x1_0000_0000_0000_0000

  type uint32 = x: int | 0 <= x < TWO_32
  type uint64 = x: int | 0 <= x < TWO_64
  type int64 = x: int | -TWO_63 <= x < TWO_63

  /** OMX_TICKS */
  datatype Ticks = Ticks(low: uint32, high: uint32)

  /** The conversion of C from int64_t to uint64_t, and the usual two's complement way back. */
  function ToUnsigned(x: int64): uint64 {
    x % TWO_64
  }

  function ToSigned(x: uint64): int64 {
    if x < TWO_63 then x else x - TWO_64
  }

  function PtsToOmx(pts: uint64): Ticks {
    Ticks(pts % TWO_32, pts / TWO_32)
  }

  function OmxToPts(ticks: Ticks): uint64 {
    ticks.high * TWO_32 + ticks.low
  }

  /** A signed timestamp comes back from the two halves as it was. */
  lemma TimestampRoundTrip(pts: int64)
    ensures ToSigned(OmxToPts(PtsToOmx(ToUnsigned(pts)))) == pts
  {
    var u := ToUnsigned(pts);
    assert u == u / TWO_32 * TWO_32 + u % TWO_32;
    assert u == if pts < 0 then pts + TWO_64 else pts;
  }

  /** Nothing is lost in the other direction either: the halves determine each other. */
  lemma TicksRoundTrip(ticks: Ticks)
    ensures PtsToOmx(OmxToPts(ticks)) == ticks
  {
  }

  /** Which halves: the high one counts multiples of 2^32 of the two's complement, the low one is the rest. */
  lemma HalvesAre(pts: int64, ticks: Ticks)
    ensures ticks == PtsToOmx(ToUnsigned(pts)) <==>
              ticks.high * 0x1_0000_0000 + ticks.low == if pts < 0 then pts + 0x1_0000_0000_0000_0000 else pts
  {
    TicksRoundTrip(ticks);
    TimestampRoundTrip(pts);
    assert ToUnsigned(pts) == if pts < 0 then pts + TWO_64 else pts;
  }

  /** So whoever joins the halves finds a timestamp exactly if whoever split it had that one. */
  lemma HalvesAgree(pts: int64, ticks: Ticks)
    ensures ticks == PtsToOmx(ToUnsigned(pts)) <==> pts == ToSigned(OmxToPts(ticks))
  {
    TimestampRoundTrip(pts);
    TicksRoundTrip(ticks);
    assert ToUnsigned(ToSigned(OmxToPts(ticks))) == OmxToPts(ticks);
  }
}

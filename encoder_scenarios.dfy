/**
  Properties of sequences of calls on one encoder, proved from the contracts
  of its methods alone.
 */
module EncoderScenarios {
  import opened EncoderMath
  import opened Encoder

  /** Resetting to (c, v) and decoding the same reading c leaves the value at v. */
  method ResetThenDecode(e: ArdEncoder, c: Int32, v: real) returns (r: real)
    requires e.Valid() && e.countsPerRev != 0 && IsInt32(-(e.counterLimit as int))
    modifies e`count, e`value
    ensures r == v && e.value == v && e.count == c
  {
    e.Reset(c, v);
    r := e.Decode(c);
  }

  /** Encoding the same value twice: the second call reports no movement. */
  method EncodeTwice(e: ArdEncoder, v: real) returns (first: Int32, second: Int32)
    requires e.Valid() && e.valuePerRev != 0.0
    requires IsInt32(ValueToCounts(v, e.countsPerRev, e.valuePerRev))
    requires IsInt32(ValueToCounts(v, e.countsPerRev, e.valuePerRev) - e.count)
    modifies e`count, e`value
    ensures first == ValueToCounts(v, e.countsPerRev, e.valuePerRev) - old(e.count)
    ensures second == 0
    ensures e.value == v
  {
    first := e.Encode(v);
    second := e.Encode(v);
  }

  /** ResetValue derives the same count Encode computes, so encoding that value reports no movement. */
  method ResetValueThenEncode(e: ArdEncoder, v: real) returns (delta: Int32)
    requires e.Valid() && e.valuePerRev != 0.0
    requires IsInt32(ValueToCounts(v, e.countsPerRev, e.valuePerRev))
    modifies e`count, e`value
    ensures delta == 0 && e.value == v
  {
    e.ResetValue(v);
    delta := e.Encode(v);
  }

  /**
    A counter that moves by s ticks, less than half its range either way,
    between two readings: Decode adds exactly s ticks' worth of value,
    whether or not the counter wrapped.
   */
  method DecodeTracksMovement(e: ArdEncoder, s: int, turns: int, next: Int32) returns (r: real)
    requires e.Valid() && e.countsPerRev != 0 && 1 <= e.resolutionBits < 32
    requires e.CanRead(e.count) && e.CanRead(next)
    requires e.counterLimit < s < -e.counterLimit
    requires next == e.count + s + turns * Pow2(e.resolutionBits)
    modifies e`count, e`value
    ensures e.count == next
    ensures r == e.value == old(e.value) + CountsToValue(s, e.valuePerRev, e.countsPerRev)
  {
    CorrectDeltaRecoversMovement(e.count, s, turns, next, e.resolutionBits);
    r := e.Decode(next);
  }

  /**
    From a state where the value is exactly the stored count scaled, decoding
    a reading and encoding the returned value reports no movement when the
    decode corrected no wrap, and one whole counter range (2^bits ticks) when
    it did: Encode counts absolute ticks, Decode wrapped ones.
    At 31 bits only the forward-wrap offset, +2^31, does not fit Encode's
    int32 difference; that one case is excluded.
   */
  method DecodeThenEncode(e: ArdEncoder, next: Int32) returns (r: real, delta: Int32)
    requires e.Valid() && e.countsPerRev != 0 && e.valuePerRev != 0.0 && 1 <= e.resolutionBits <= 31
    requires e.CanRead(e.count) && e.CanRead(next)
    requires e.resolutionBits == 31 ==> e.counterLimit <= next - e.count
    requires e.value == CountsToValue(e.count, e.valuePerRev, e.countsPerRev)
    modifies e`count, e`value
    ensures e.count == ValueToCounts(r, e.countsPerRev, e.valuePerRev)
    ensures delta ==
      if e.counterLimit <= next - old(e.count) <= -e.counterLimit then 0
      else if next < old(e.count) then -2 * e.counterLimit
      else 2 * e.counterLimit
  {
    ghost var bits := e.resolutionBits;
    ghost var prev := e.count;
    ghost var limit := e.counterLimit;
    FoldInWindow(prev, next, limit);
    if bits <= 30 {
      ModulusFitsInt32(bits);
    }
    ghost var d := CorrectDelta(next - prev, limit);
    DecodeThenEncodeOffset(prev, next, bits, e.countsPerRev, e.valuePerRev);
    SumOfTicksConverts(prev, d, e.countsPerRev, e.valuePerRev);
    r := e.Decode(next);
    assert ValueToCounts(r, e.countsPerRev, e.valuePerRev) == prev + d;
    delta := e.Encode(r);
  }

  /**
    An 8-bit counter at 128 ticks per 360 degrees read at 120 and then at
    -120: the raw difference -240 is a forward wrap of 16 ticks, 45 degrees.
   */
  method EightBitWrap() returns (before: real, after: real)
    ensures before == 337.5
    ensures after == 382.5
  {
    var e := new ArdEncoder();
    var result := e.SetParameters(8, 128, 360.0);
    e.Reset(0, 0.0);
    before := e.Decode(120);
    after := e.Decode(-120);
  }

  /** The k-th reading of an 8-bit counter counting up from 0. */
  function RolloverReading(k: nat): int {
    if k < 128 then k else k - 256
  }

  /**
    An 8-bit counter at 128 ticks per 360 degrees read at 0, 1, ..., 127 and
    then, past its rollover, at -128 and -127: the decoded values step up by
    2.8125 degrees each time, with no jump at the rollover.
   */
  method DecodeRollover() returns (values: seq<real>)
    ensures |values| == 130
    ensures forall k :: 0 <= k < |values| ==> values[k] == k as real * 2.8125
    ensures forall j, k :: 0 <= j < k < |values| ==> values[j] < values[k]
  {
    var e := new ArdEncoder();
    var result := e.SetParameters(8, 128, 360.0);
    e.Reset(0, 0.0);
    values := [];
    for k := 0 to 130
      invariant e.Valid() && e.resolutionBits == 8
      invariant e.counterLimit == -128 && e.countsPerRev == 128 && e.valuePerRev == 360.0
      invariant e.count == (if k == 0 then 0 else RolloverReading(k - 1))
      invariant e.value == (if k == 0 then 0.0 else (k - 1) as real * 2.8125)
      invariant |values| == k
      invariant forall j :: 0 <= j < k ==> values[j] == j as real * 2.8125
    {
      var v := e.Decode(RolloverReading(k));
      values := values + [v];
    }
  }

  /** Bit depths 0 and 33 are refused; 1 and 32 are the extreme accepted depths. */
  method ConfigureBoundaries() returns (r0: EncoderResult, r33: EncoderResult, r1: EncoderResult, limit1: int, r32: EncoderResult, limit32: int)
    ensures r0 == ResolutionIsZero && r33 == ResolutionTooHigh
    ensures r1 == Success && limit1 == -1
    ensures r32 == Success && limit32 == INT32_MIN
  {
    var e := new ArdEncoder();
    r0 := e.SetParameters(0, 128, 360.0);
    r33 := e.SetParameters(33, 128, 360.0);
    r1 := e.SetParameters(1, 128, 360.0);
    limit1 := e.counterLimit;
    r32 := e.SetParameters(32, 128, 360.0);
    limit32 := e.counterLimit;
    FastPathsAgree();
  }
}

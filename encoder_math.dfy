/**
  Fixed-width integer ranges, truncation toward zero, the counter limit of a
  two's-complement counter, the wraparound fold used when decoding, and the
  conversions between counter ticks and scaled units.
 */
module EncoderMath {

  const INT8_MIN: int := -0x80
  const INT16_MIN: int := -0x8000
  const INT32_MIN: int := -0x8000_0000
  const INT32_MAX: int := 0x7FFF_FFFF

  /** The C++ fixed-width types used by the encoder, as ranges of integers. */
  type UInt8 = x: int | 0 <= x <= 0xFF
  type UInt32 = x: int | 0 <= x <= 0xFFFF_FFFF
  type Int32 = x: int | INT32_MIN <= x <= INT32_MAX

  predicate IsInt32(x: int) {
    INT32_MIN <= x <= INT32_MAX
  }

  function Pow2(n: nat): (r: nat)
    ensures r >= 1
  {
    if n == 0 then 1 else 2 * Pow2(n - 1)
  }

  lemma {:induction false} Pow2Monotone(a: nat, b: nat)
    requires a <= b
    ensures Pow2(a) <= Pow2(b)
  {
    if a < b {
      Pow2Monotone(a, b - 1);
    }
  }

  lemma Pow2Values()
    ensures Pow2(7) == 0x80 && Pow2(15) == 0x8000
    ensures Pow2(30) == 0x4000_0000 && Pow2(31) == 0x8000_0000
  {
    assert Pow2(1) == 2; assert Pow2(2) == 4; assert Pow2(3) == 8; assert Pow2(4) == 16;
    assert Pow2(5) == 32; assert Pow2(6) == 64; assert Pow2(7) == 128; assert Pow2(8) == 256;
    assert Pow2(9) == 512; assert Pow2(10) == 1024; assert Pow2(11) == 2048; assert Pow2(12) == 4096;
    assert Pow2(13) == 8192; assert Pow2(14) == 16384; assert Pow2(15) == 32768; assert Pow2(16) == 65536;
    assert Pow2(17) == 0x2_0000; assert Pow2(18) == 0x4_0000; assert Pow2(19) == 0x8_0000;
    assert Pow2(20) == 0x10_0000; assert Pow2(21) == 0x20_0000; assert Pow2(22) == 0x40_0000;
    assert Pow2(23) == 0x80_0000; assert Pow2(24) == 0x100_0000; assert Pow2(25) == 0x200_0000;
    assert Pow2(26) == 0x400_0000; assert Pow2(27) == 0x800_0000; assert Pow2(28) == 0x1000_0000;
    assert Pow2(29) == 0x2000_0000; assert Pow2(30) == 0x4000_0000;
  }

  /** The half-range 2^(bits-1) is at most 2^31, and at most 2^30 below 32 bits. */
  lemma HalfRangeBounds(bits: nat)
    requires 1 <= bits <= 32
    ensures Pow2(bits - 1) <= 0x8000_0000
    ensures bits < 32 ==> Pow2(bits - 1) <= 0x4000_0000
  {
    Pow2Values();
    Pow2Monotone(bits - 1, 31);
    if bits < 32 {
      Pow2Monotone(bits - 1, 30);
    }
  }

  /** The negative half-range -2^(bits-1) of a signed counter of `bits` bits. */
  function CounterLimit(bits: nat): (r: int)
    requires 1 <= bits <= 32
    ensures INT32_MIN <= r < 0
    ensures bits < 32 ==> IsInt32(-r) && IsInt32(2 * r)
  {
    HalfRangeBounds(bits);
    -(Pow2(bits - 1) as int)
  }

  /** The 8-, 16- and 32-bit constants agree with the general definition. */
  lemma FastPathsAgree()
    ensures CounterLimit(8) == INT8_MIN
    ensures CounterLimit(16) == INT16_MIN
    ensures CounterLimit(32) == INT32_MIN
  {
    Pow2Values();
  }

  /** The counter's modulus 2^bits is twice the magnitude of its limit. */
  lemma ModulusIsTwiceLimit(bits: nat)
    requires 1 <= bits <= 32
    ensures Pow2(bits) == -2 * CounterLimit(bits)
  {
  }

  /** Below 31 bits the counter's modulus 2^bits fits in int32. */
  lemma ModulusFitsInt32(bits: nat)
    requires 1 <= bits <= 30
    ensures IsInt32(-2 * CounterLimit(bits))
  {
    Pow2Values();
    Pow2Monotone(bits - 1, 29);
  }

  /** The readings a counter of `bits` bits can produce. */
  predicate InCounterRange(c: int, bits: nat)
    requires 1 <= bits <= 32
  {
    CounterLimit(bits) <= c < -CounterLimit(bits)
  }

  /**
    Decode's correction of a raw count difference: a jump below the limit is
    a forward wrap, a jump above its mirror a backward wrap.
   */
  function CorrectDelta(raw: int, limit: int): int {
    if raw < limit then raw - 2 * limit
    else if raw > -limit then raw + 2 * limit
    else raw
  }

  /**
    For two readings of a counter whose range is [limit, -limit), the
    corrected delta lies in the half-range window [limit, -limit] and differs
    from the raw difference by a multiple of the modulus -2 * limit.
   */
  lemma FoldInWindow(prev: int, next: int, limit: int)
    requires limit < 0
    requires limit <= prev < -limit && limit <= next < -limit
    ensures limit <= CorrectDelta(next - prev, limit) <= -limit
    ensures (CorrectDelta(next - prev, limit) - (next - prev)) % (-2 * limit) == 0
  {
    ModulusMultiples(-2 * limit);
  }

  /** The window and congruence laws for a counter of `bits` bits, modulo 2^bits. */
  lemma CorrectDeltaInWindow(prev: int, next: int, bits: nat)
    requires 1 <= bits <= 32
    requires InCounterRange(prev, bits) && InCounterRange(next, bits)
    ensures CounterLimit(bits) <= CorrectDelta(next - prev, CounterLimit(bits)) <= -CounterLimit(bits)
    ensures (CorrectDelta(next - prev, CounterLimit(bits)) - (next - prev)) % Pow2(bits) == 0
  {
    ModulusIsTwiceLimit(bits);
    FoldInWindow(prev, next, CounterLimit(bits));
  }

  /** k * m stays strictly between -2m and 2m only for k in {-1, 0, 1}. */
  lemma SmallMultiple(k: int, m: int)
    requires m > 0 && -2 * m < k * m < 2 * m
    ensures -1 <= k <= 1
  {
  }

  /** Zero and plus or minus the modulus are multiples of it. */
  lemma ModulusMultiples(m: int)
    requires m > 0
    ensures 0 % m == 0 && m % m == 0 && (-m) % m == 0
  {
  }

  /**
    A counter at `prev` that moves by `s` ticks, less than half a revolution
    of the counter in either direction, reads `next`: the true position
    prev + s brought back into the counter's range by some number of turns
    of size -2 * limit. Correcting the raw difference recovers exactly `s`.
   */
  lemma FoldRecoversMovement(prev: int, s: int, turns: int, next: int, limit: int)
    requires limit < 0
    requires limit <= prev < -limit && limit <= next < -limit
    requires limit < s < -limit
    requires next == prev + s + turns * (-2 * limit)
    ensures CorrectDelta(next - prev, limit) == s
  {
    SmallMultiple(turns, -2 * limit);
  }

  /** The movement-recovery law for a counter of `bits` bits, whose turns are 2^bits ticks. */
  lemma CorrectDeltaRecoversMovement(prev: int, s: int, turns: int, next: int, bits: nat)
    requires 1 <= bits <= 32
    requires InCounterRange(prev, bits) && InCounterRange(next, bits)
    requires CounterLimit(bits) < s < -CounterLimit(bits)
    requires next == prev + s + turns * Pow2(bits)
    ensures CorrectDelta(next - prev, CounterLimit(bits)) == s
  {
    ModulusIsTwiceLimit(bits);
    FoldRecoversMovement(prev, s, turns, next, CounterLimit(bits));
  }

  /** Conversion of a real to an integer rounding toward zero. */
  function Trunc(x: real): (n: int)
    ensures 0.0 <= x ==> 0 <= n && n as real <= x < n as real + 1.0
    ensures x < 0.0 ==> n <= 0 && n as real - 1.0 < x <= n as real
  {
    if x >= 0.0 then x.Floor else -((-x).Floor)
  }

  /** x * num / den, the scaling the encoder applies in both directions. */
  function Scale(x: real, num: real, den: real): real
    requires den != 0.0
  {
    x * num / den
  }

  lemma ScaleInverts(x: real, num: real, den: real)
    requires num != 0.0 && den != 0.0
    ensures Scale(Scale(x, num, den), den, num) == x
  {
    assert Scale(x, num, den) * den == x * num;
  }

  lemma ScaleAdds(x: real, y: real, num: real, den: real)
    requires den != 0.0
    ensures Scale(x, num, den) + Scale(y, num, den) == Scale(x + y, num, den)
  {
  }

  /** Scaled units covered by `counts` counter ticks. */
  function CountsToValue(counts: int, valuePerRev: real, countsPerRev: int): real
    requires countsPerRev != 0
  {
    Scale(counts as real, valuePerRev, countsPerRev as real)
  }

  /** Counter ticks for a scaled value, truncated toward zero. */
  function ValueToCounts(value: real, countsPerRev: int, valuePerRev: real): int
    requires valuePerRev != 0.0
  {
    Trunc(Scale(value, countsPerRev as real, valuePerRev))
  }

  /** Converting a whole number of ticks to scaled units and back is exact. */
  lemma ValueToCountsInverts(counts: int, countsPerRev: int, valuePerRev: real)
    requires countsPerRev != 0 && valuePerRev != 0.0
    ensures ValueToCounts(CountsToValue(counts, valuePerRev, countsPerRev), countsPerRev, valuePerRev) == counts
  {
    ScaleInverts(counts as real, valuePerRev, countsPerRev as real);
  }

  /** A value built from a whole number of ticks converts back to exactly those ticks. */
  lemma SumOfTicksConverts(a: int, b: int, countsPerRev: int, valuePerRev: real)
    requires countsPerRev != 0 && valuePerRev != 0.0
    ensures ValueToCounts(CountsToValue(a, valuePerRev, countsPerRev) + CountsToValue(b, valuePerRev, countsPerRev),
                          countsPerRev, valuePerRev) == a + b
  {
    ScaleAdds(a as real, b as real, valuePerRev, countsPerRev as real);
    ValueToCountsInverts(a + b, countsPerRev, valuePerRev);
  }

  /** How far the corrected delta is from the raw difference: none, or one turn either way. */
  lemma FoldOffset(prev: int, next: int, limit: int)
    requires limit < 0
    ensures CorrectDelta(next - prev, limit) - (next - prev) ==
              if limit <= next - prev <= -limit then 0
              else if next < prev then -2 * limit
              else 2 * limit
  {
  }

  /**
    Starting from a value in step with the stored count (value = prev ticks
    scaled), decoding `next` and then encoding the returned value gives a
    count delta of 0 when no wrap was corrected, and +2^bits or -2^bits when
    the decode folded a forward or a backward wrap.
   */
  lemma DecodeThenEncodeOffset(prev: int, next: int, bits: nat, countsPerRev: int, valuePerRev: real)
    requires 1 <= bits <= 32 && countsPerRev != 0 && valuePerRev != 0.0
    requires InCounterRange(prev, bits) && InCounterRange(next, bits)
    ensures var d := CorrectDelta(next - prev, CounterLimit(bits));
            var decoded := CountsToValue(prev, valuePerRev, countsPerRev) + CountsToValue(d, valuePerRev, countsPerRev);
            ValueToCounts(decoded, countsPerRev, valuePerRev) - next ==
              if CounterLimit(bits) <= next - prev <= -CounterLimit(bits) then 0
              else if next < prev then -2 * CounterLimit(bits)
              else 2 * CounterLimit(bits)
  {
    var limit := CounterLimit(bits);
    FoldOffset(prev, next, limit);
    SumOfTicksConverts(prev, CorrectDelta(next - prev, limit), countsPerRev, valuePerRev);
  }
}

/**
  The incremental encoder: a wrapping counter of configurable bit depth on
  one side, an accumulated scaled value (an angle, a position) on the other.
 */
module Encoder {
  import opened EncoderMath

  /** Outcome of SetParameters. */
  datatype EncoderResult = Success | ResolutionIsZero | ResolutionTooHigh

  class ArdEncoder {
    /** Current scaled value. */
    var value: real
    /** Last counter reading, or the last absolute count produced by Encode. */
    var count: Int32
    /** Scaled units per revolution. */
    var valuePerRev: real
    /** Counter ticks per revolution. */
    var countsPerRev: UInt32
    /** -2^(bits-1): the lowest reading of the configured counter. */
    var counterLimit: Int32
    /** Configured bit depth, 0 while the encoder has not been configured. */
    ghost var resolutionBits: nat

    ghost predicate Valid()
      reads this
    {
      if resolutionBits == 0 then
        counterLimit == 0 && countsPerRev == 0 && valuePerRev == 0.0
      else
        resolutionBits <= 32 && counterLimit == CounterLimit(resolutionBits)
    }

    /** True when the configured counter can produce the reading `c`. */
    ghost predicate CanRead(c: int)
      reads this
      requires Valid() && resolutionBits != 0
    {
      InCounterRange(c, resolutionBits)
    }

    constructor ()
      ensures Valid() && resolutionBits == 0
      ensures value == 0.0 && count == 0
      ensures valuePerRev == 0.0 && countsPerRev == 0 && counterLimit == 0
    {
      value := 0.0;
      count := 0;
      valuePerRev := 0.0;
      countsPerRev := 0;
      counterLimit := 0;
      resolutionBits := 0;
    }

    /**
      Configures the counter's bit depth and the scale. A depth of 0 or above
      32 is refused and changes nothing; otherwise the state is reset to zero.
     */
    method SetParameters(counterResolutionBits: UInt8, countsPerRev: UInt32, valuePerRev: real)
      returns (result: EncoderResult)
      requires Valid()
      modifies this
      ensures Valid()
      ensures counterResolutionBits == 0 ==> result == ResolutionIsZero
      ensures counterResolutionBits > 32 ==> result == ResolutionTooHigh
      ensures result != Success ==> unchanged(this)
      ensures 1 <= counterResolutionBits <= 32 ==>
        result == Success &&
        resolutionBits == counterResolutionBits &&
        value == 0.0 && count == 0 &&
        this.valuePerRev == valuePerRev && this.countsPerRev == countsPerRev &&
        counterLimit == CounterLimit(counterResolutionBits)
    {
      result := Success;
      if counterResolutionBits == 0 {
        result := ResolutionIsZero;
      } else if counterResolutionBits > 32 {
        result := ResolutionTooHigh;
      } else {
        value := 0.0;
        count := 0;
        this.valuePerRev := valuePerRev;
        this.countsPerRev := countsPerRev;
        FastPathsAgree();
        if counterResolutionBits == 32 {
          counterLimit := INT32_MIN;
        } else if counterResolutionBits == 16 {
          counterLimit := INT16_MIN;
        } else if counterResolutionBits == 8 {
          counterLimit := INT8_MIN;
        } else {
          var limit: Int32 := -1;
          for i := 0 to counterResolutionBits - 1
            modifies {}
            invariant limit == -(Pow2(i) as int)
          {
            Pow2Values();
            Pow2Monotone(i + 1, 30);
            limit := limit * 2;
          }
          counterLimit := limit;
        }
        resolutionBits := counterResolutionBits;
      }
    }

    /** Sets the count and the value, unchecked, to a known reference point. */
    method Reset(count: Int32, value: real)
      requires Valid()
      modifies this`count, this`value
      ensures Valid()
      ensures this.count == count && this.value == value
    {
      this.count := count;
      this.value := value;
    }

    /** Sets the value and derives the count from it by truncation toward zero. */
    method ResetValue(value: real)
      requires Valid() && valuePerRev != 0.0
      requires IsInt32(ValueToCounts(value, countsPerRev, valuePerRev))
      modifies this`count, this`value
      ensures Valid()
      ensures this.value == value
      ensures count == ValueToCounts(value, countsPerRev, valuePerRev)
    {
      this.value := value;
      count := Trunc(Scale(this.value, countsPerRev as real, valuePerRev));
    }

    /**
      Folds a new counter reading into the value: the difference from the
      stored reading, corrected for one wrap of the counter, is scaled and
      added. Returns the new value.
     */
    method Decode(count: Int32) returns (r: real)
      requires Valid() && countsPerRev != 0
      requires IsInt32(count - this.count)
      requires IsInt32(-(counterLimit as int))
      modifies this`count, this`value
      ensures Valid()
      ensures this.count == count
      ensures value == old(value) + CountsToValue(CorrectDelta(count - old(this.count), counterLimit), valuePerRev, countsPerRev)
      ensures r == value
    {
      var delta: Int32 := count - this.count;
      if delta < counterLimit {
        delta := delta - 2 * counterLimit;
      } else if delta > -counterLimit {
        delta := delta + 2 * counterLimit;
      }
      this.count := count;
      value := value + Scale(delta as real, valuePerRev, countsPerRev as real);
      r := value;
    }

    /**
      Sets the value and the absolute count it truncates to, and returns how
      far that count is from the previous one. No wraparound is applied.
     */
    method Encode(value: real) returns (delta: Int32)
      requires Valid() && valuePerRev != 0.0
      requires IsInt32(ValueToCounts(value, countsPerRev, valuePerRev))
      requires IsInt32(ValueToCounts(value, countsPerRev, valuePerRev) - count)
      modifies this`count, this`value
      ensures Valid()
      ensures delta == ValueToCounts(value, countsPerRev, valuePerRev) - old(count)
      ensures count == ValueToCounts(value, countsPerRev, valuePerRev)
      ensures this.value == value
    {
      var newCount: Int32 := Trunc(Scale(value, countsPerRev as real, valuePerRev));
      delta := newCount - count;
      count := newCount;
      this.value := value;
    }
  }
}

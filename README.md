# ArdEncoder in Dafny

A model of `ArdEncoder`, the incremental-encoder class of ArduinoUtilities-Encoder.
The class translates between a wrapping hardware counter and an accumulating
scaled value such as an angle or a position. The counter's bit depth is
configurable from 1 to 32. It keeps five fields, updated in place:

- the current value;
- the last count;
- the scaled units per revolution;
- the counter ticks per revolution;
- the counter limit, -2^(bits-1).

The model has three files.

- `encoder_math.dfy` (module `EncoderMath`) holds the pure arithmetic:
  - the C++ integer widths, as ranges of `int`;
  - truncation toward zero (`Trunc`);
  - the counter limit `CounterLimit(bits) = -2^(bits-1)`;
  - the wraparound fold that `Decode` applies (`CorrectDelta`);
  - the conversions between ticks and scaled units, with the laws proved about them.
- `ard_encoder.dfy` (module `Encoder`) holds the class `ArdEncoder`:
  - its fields are the source's fields;
  - a ghost field `resolutionBits` records the configured bit depth (0 means
    unconfigured), and `Valid()` ties `counterLimit` to it;
  - each method changes only the fields the source writes, and its `ensures`
    states the whole new state.
- `encoder_scenarios.dfy` (module `EncoderScenarios`) holds client methods.
  Each one calls the class in sequence and proves a property of that sequence
  from the method contracts alone.

`double` is modelled as `real`. Every C++ undefined behaviour is excluded by a
precondition: signed `int32` overflow, and a `double` cast to `int32_t` out of
range. So is a division by a zero scale factor.

Decode then Encode: start from a value in step with the stored count, that is,
equal to the count scaled by valuePerRev/countsPerRev. That holds right after
`SetParameters`, or after `Reset(c, c·valuePerRev/countsPerRev)`. `Decode` then
takes a counter reading, and `Encode` is given the value that `Decode` returned.
`Encode` reports 0 when `Decode` corrected no wrap, and plus or minus 2^bits
ticks across a wrap. The reason is that `Encode` counts absolute ticks while
`Decode` stores the wrapped reading (`EncoderMath.DecodeThenEncodeOffset`,
`EncoderScenarios.DecodeThenEncode`). Without it, `Encode`'s result is also
shifted by the distance between the value and the count, truncated to ticks;
that shift is a whole number of turns only when it comes from earlier wrapped
decodes. At 31 bits the forward-wrap offset, +2^31, overflows
`Encode`'s int32 difference, so that case is excluded.

## Model

| member | source | states |
|---|---|---|
| `EncoderMath.Trunc` | include/ArdEncoder.h:197 | the conversion rounds toward zero: the result has the input's sign and lies less than 1 from it, never beyond it |
| `EncoderMath.CounterLimit` | include/ArdEncoder.h:137-156 | the limit -2^(bits-1) is negative and fits int32 for every depth 1..32; below 32 bits its negation and its double fit int32 as well |
| `EncoderMath.FastPathsAgree` | include/ArdEncoder.h:137-148 | the INT8_MIN, INT16_MIN and INT32_MIN fast paths equal the general -2^(bits-1) |
| `EncoderMath.FoldInWindow` | include/ArdEncoder.h:177-185 | for two readings in [limit, -limit), the corrected delta lies in [limit, -limit] and is congruent to the raw difference modulo -2·limit |
| `EncoderMath.CorrectDeltaInWindow` | include/ArdEncoder.h:177-185 | the same window and congruence for a counter of `bits` bits, modulo 2^bits |
| `EncoderMath.FoldRecoversMovement` | include/ArdEncoder.h:177-185 | if the counter moved by s ticks with \|s\| less than half its range, wrapping any number of turns, the corrected delta is exactly s |
| `EncoderMath.CorrectDeltaRecoversMovement` | include/ArdEncoder.h:177-185 | the same recovery law for a counter of `bits` bits, whose turns are 2^bits ticks |
| `EncoderMath.ValueToCountsInverts` | include/ArdEncoder.h:189-197 | a whole number of ticks, scaled as Decode does and converted back as Encode does, gives the same ticks |
| `EncoderMath.SumOfTicksConverts` | include/ArdEncoder.h:189-197 | a value accumulated from two whole tick counts converts back to their sum |
| `EncoderMath.DecodeThenEncodeOffset` | include/ArdEncoder.h:174-205 | from a value equal to the stored count scaled, Decode then Encode of the decoded value gives 0 without a wrap and ±2^bits across one |
| `Encoder.ArdEncoder.constructor` | include/ArdEncoder.h:42 | every field is zero and the encoder is unconfigured |
| `Encoder.ArdEncoder.SetParameters` | include/ArdEncoder.h:118-160 | 0 bits gives ResolutionIsZero and more than 32 gives ResolutionTooHigh, both with no field changed; 1..32 gives Success with value and count 0, both scale factors stored and counterLimit = -2^(bits-1), by the fast paths or the doubling loop |
| `Encoder.ArdEncoder.Reset` | include/ArdEncoder.h:162-166 | count and value become the arguments exactly; the configuration is unchanged |
| `Encoder.ArdEncoder.ResetValue` | include/ArdEncoder.h:168-172 | value becomes the argument and count its truncated tick count value·countsPerRev/valuePerRev |
| `Encoder.ArdEncoder.Decode` | include/ArdEncoder.h:174-192 | count becomes the reading; value grows by the wrap-corrected delta scaled by valuePerRev/countsPerRev; the new value is returned; the configuration is unchanged |
| `Encoder.ArdEncoder.Encode` | include/ArdEncoder.h:194-206 | returns the truncated absolute count minus the old count, stores that count, and stores the value verbatim |
| `EncoderScenarios.ResetThenDecode` | include/ArdEncoder.h:162-191 | Reset(c, v) followed by Decode(c) returns v |
| `EncoderScenarios.EncodeTwice` | include/ArdEncoder.h:194-205 | a second Encode of the same value returns 0 |
| `EncoderScenarios.ResetValueThenEncode` | include/ArdEncoder.h:168-205 | ResetValue(v) followed by Encode(v) returns 0, because both derive the same count |
| `EncoderScenarios.DecodeTracksMovement` | include/ArdEncoder.h:174-192 | when the counter moves by less than half its range, Decode adds exactly that movement's scaled value, whether or not the counter wrapped |
| `EncoderScenarios.DecodeThenEncode` | include/ArdEncoder.h:174-205 | the class-level form of DecodeThenEncodeOffset for 1..31 bits: starting from a value equal to the stored count scaled, the count Encode reports after Decode is 0 without a wrap and ±2^bits across one; the 31-bit forward wrap, whose +2^31 overflows Encode's int32 difference, is excluded |
| `EncoderScenarios.EightBitWrap` | include/ArdEncoder.h:174-192 | 8 bits, 128 ticks per 360: readings 120 then -120 decode to 337.5 and then 382.5, a forward wrap of 16 ticks rather than a jump back of 240 |
| `EncoderScenarios.DecodeRollover` | include/ArdEncoder.h:174-192 | 8 bits, 128 ticks per 360: readings 0..127, -128, -127 decode to k·2.8125 and strictly increase across the rollover |
| `EncoderScenarios.ConfigureBoundaries` | include/ArdEncoder.h:118-160 | depth 0 and depth 33 are refused; depths 1 and 32 succeed with limits -1 and INT32_MIN |

## Left out

- Floating point: `double` is `real`, so rounding error, infinities and NaN are not modelled.
- `Encoder.ArdEncoder.Decode`: requires `countsPerRev != 0`. In the source a zero scale gives infinity or NaN, which a `real` cannot hold.
- `Encoder.ArdEncoder.Decode`: 32-bit counters are excluded, by requiring that `-counterLimit` fit in int32. At 32 bits the source's `-m_counter_limit` and `2 * m_counter_limit` overflow int32, which is undefined behaviour.
- `Encoder.ArdEncoder.Decode`: requires that `count - m_count` fit in int32. Readings inside the configured counter range always meet this below 32 bits.
- `Encoder.ArdEncoder.Encode`: requires `valuePerRev != 0`, a truncated count that fits in int32, and a difference from the stored count that fits in int32. Anything else is an out-of-range cast or a signed overflow in the source.
- `Encoder.ArdEncoder.ResetValue`: requires `valuePerRev != 0` and a truncated count that fits in int32, for the same reason.
- `SetParameters` accepts zero scale factors, as the source does. Each later call is blocked only by its own divisor: a zero `countsPerRev` blocks `Decode`, and a zero `valuePerRev` blocks `Encode` and `ResetValue`.
- test/embedded/test_embedded.cpp is not part of this model. It calls a C-style API (`ard_encoder_set`, `ard_encoder_decode`) that the header does not declare. Its expected values are all zero.
- Concurrent use of one instance, for example from an interrupt handler, is not modelled. The class has no locking.

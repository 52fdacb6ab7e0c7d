/** The Q9.6 fixed-point codec: a physical value is scaled by 2^6, rounded
    half away from zero, saturated to the signed 16-bit range and carried as
    the two's-complement bit pattern of a `uint16_t`. Values are modelled as
    exact reals, so the model ignores the rounding error of `float`. */
module FixedPoint {
  import opened Bytes

  /** 1 << 6: six fractional bits. */
  const ScaleFactor: real := 64.0

  /** The signed 16-bit range the scaled value is clamped to. */
  const MaxScaled: int := 0x7FFF
  const MinScaled: int := -0x8000

  /** The extreme values Q9.6 represents: 32767/64 and -32768/64. */
  const MaxValue: real := 511.984375
  const MinValue: real := -512.0

  /** `roundf`: the nearest integer, ties away from zero. */
  function Round(x: real): (r: int)
    ensures x >= 0.0 ==> x - 0.5 < r as real <= x + 0.5
    ensures x < 0.0 ==> x - 0.5 <= r as real < x + 0.5
  {
    if x >= 0.0 then (x + 0.5).Floor else -((-x + 0.5).Floor)
  }

  /** Converting the rounded, scaled float to a 32-bit signed integer is
      defined only when the rounded value fits in that type. */
  predicate CastDefined(v: real)
  {
    -0x8000_0000 <= Round(v * ScaleFactor) <= 0x7FFF_FFFF
  }

  /** The range check of the encoder: saturate to [-0x8000, 0x7FFF]. */
  function Clamp(s: int): (r: int)
    ensures MinScaled <= r <= MaxScaled
    ensures MinScaled <= s <= MaxScaled ==> r == s
  {
    if s > MaxScaled then MaxScaled
    else if s < MinScaled then MinScaled
    else s
  }

  /** The low 16 bits of a two's-complement integer, as an unsigned word. */
  function LowBits(s: int): (w: Word)
    ensures (s - w) % 0x1_0000 == 0
    ensures 0 <= s < 0x1_0000 ==> w == s
  {
    s % 0x1_0000
  }

  /** The word read back as a two's-complement signed 16-bit integer. */
  function Signed(w: Word): (s: int)
    ensures MinScaled <= s <= MaxScaled
    ensures LowBits(s) == w
  {
    if w < 0x8000 then w else w - 0x1_0000
  }

  /** `float_to_fixed16`. */
  function Encode(v: real): (w: Word)
    requires CastDefined(v)
    ensures Signed(w) == Clamp(Round(v * ScaleFactor))
  {
    SignedLowBits(Clamp(Round(v * ScaleFactor)));
    LowBits(Clamp(Round(v * ScaleFactor)))
  }

  /** `fixed16_to_float`. */
  function Decode(w: Word): (r: real)
    ensures MinValue <= r <= MaxValue
    ensures r * ScaleFactor == Signed(w) as real
  {
    Signed(w) as real / ScaleFactor
  }

  /** Reading the low 16 bits of an in-range integer as signed gives the
      integer back: the two reinterpretations are inverse on the range. */
  lemma SignedLowBits(s: int)
    requires MinScaled <= s <= MaxScaled
    ensures Signed(LowBits(s)) == s
  {
    if s < 0 {
      assert LowBits(s) == s + 0x1_0000;
    }
  }

  /** Rounding is the identity on integers. */
  lemma RoundInteger(n: int)
    ensures Round(n as real) == n
  {
  }

  /** Rounding never decreases. */
  lemma RoundMonotone(x: real, y: real)
    requires x <= y
    ensures Round(x) <= Round(y)
  {
  }

  /** Saturation never decreases. */
  lemma ClampMonotone(s: int, t: int)
    requires s <= t
    ensures Clamp(s) <= Clamp(t)
  {
  }

  /** The signed reading of the encoder's output is non-decreasing in the input. */
  lemma EncodeMonotone(v1: real, v2: real)
    requires CastDefined(v1) && CastDefined(v2)
    requires v1 <= v2
    ensures Signed(Encode(v1)) <= Signed(Encode(v2))
  {
    RoundMonotone(v1 * ScaleFactor, v2 * ScaleFactor);
    ClampMonotone(Round(v1 * ScaleFactor), Round(v2 * ScaleFactor));
  }

  /** Values that round above 0x7FFF saturate to 0x7FFF, values that round
      below -0x8000 saturate to the bit pattern 0x8000. */
  lemma EncodeSaturates(v: real)
    requires CastDefined(v)
    ensures Round(v * ScaleFactor) > MaxScaled ==> Encode(v) == 0x7FFF
    ensures Round(v * ScaleFactor) < MinScaled ==> Encode(v) == 0x8000
  {
    SignedLowBits(MaxScaled);
    SignedLowBits(MinScaled);
  }

  /** Every value above the largest Q9.6 value encodes like that value, and
      every value below the smallest encodes like the smallest. */
  lemma EncodeOutOfRange(v: real)
    requires CastDefined(v)
    ensures v > MaxValue ==> Encode(v) == Encode(MaxValue) == 0x7FFF
    ensures v < MinValue ==> Encode(v) == Encode(MinValue) == 0x8000
  {
    RoundInteger(MaxScaled);
    RoundInteger(MinScaled);
    assert MaxValue * ScaleFactor == MaxScaled as real;
    assert MinValue * ScaleFactor == MinScaled as real;
    if v > MaxValue {
      RoundMonotone(MaxValue * ScaleFactor, v * ScaleFactor);
    }
    if v < MinValue {
      RoundMonotone(v * ScaleFactor, MinValue * ScaleFactor);
    }
    EncodeSaturates(v);
    EncodeSaturates(MaxValue);
    EncodeSaturates(MinValue);
    SignedLowBits(MaxScaled);
    SignedLowBits(MinScaled);
  }

  /** Zero encodes to the zero word, and the zero word decodes to zero. */
  lemma Zero()
    ensures CastDefined(0.0) && Encode(0.0) == 0
    ensures Decode(0) == 0.0
  {
    RoundInteger(0);
  }

  /** The high bit is the sign bit: words below 0x8000 decode to w/64 and are
      non-negative, words from 0x8000 on decode to (w - 65536)/64 and are
      negative. */
  lemma DecodeSign(w: Word)
    ensures w < 0x8000 ==> Decode(w) == w as real / ScaleFactor
    ensures w >= 0x8000 ==> Decode(w) == (w - 0x1_0000) as real / ScaleFactor
    ensures Decode(w) < 0.0 <==> w >= 0x8000
  {
  }

  /** Every value on the 1/64 grid inside the Q9.6 range survives an
      encode/decode round trip exactly. */
  lemma GridRoundTrip(n: int)
    requires MinScaled <= n <= MaxScaled
    ensures CastDefined(n as real / ScaleFactor)
    ensures Decode(Encode(n as real / ScaleFactor)) == n as real / ScaleFactor
  {
    var v := n as real / ScaleFactor;
    assert v * ScaleFactor == n as real;
    RoundInteger(n);
    SignedLowBits(n);
  }

  /** Every word survives a decode/encode round trip: the codec is a
      bijection between words and the Q9.6 grid. */
  lemma WordRoundTrip(w: Word)
    ensures CastDefined(Decode(w))
    ensures Encode(Decode(w)) == w
  {
    RoundInteger(Signed(w));
  }

  /** Inside the Q9.6 range the encoder never saturates, and decoding the
      result is within half a quantization step (1/128) of the input. */
  lemma QuantizationError(v: real)
    requires MinValue <= v <= MaxValue
    ensures CastDefined(v)
    ensures MinScaled <= Round(v * ScaleFactor) <= MaxScaled
    ensures -1.0 / 128.0 <= Decode(Encode(v)) - v <= 1.0 / 128.0
  {
    RoundInteger(MaxScaled);
    RoundInteger(MinScaled);
    assert MaxValue * ScaleFactor == MaxScaled as real;
    assert MinValue * ScaleFactor == MinScaled as real;
    RoundMonotone(v * ScaleFactor, MaxValue * ScaleFactor);
    RoundMonotone(MinValue * ScaleFactor, v * ScaleFactor);
    var r := Round(v * ScaleFactor);
    assert -0.5 <= r as real - v * ScaleFactor <= 0.5;
    SignedLowBits(r);
    assert Decode(Encode(v)) == r as real / ScaleFactor;
  }
}

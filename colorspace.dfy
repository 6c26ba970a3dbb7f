/**
 * Transfer functions of src/colorspace.rs: the piecewise Rec.2020 (ITU-R BT.2020)
 * and ProPhoto (ROMM RGB) decode (`into_linear`) and encode (`from_linear`)
 * curves, and the Adobe RGB (1998) gamma constant.
 *
 * Values are reals.  The power function `powf` belongs to a numeric library and
 * is a parameter `pow(base, exponent)` about which nothing is assumed unless a
 * lemma says so in its requires.
 */
module ColorSpace {

  /** An uninterpreted power function: pow(base, exponent). */
  type PowFn = (real, real) -> real

  const Rec2020Alpha: real := 1.09929682680944
  const Rec2020Beta: real := 0.018053968510807
  /** Break point of the decode direction: the encoded value of Rec2020Beta. */
  const Rec2020EncodedBreak: real := Rec2020Beta * 4.5
  const Rec2020DecodeExponent: real := 1.0 / 0.45
  const Rec2020EncodeExponent: real := 0.45

  const ProPhotoEncodedBreak: real := 16.0 / 512.0
  const ProPhotoLinearBreak: real := 1.0 / 512.0
  const ProPhotoDecodeExponent: real := 1.8
  const ProPhotoEncodeExponent: real := 1.0 / 1.8

  function Abs(x: real): (r: real)
    ensures r >= 0.0 && (r == x || r == -x)
  {
    if x < 0.0 then -x else x
  }

  /** Rust's f32::signum: 1 for +0.0 and every positive value, -1 for negatives. */
  function Signum(x: real): (r: real)
    ensures r == 1.0 || r == -1.0
    ensures r * Abs(x) == x
  {
    if x < 0.0 then -1.0 else 1.0
  }

  /** The Adobe RGB (1998) encoding exponent, 256/563; its reciprocal is the gamma 563/256. */
  function Adobe98Gamma(): (g: real)
    ensures g * 563.0 == 256.0
    ensures 0.0 < g < 1.0 && 1.0 / g == 2.19921875
  {
    256.0 / 563.0
  }

  // ---------------------------------------------------------------- Rec.2020

  /** Rec.2020 decode: encoded value to linear light. */
  function Rec2020IntoLinear(pow: PowFn, encoded: real): real
  {
    if Abs(encoded) < Rec2020EncodedBreak then encoded / 4.5
    else Signum(encoded) * pow((Abs(encoded) + Rec2020Alpha - 1.0) / Rec2020Alpha, Rec2020DecodeExponent)
  }

  /** Rec.2020 encode: linear light to encoded value. */
  function Rec2020FromLinear(pow: PowFn, linear: real): real
  {
    if Abs(linear) < Rec2020Beta then linear * 4.5
    else Signum(linear) * (pow(Abs(linear), Rec2020EncodeExponent) * Rec2020Alpha + 1.0 - Rec2020Alpha)
  }

  // ---------------------------------------------------------------- ProPhoto

  /** ProPhoto decode: encoded value to linear light. */
  function ProPhotoIntoLinear(pow: PowFn, encoded: real): real
  {
    if Abs(encoded) < ProPhotoEncodedBreak then encoded / 16.0
    else Signum(encoded) * pow(Abs(encoded), ProPhotoDecodeExponent)
  }

  /** ProPhoto encode: linear light to encoded value. */
  function ProPhotoFromLinear(pow: PowFn, linear: real): real
  {
    if Abs(linear) < ProPhotoLinearBreak then linear * 16.0
    else Signum(linear) * pow(Abs(linear), ProPhotoEncodeExponent)
  }

  // ---------------------------------------------------------------- symmetry

  lemma SignumNegate(x: real)
    requires x != 0.0
    ensures Signum(-x) == -Signum(x) && Abs(-x) == Abs(x)
  {
  }

  /** All four curves are odd functions, whatever the power function. */
  lemma TransferFunctionsAreOdd(pow: PowFn, x: real)
    ensures Rec2020IntoLinear(pow, -x) == -Rec2020IntoLinear(pow, x)
    ensures Rec2020FromLinear(pow, -x) == -Rec2020FromLinear(pow, x)
    ensures ProPhotoIntoLinear(pow, -x) == -ProPhotoIntoLinear(pow, x)
    ensures ProPhotoFromLinear(pow, -x) == -ProPhotoFromLinear(pow, x)
  {
    if x != 0.0 {
      SignumNegate(x);
    }
  }

  /** All four curves fix zero, whatever the power function. */
  lemma TransferFunctionsFixZero(pow: PowFn)
    ensures Rec2020IntoLinear(pow, 0.0) == 0.0 && Rec2020FromLinear(pow, 0.0) == 0.0
    ensures ProPhotoIntoLinear(pow, 0.0) == 0.0 && ProPhotoFromLinear(pow, 0.0) == 0.0
  {
  }

  // ---------------------------------------------------------------- round trips

  /** The linear segment of the encoder lands in the linear segment of the decoder, which undoes it exactly. */
  lemma Rec2020LinearSegmentRoundTrip(pow: PowFn, x: real)
    requires Abs(x) < Rec2020Beta
    ensures Abs(Rec2020FromLinear(pow, x)) < Rec2020EncodedBreak
    ensures Rec2020IntoLinear(pow, Rec2020FromLinear(pow, x)) == x
  {
  }

  /** The linear segment of the decoder lands in the linear segment of the encoder, which undoes it exactly. */
  lemma Rec2020DecodeLinearSegmentRoundTrip(pow: PowFn, y: real)
    requires Abs(y) < Rec2020EncodedBreak
    ensures Abs(Rec2020IntoLinear(pow, y)) < Rec2020Beta
    ensures Rec2020FromLinear(pow, Rec2020IntoLinear(pow, y)) == y
  {
  }

  lemma ProPhotoLinearSegmentRoundTrip(pow: PowFn, x: real)
    requires Abs(x) < ProPhotoLinearBreak
    ensures Abs(ProPhotoFromLinear(pow, x)) < ProPhotoEncodedBreak
    ensures ProPhotoIntoLinear(pow, ProPhotoFromLinear(pow, x)) == x
  {
  }

  lemma ProPhotoDecodeLinearSegmentRoundTrip(pow: PowFn, y: real)
    requires Abs(y) < ProPhotoEncodedBreak
    ensures Abs(ProPhotoIntoLinear(pow, y)) < ProPhotoLinearBreak
    ensures ProPhotoFromLinear(pow, ProPhotoIntoLinear(pow, y)) == y
  {
  }

  /** A signed magnitude: Signum and Abs of s * m for a sign s and a positive m. */
  lemma SignedMagnitude(s: real, m: real)
    requires s == 1.0 || s == -1.0
    requires m > 0.0
    ensures Abs(s * m) == m && Signum(s * m) == s
  {
  }

  /**
   * Rec.2020 encode then decode is the identity on every input, provided that, at this input,
   * the power function's two exponents undo each other and the power segment of the encoder
   * lands past the decoder's break point.
   */
  lemma Rec2020RoundTrip(pow: PowFn, x: real)
    requires Abs(x) >= Rec2020Beta ==>
      && pow(pow(Abs(x), Rec2020EncodeExponent), Rec2020DecodeExponent) == Abs(x)
      && pow(Abs(x), Rec2020EncodeExponent) * Rec2020Alpha + 1.0 - Rec2020Alpha >= Rec2020EncodedBreak
    ensures Rec2020IntoLinear(pow, Rec2020FromLinear(pow, x)) == x
  {
    if Abs(x) < Rec2020Beta {
      Rec2020LinearSegmentRoundTrip(pow, x);
    } else {
      var p := pow(Abs(x), Rec2020EncodeExponent);
      var m := p * Rec2020Alpha + 1.0 - Rec2020Alpha;
      var y := Signum(x) * m;
      assert Rec2020FromLinear(pow, x) == y;
      SignedMagnitude(Signum(x), m);
      assert (Abs(y) + Rec2020Alpha - 1.0) / Rec2020Alpha == p;
      assert Rec2020IntoLinear(pow, y) == Signum(x) * Abs(x);
    }
  }

  /** Rec.2020 decode then encode is the identity, under the mirror-image conditions. */
  lemma Rec2020DecodeRoundTrip(pow: PowFn, y: real)
    requires Abs(y) >= Rec2020EncodedBreak ==>
      var q := (Abs(y) + Rec2020Alpha - 1.0) / Rec2020Alpha;
      && pow(pow(q, Rec2020DecodeExponent), Rec2020EncodeExponent) == q
      && pow(q, Rec2020DecodeExponent) >= Rec2020Beta
    ensures Rec2020FromLinear(pow, Rec2020IntoLinear(pow, y)) == y
  {
    if Abs(y) < Rec2020EncodedBreak {
      Rec2020DecodeLinearSegmentRoundTrip(pow, y);
    } else {
      var q := (Abs(y) + Rec2020Alpha - 1.0) / Rec2020Alpha;
      var m := pow(q, Rec2020DecodeExponent);
      var x := Signum(y) * m;
      assert Rec2020IntoLinear(pow, y) == x;
      SignedMagnitude(Signum(y), m);
      assert pow(Abs(x), Rec2020EncodeExponent) * Rec2020Alpha + 1.0 - Rec2020Alpha == Abs(y);
    }
  }

  /** ProPhoto encode then decode is the identity, under the same kind of conditions as Rec2020RoundTrip. */
  lemma ProPhotoRoundTrip(pow: PowFn, x: real)
    requires Abs(x) >= ProPhotoLinearBreak ==>
      && pow(pow(Abs(x), ProPhotoEncodeExponent), ProPhotoDecodeExponent) == Abs(x)
      && pow(Abs(x), ProPhotoEncodeExponent) >= ProPhotoEncodedBreak
    ensures ProPhotoIntoLinear(pow, ProPhotoFromLinear(pow, x)) == x
  {
    if Abs(x) < ProPhotoLinearBreak {
      ProPhotoLinearSegmentRoundTrip(pow, x);
    } else {
      var m := pow(Abs(x), ProPhotoEncodeExponent);
      var y := Signum(x) * m;
      assert ProPhotoFromLinear(pow, x) == y;
      SignedMagnitude(Signum(x), m);
      assert ProPhotoIntoLinear(pow, y) == Signum(x) * pow(m, ProPhotoDecodeExponent);
    }
  }

  /** ProPhoto decode then encode is the identity, under the mirror-image conditions. */
  lemma ProPhotoDecodeRoundTrip(pow: PowFn, y: real)
    requires Abs(y) >= ProPhotoEncodedBreak ==>
      && pow(pow(Abs(y), ProPhotoDecodeExponent), ProPhotoEncodeExponent) == Abs(y)
      && pow(Abs(y), ProPhotoDecodeExponent) >= ProPhotoLinearBreak
    ensures ProPhotoFromLinear(pow, ProPhotoIntoLinear(pow, y)) == y
  {
    if Abs(y) < ProPhotoEncodedBreak {
      ProPhotoDecodeLinearSegmentRoundTrip(pow, y);
    } else {
      var m := pow(Abs(y), ProPhotoDecodeExponent);
      var x := Signum(y) * m;
      assert ProPhotoIntoLinear(pow, y) == x;
      SignedMagnitude(Signum(y), m);
      assert ProPhotoFromLinear(pow, x) == Signum(y) * pow(m, ProPhotoEncodeExponent);
    }
  }

  // ---------------------------------------------------------------- monotonicity

  /**
   * What monotonicity of the Rec.2020 encoder needs of the power function: on bases from the
   * break point up it is non-decreasing for the exponent 0.45, and there the power branch
   * starts no lower than the linear branch ends.
   */
  ghost predicate Rec2020EncodeMonotonePow(pow: PowFn)
  {
    && (forall a, b :: Rec2020Beta <= a <= b ==> pow(a, Rec2020EncodeExponent) <= pow(b, Rec2020EncodeExponent))
    && pow(Rec2020Beta, Rec2020EncodeExponent) * Rec2020Alpha + 1.0 - Rec2020Alpha >= Rec2020Beta * 4.5
  }

  /** The base the Rec.2020 decoder's power branch starts from. */
  const Rec2020DecodeBaseAtBreak: real := (Rec2020EncodedBreak + Rec2020Alpha - 1.0) / Rec2020Alpha

  /** The same for the decoder, with the exponent 1/0.45. */
  ghost predicate Rec2020DecodeMonotonePow(pow: PowFn)
  {
    && (forall u, v :: Rec2020DecodeBaseAtBreak <= u <= v ==> pow(u, Rec2020DecodeExponent) <= pow(v, Rec2020DecodeExponent))
    && pow(Rec2020DecodeBaseAtBreak, Rec2020DecodeExponent) >= Rec2020EncodedBreak / 4.5
  }

  /** The same for the ProPhoto encoder, with the exponent 1/1.8 from 1/512 up. */
  ghost predicate ProPhotoEncodeMonotonePow(pow: PowFn)
  {
    && (forall a, b :: ProPhotoLinearBreak <= a <= b ==> pow(a, ProPhotoEncodeExponent) <= pow(b, ProPhotoEncodeExponent))
    && pow(ProPhotoLinearBreak, ProPhotoEncodeExponent) >= ProPhotoLinearBreak * 16.0
  }

  /** The same for the ProPhoto decoder, with the exponent 1.8 from 16/512 up. */
  ghost predicate ProPhotoDecodeMonotonePow(pow: PowFn)
  {
    && (forall a, b :: ProPhotoEncodedBreak <= a <= b ==> pow(a, ProPhotoDecodeExponent) <= pow(b, ProPhotoDecodeExponent))
    && pow(ProPhotoEncodedBreak, ProPhotoDecodeExponent) >= ProPhotoEncodedBreak / 16.0
  }

  /** On non-negative inputs the Rec.2020 encoder is non-negative and non-decreasing. */
  lemma Rec2020FromLinearMagnitude(pow: PowFn, a: real, b: real)
    requires Rec2020EncodeMonotonePow(pow) && 0.0 <= a <= b
    ensures 0.0 <= Rec2020FromLinear(pow, a) <= Rec2020FromLinear(pow, b)
  {
    var e := Rec2020EncodeExponent;
    if a >= Rec2020Beta {
      assert pow(Rec2020Beta, e) <= pow(a, e);
    } else if b >= Rec2020Beta {
      assert pow(Rec2020Beta, e) <= pow(b, e);
    }
  }

  /** On non-negative inputs the Rec.2020 decoder is non-negative and non-decreasing. */
  lemma Rec2020IntoLinearMagnitude(pow: PowFn, a: real, b: real)
    requires Rec2020DecodeMonotonePow(pow) && 0.0 <= a <= b
    ensures 0.0 <= Rec2020IntoLinear(pow, a) <= Rec2020IntoLinear(pow, b)
  {
    var e := Rec2020DecodeExponent;
    var qa := (a + Rec2020Alpha - 1.0) / Rec2020Alpha;
    var qb := (b + Rec2020Alpha - 1.0) / Rec2020Alpha;
    if a >= Rec2020EncodedBreak {
      assert Rec2020DecodeBaseAtBreak <= qa <= qb;
      assert pow(Rec2020DecodeBaseAtBreak, e) <= pow(qa, e);
      assert pow(qa, e) <= pow(qb, e);
    } else if b >= Rec2020EncodedBreak {
      assert Rec2020DecodeBaseAtBreak <= qb;
      assert pow(Rec2020DecodeBaseAtBreak, e) <= pow(qb, e);
    }
  }

  /** On non-negative inputs the ProPhoto encoder is non-negative and non-decreasing. */
  lemma ProPhotoFromLinearMagnitude(pow: PowFn, a: real, b: real)
    requires ProPhotoEncodeMonotonePow(pow) && 0.0 <= a <= b
    ensures 0.0 <= ProPhotoFromLinear(pow, a) <= ProPhotoFromLinear(pow, b)
  {
    var e := ProPhotoEncodeExponent;
    if a >= ProPhotoLinearBreak {
      assert pow(ProPhotoLinearBreak, e) <= pow(a, e);
    } else if b >= ProPhotoLinearBreak {
      assert pow(ProPhotoLinearBreak, e) <= pow(b, e);
    }
  }

  /** On non-negative inputs the ProPhoto decoder is non-negative and non-decreasing. */
  lemma ProPhotoIntoLinearMagnitude(pow: PowFn, a: real, b: real)
    requires ProPhotoDecodeMonotonePow(pow) && 0.0 <= a <= b
    ensures 0.0 <= ProPhotoIntoLinear(pow, a) <= ProPhotoIntoLinear(pow, b)
  {
    var e := ProPhotoDecodeExponent;
    if a >= ProPhotoEncodedBreak {
      assert pow(ProPhotoEncodedBreak, e) <= pow(a, e);
    } else if b >= ProPhotoEncodedBreak {
      assert pow(ProPhotoEncodedBreak, e) <= pow(b, e);
    }
  }

  /** The Rec.2020 encoder is non-decreasing on all reals, given the power function's monotonicity. */
  lemma Rec2020FromLinearMonotone(pow: PowFn, x: real, y: real)
    requires Rec2020EncodeMonotonePow(pow) && x <= y
    ensures Rec2020FromLinear(pow, x) <= Rec2020FromLinear(pow, y)
  {
    if 0.0 <= x {
      Rec2020FromLinearMagnitude(pow, x, y);
    } else {
      TransferFunctionsAreOdd(pow, -x);
      if y < 0.0 {
        Rec2020FromLinearMagnitude(pow, -y, -x);
        TransferFunctionsAreOdd(pow, -y);
      } else {
        Rec2020FromLinearMagnitude(pow, 0.0, -x);
        Rec2020FromLinearMagnitude(pow, 0.0, y);
      }
    }
  }

  /**
   * The Rec.2020 decoder is non-decreasing on all reals, given the power function's monotonicity
   * and its meeting the linear branch at the break (which the exact power function misses; see
   * Rec2020IntoLinearDropsAtBreak).
   */
  lemma Rec2020IntoLinearMonotone(pow: PowFn, x: real, y: real)
    requires Rec2020DecodeMonotonePow(pow) && x <= y
    ensures Rec2020IntoLinear(pow, x) <= Rec2020IntoLinear(pow, y)
  {
    if 0.0 <= x {
      Rec2020IntoLinearMagnitude(pow, x, y);
    } else {
      TransferFunctionsAreOdd(pow, -x);
      if y < 0.0 {
        Rec2020IntoLinearMagnitude(pow, -y, -x);
        TransferFunctionsAreOdd(pow, -y);
      } else {
        Rec2020IntoLinearMagnitude(pow, 0.0, -x);
        Rec2020IntoLinearMagnitude(pow, 0.0, y);
      }
    }
  }

  /**
   * With the decimal alpha and beta of the source, the exact power function evaluated at the
   * decoder's break falls short of beta by about 5.5e-16.  Any power function that falls short
   * there makes the decoder step down at the break: some encoded value just below the break
   * decodes to more than the break itself.
   */
  lemma Rec2020IntoLinearDropsAtBreak(pow: PowFn) returns (x: real)
    requires pow(Rec2020DecodeBaseAtBreak, Rec2020DecodeExponent) < Rec2020Beta
    ensures 0.0 <= x < Rec2020EncodedBreak
    ensures Rec2020IntoLinear(pow, x) > Rec2020IntoLinear(pow, Rec2020EncodedBreak)
  {
    var p := pow(Rec2020DecodeBaseAtBreak, Rec2020DecodeExponent);
    var m := if p < 0.0 then 0.0 else p;
    x := 4.5 * (m + Rec2020Beta) / 2.0;
    assert Rec2020IntoLinear(pow, x) == (m + Rec2020Beta) / 2.0;
    assert Rec2020IntoLinear(pow, Rec2020EncodedBreak) == p;
  }

  /** The ProPhoto encoder is non-decreasing on all reals, given the power function's monotonicity. */
  lemma ProPhotoFromLinearMonotone(pow: PowFn, x: real, y: real)
    requires ProPhotoEncodeMonotonePow(pow) && x <= y
    ensures ProPhotoFromLinear(pow, x) <= ProPhotoFromLinear(pow, y)
  {
    if 0.0 <= x {
      ProPhotoFromLinearMagnitude(pow, x, y);
    } else {
      TransferFunctionsAreOdd(pow, -x);
      if y < 0.0 {
        ProPhotoFromLinearMagnitude(pow, -y, -x);
        TransferFunctionsAreOdd(pow, -y);
      } else {
        ProPhotoFromLinearMagnitude(pow, 0.0, -x);
        ProPhotoFromLinearMagnitude(pow, 0.0, y);
      }
    }
  }

  /** The ProPhoto decoder is non-decreasing on all reals, given the power function's monotonicity. */
  lemma ProPhotoIntoLinearMonotone(pow: PowFn, x: real, y: real)
    requires ProPhotoDecodeMonotonePow(pow) && x <= y
    ensures ProPhotoIntoLinear(pow, x) <= ProPhotoIntoLinear(pow, y)
  {
    if 0.0 <= x {
      ProPhotoIntoLinearMagnitude(pow, x, y);
    } else {
      TransferFunctionsAreOdd(pow, -x);
      if y < 0.0 {
        ProPhotoIntoLinearMagnitude(pow, -y, -x);
        TransferFunctionsAreOdd(pow, -y);
      } else {
        ProPhotoIntoLinearMagnitude(pow, 0.0, -x);
        ProPhotoIntoLinearMagnitude(pow, 0.0, y);
      }
    }
  }
}

/** Conversions between degrees, minutes and seconds with a hemisphere letter and
    signed decimal degrees (GPSLib's ToDecimalDegree and the two inverse conversions
    for latitude and longitude), over exact reals. */
module Coordinates {

  /** The four hemisphere codes. Any other code reaching the converter is a
      programming error in the caller, not a decode failure. */
  predicate IsHemisphere(h: string)
  {
    h == "N" || h == "S" || h == "E" || h == "W"
  }

  /** South and west are the negative hemispheres. */
  predicate IsNegativeHemisphere(h: string)
  {
    h == "S" || h == "W"
  }

  function Sign(h: string): (r: real)
    requires IsHemisphere(h)
    ensures r == 1.0 || r == -1.0
    ensures r < 0.0 <==> IsNegativeHemisphere(h)
  {
    if IsNegativeHemisphere(h) then -1.0 else 1.0
  }

  function Abs(x: real): (r: real)
    ensures r >= 0.0 && (r == x || r == -x)
  {
    if x < 0.0 then -x else x
  }

  /** ToDecimalDegree(degrees, minutes, hemisphere): whole degrees plus decimal
      minutes, negated in the south and west. Values are not range-checked. */
  function ToDecimalDegree(degrees: int, minutes: real, hemisphere: string): (r: real)
    requires IsHemisphere(hemisphere)
    ensures Abs(r) == Abs(degrees as real + minutes / 60.0)
    ensures degrees as real + minutes / 60.0 > 0.0 ==> (r < 0.0 <==> IsNegativeHemisphere(hemisphere))
  {
    Sign(hemisphere) * (degrees as real + minutes / 60.0)
  }

  /** ToDecimalDegree(degrees, minutes, seconds, hemisphere): the three-argument form
      is the two-argument form with the seconds folded into the minutes. */
  function ToDecimalDegreeDms(degrees: int, minutes: int, seconds: int, hemisphere: string): (r: real)
    requires IsHemisphere(hemisphere)
    ensures r == ToDecimalDegree(degrees, minutes as real + seconds as real / 60.0, hemisphere)
    ensures r == Sign(hemisphere) * ((degrees * 3600 + minutes * 60 + seconds) as real / 3600.0)
  {
    Sign(hemisphere) * (degrees as real + minutes as real / 60.0 + seconds as real / 3600.0)
  }

  /** The library's tests: (79, 56.93172, W) is -79.948862, and (87, 43, 41, W) is
      -87.728056 to within the 0.01 % the test allows. */
  lemma ToDecimalDegreeExamples()
    ensures ToDecimalDegree(79, 56.93172, "W") == -79.948862
    ensures Abs(ToDecimalDegreeDms(87, 43, 41, "W") - -87.728056) <= 0.0001 * 87.728056
  {
  }

  /** Rounding to the nearest integer, halves upward. */
  function RoundHalfUp(x: real): (r: int)
    ensures x - 0.5 < r as real <= x + 0.5
  {
    (x + 0.5).Floor
  }

  /** What both inverse conversions return for `decimalDegrees`: the magnitude rounded
      to the nearest whole second, split into degrees, minutes below 60 and seconds
      below 60, with the hemisphere named by the sign. */
  predicate IsDmsOf(decimalDegrees: real, degrees: int, minutes: int, seconds: int, hemisphere: string,
                    positive: string, negative: string)
  {
    && 0 <= degrees && 0 <= minutes < 60 && 0 <= seconds < 60
    && hemisphere == (if decimalDegrees < 0.0 then negative else positive)
    && degrees * 3600 + minutes * 60 + seconds == RoundHalfUp(Abs(decimalDegrees) * 3600.0)
  }

  method ToDegreesMinutesSeconds(decimalDegrees: real, positive: string, negative: string)
    returns (degrees: int, minutes: int, seconds: int, hemisphere: string)
    ensures IsDmsOf(decimalDegrees, degrees, minutes, seconds, hemisphere, positive, negative)
  {
    var total := RoundHalfUp(Abs(decimalDegrees) * 3600.0);
    degrees := total / 3600;
    minutes := (total % 3600) / 60;
    seconds := (total % 3600) % 60;
    hemisphere := if decimalDegrees < 0.0 then negative else positive;
  }

  /** LatToDegreesMinutesSeconds: S for a negative latitude, N otherwise. */
  method LatToDegreesMinutesSeconds(decimalDegrees: real)
    returns (degrees: int, minutes: int, seconds: int, hemisphere: string)
    ensures IsDmsOf(decimalDegrees, degrees, minutes, seconds, hemisphere, "N", "S")
  {
    degrees, minutes, seconds, hemisphere := ToDegreesMinutesSeconds(decimalDegrees, "N", "S");
  }

  /** LonToDegreesMinutesSeconds: W for a negative longitude, E otherwise. */
  method LonToDegreesMinutesSeconds(decimalDegrees: real)
    returns (degrees: int, minutes: int, seconds: int, hemisphere: string)
    ensures IsDmsOf(decimalDegrees, degrees, minutes, seconds, hemisphere, "E", "W")
  {
    degrees, minutes, seconds, hemisphere := ToDegreesMinutesSeconds(decimalDegrees, "E", "W");
  }

  /** Converting an inverse conversion's result forward again lands within half a
      second of arc of where it started. */
  lemma ForwardOfInverse(decimalDegrees: real, degrees: int, minutes: int, seconds: int, hemisphere: string,
                         positive: string, negative: string)
    requires positive in {"N", "E"} && negative in {"S", "W"}
    requires IsDmsOf(decimalDegrees, degrees, minutes, seconds, hemisphere, positive, negative)
    ensures Abs(ToDecimalDegreeDms(degrees, minutes, seconds, hemisphere) - decimalDegrees) <= 1.0 / 7200.0
  {
    var total := degrees * 3600 + minutes * 60 + seconds;
    var magnitude := Abs(decimalDegrees);
    assert Abs(total as real - magnitude * 3600.0) <= 0.5;
    assert Abs(total as real / 3600.0 - magnitude) <= 1.0 / 7200.0;
  }

  /** A time in degrees, minutes and seconds below 60 has one representation. */
  lemma MixedRadixUnique(d: int, m: int, s: int, d': int, m': int, s': int)
    requires 0 <= m < 60 && 0 <= s < 60 && 0 <= m' < 60 && 0 <= s' < 60
    requires d * 3600 + m * 60 + s == d' * 3600 + m' * 60 + s'
    ensures d == d' && m == m' && s == s'
  {
    var a, a' := d * 60 + m, d' * 60 + m';
    assert a * 60 + s == a' * 60 + s';
    DivMod60(a * 60 + s, a, s);
    DivMod60(a' * 60 + s', a', s');
    DivMod60(a, d, m);
    DivMod60(a', d', m');
  }

  lemma DivMod60(n: int, q: int, r: int)
    requires 0 <= r < 60 && n == q * 60 + r
    ensures n / 60 == q && n % 60 == r
  {
  }

  /** The round-trip law: the inverse conversion of the forward conversion of a
      well-formed degrees/minutes/seconds triple recovers it, hemisphere included.
      Only a zero angle in S or W comes back as N or E. */
  lemma {:induction false} InverseOfForward(degrees: int, minutes: int, seconds: int, hemisphere: string,
                                            positive: string, negative: string,
                                            d: int, m: int, s: int, h: string)
    requires (positive, negative) == ("N", "S") || (positive, negative) == ("E", "W")
    requires hemisphere == positive || hemisphere == negative
    requires 0 <= degrees && 0 <= minutes < 60 && 0 <= seconds < 60
    requires hemisphere == negative ==> degrees * 3600 + minutes * 60 + seconds > 0
    requires IsDmsOf(ToDecimalDegreeDms(degrees, minutes, seconds, hemisphere), d, m, s, h, positive, negative)
    ensures (d, m, s, h) == (degrees, minutes, seconds, hemisphere)
  {
    var total := degrees * 3600 + minutes * 60 + seconds;
    var dd := ToDecimalDegreeDms(degrees, minutes, seconds, hemisphere);
    assert dd == Sign(hemisphere) * (total as real / 3600.0);
    assert Abs(dd) * 3600.0 == total as real;
    assert RoundHalfUp(total as real) == total;
    MixedRadixUnique(d, m, s, degrees, minutes, seconds);
  }

  /** The library's two round-trip tests: 87 43' 41" W as a longitude and
      87 43' 41" S as a latitude come back unchanged. */
  lemma RoundTripExamples(d: int, m: int, s: int, h: string, d': int, m': int, s': int, h': string)
    requires IsDmsOf(ToDecimalDegreeDms(87, 43, 41, "W"), d, m, s, h, "E", "W")
    requires IsDmsOf(ToDecimalDegreeDms(87, 43, 41, "S"), d', m', s', h', "N", "S")
    ensures (d, m, s, h) == (87, 43, 41, "W")
    ensures (d', m', s', h') == (87, 43, 41, "S")
  {
    InverseOfForward(87, 43, 41, "W", "E", "W", d, m, s, h);
    InverseOfForward(87, 43, 41, "S", "N", "S", d', m', s', h');
  }
}

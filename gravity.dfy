/** The sensor-to-gravity map of setGravityFromSensor, over the reals: the
    reading is mapped linearly from the sensor range to the gravity range,
    clamped, negated, and becomes the horizontal component of gravity. */
module Gravity {

  datatype Vec2 = Vec2(x: real, y: real)

  /** The configured ranges the map reads. */
  datatype Parameters = Parameters(sensorMin: real, sensorMax: real, gravityIntensity: real)

  /** openFrameworks' ofMap: the linear map sending inMin to outMin and inMax
      to outMax, clamped to the output range when asked (whichever way round
      that range is given); an empty input range yields outMin. */
  function OfMap(v: real, inMin: real, inMax: real, outMin: real, outMax: real, clamp: bool): (r: real)
    ensures clamp && outMin <= outMax ==> outMin <= r <= outMax
    ensures clamp && outMax < outMin ==> outMax <= r <= outMin
  {
    if inMin == inMax then
      outMin
    else
      var out := (v - inMin) / (inMax - inMin) * (outMax - outMin) + outMin;
      if !clamp then out
      else if outMax < outMin then
        (if out < outMax then outMax else if out > outMin then outMin else out)
      else
        (if out > outMax then outMax else if out < outMin then outMin else out)
  }

  /** The gravity vector for a sensor reading. */
  function GravityFromSensor(p: Parameters, reading: real): (g: Vec2)
    ensures g.y == 0.0
    ensures p.gravityIntensity >= 0.0 ==> -p.gravityIntensity <= g.x <= p.gravityIntensity
  {
    var direction := OfMap(reading, p.sensorMin, p.sensorMax, -p.gravityIntensity, p.gravityIntensity, true);
    Vec2(-direction, 0.0)
  }

  predicate WellFormed(p: Parameters)
  {
    p.sensorMin < p.sensorMax && p.gravityIntensity >= 0.0
  }

  /** Scaling both sides of an inequality by a non-negative factor. */
  lemma MulMono(a: real, b: real, k: real)
    requires a <= b && k >= 0.0
    ensures a * k <= b * k
  {
    assert b * k - a * k == (b - a) * k;
  }

  /** Dividing both sides of an inequality by a positive divisor. */
  lemma DivMono(a: real, b: real, d: real)
    requires a <= b && d > 0.0
    ensures a / d <= b / d
  {
    var q := b / d - a / d;
    assert q * d == b - a;
    if q < 0.0 {
      MulMono(q, 0.0, d);
      assert false;
    }
  }

  /** The clamped map stays in its output range, is ordered like its input,
      and is the unclamped linear map wherever that lies in range. */
  lemma OfMapClamped(v: real, inMin: real, inMax: real, outMin: real, outMax: real)
    requires inMin < inMax && outMin <= outMax
    ensures var r := OfMap(v, inMin, inMax, outMin, outMax, true);
      var lin := OfMap(v, inMin, inMax, outMin, outMax, false);
      && outMin <= r <= outMax
      && (outMin <= lin <= outMax ==> r == lin)
      && (v <= inMin ==> r == outMin)
      && (v >= inMax ==> r == outMax)
  {
    var d := inMax - inMin;
    var k := outMax - outMin;
    var t := (v - inMin) / d;
    assert OfMap(v, inMin, inMax, outMin, outMax, false) == t * k + outMin;
    if v <= inMin {
      DivMono(v - inMin, 0.0, d);
      MulMono(t, 0.0, k);
    }
    if v >= inMax {
      DivMono(d, v - inMin, d);
      assert d / d == 1.0;
      MulMono(1.0, t, k);
    }
  }

  /** The unclamped map is non-decreasing in its input. */
  lemma LinearMonotone(v: real, w: real, inMin: real, inMax: real, outMin: real, outMax: real)
    requires inMin < inMax && outMin <= outMax && v <= w
    ensures OfMap(v, inMin, inMax, outMin, outMax, false) <= OfMap(w, inMin, inMax, outMin, outMax, false)
  {
    var d := inMax - inMin;
    DivMono(v - inMin, w - inMin, d);
    MulMono((v - inMin) / d, (w - inMin) / d, outMax - outMin);
  }

  /** Gravity is horizontal, its x component lies in [-I, I], a reading at or
      below sensorMin gives +I and one at or above sensorMax gives -I. */
  lemma GravityInRange(p: Parameters, reading: real)
    requires WellFormed(p)
    ensures var g := GravityFromSensor(p, reading);
      && g.y == 0.0
      && -p.gravityIntensity <= g.x <= p.gravityIntensity
      && (reading <= p.sensorMin ==> g.x == p.gravityIntensity)
      && (reading >= p.sensorMax ==> g.x == -p.gravityIntensity)
  {
    OfMapClamped(reading, p.sensorMin, p.sensorMax, -p.gravityIntensity, p.gravityIntensity);
  }

  /** Inside the sensor range the x component falls linearly from +I to -I:
      it is I - 2 I t at the fraction t of the way from sensorMin to
      sensorMax. */
  lemma GravityLinearInside(p: Parameters, reading: real)
    requires WellFormed(p) && p.sensorMin <= reading <= p.sensorMax
    ensures var t := (reading - p.sensorMin) / (p.sensorMax - p.sensorMin);
      GravityFromSensor(p, reading).x == p.gravityIntensity - t * (2.0 * p.gravityIntensity)
  {
    var I := p.gravityIntensity;
    var t := (reading - p.sensorMin) / (p.sensorMax - p.sensorMin);
    FractionInUnit(reading - p.sensorMin, p.sensorMax - p.sensorMin);
    var k := I - (-I);
    assert k == 2.0 * I;
    var lin := OfMap(reading, p.sensorMin, p.sensorMax, -I, I, false);
    assert lin == t * k + -I;
    ScaleInRange(t, k);
    OfMapClamped(reading, p.sensorMin, p.sensorMax, -I, I);
  }

  lemma FractionInUnit(a: real, d: real)
    requires 0.0 <= a <= d && d > 0.0
    ensures 0.0 <= a / d <= 1.0
  {
    assert a / d * d == a;
  }

  lemma ScaleInRange(t: real, k: real)
    requires 0.0 <= t <= 1.0 && k >= 0.0
    ensures 0.0 <= t * k <= k
  {
    assert k - t * k == (1.0 - t) * k;
  }

  /** A larger reading never gives a larger x component. */
  lemma GravityNonIncreasing(p: Parameters, a: real, b: real)
    requires WellFormed(p) && a <= b
    ensures GravityFromSensor(p, b).x <= GravityFromSensor(p, a).x
  {
    var I := p.gravityIntensity;
    LinearMonotone(a, b, p.sensorMin, p.sensorMax, -I, I);
    OfMapClamped(a, p.sensorMin, p.sensorMax, -I, I);
    OfMapClamped(b, p.sensorMin, p.sensorMax, -I, I);
  }

  /** A sensor range of [0, 180] and intensity 2: the ends of the range and
      readings beyond either end. */
  lemma GravityExampleEnds(reading: real)
    ensures var p := Parameters(0.0, 180.0, 2.0);
      && GravityFromSensor(p, 0.0).x == 2.0
      && GravityFromSensor(p, 180.0).x == -2.0
      && (reading < 0.0 ==> GravityFromSensor(p, reading).x == 2.0)
      && (reading > 180.0 ==> GravityFromSensor(p, reading).x == -2.0)
  {
    var p := Parameters(0.0, 180.0, 2.0);
    GravityInRange(p, 0.0);
    GravityInRange(p, 180.0);
    GravityInRange(p, reading);
  }

  /** With the same parameters the middle reading 90 gives no gravity. */
  lemma GravityExampleMiddle()
    ensures GravityFromSensor(Parameters(0.0, 180.0, 2.0), 90.0).x == 0.0
  {
    assert (90.0 - 0.0) / (180.0 - 0.0) == 0.5;
  }
}

/**
  The colour ramp: a parameter clamped to [0, 1] picks an RGBA colour on a
  straight line from a cool blue (t = 0) to a warm red (t = 1), with a fixed
  alpha.
 */
module Color {

  const Alpha: int := 190

  /** `max(0.0, min(1.0, t))`. */
  function Clamp(t: real): (c: real)
    ensures 0.0 <= c <= 1.0
    ensures 0.0 <= t <= 1.0 ==> c == t
    ensures t < 0.0 ==> c == 0.0
    ensures t > 1.0 ==> c == 1.0
  {
    var upper := if t < 1.0 then t else 1.0;
    if 0.0 < upper then upper else 0.0
  }

  /** Python's `int(x)` on a real: truncation toward zero. */
  function Trunc(x: real): (n: int)
    ensures 0.0 <= x ==> 0 <= n && n as real <= x < n as real + 1.0
    ensures x < 0.0 ==> n <= 0 && n as real - 1.0 < x <= n as real
  {
    if x >= 0.0 then x.Floor else -((-x).Floor)
  }

  /** `make_color`: red grows from 40 to 240, green falls from 150 to 90 and
      blue from 220 to 70 as the clamped parameter goes from 0 to 1. */
  function MakeColor(normT: real): (rgba: seq<int>)
    ensures |rgba| == 4
    ensures 40 <= rgba[0] <= 240 && 90 <= rgba[1] <= 150 && 70 <= rgba[2] <= 220
    ensures rgba[3] == Alpha
  {
    var t := Clamp(normT);
    [Trunc(40.0 + 200.0 * t), Trunc(90.0 + 60.0 * (1.0 - t)), Trunc(220.0 - 150.0 * t), Alpha]
  }

  /** Truncation is monotone on non-negative reals. */
  lemma TruncMonotone(x: real, y: real)
    requires 0.0 <= x <= y
    ensures Trunc(x) <= Trunc(y)
  {
  }

  /** As the parameter grows, red never falls and green and blue never rise. */
  lemma MakeColorMonotone(s: real, t: real)
    requires s <= t
    ensures MakeColor(s)[0] <= MakeColor(t)[0]
    ensures MakeColor(s)[1] >= MakeColor(t)[1]
    ensures MakeColor(s)[2] >= MakeColor(t)[2]
  {
    var cs, ct := Clamp(s), Clamp(t);
    assert cs <= ct;
    TruncMonotone(40.0 + 200.0 * cs, 40.0 + 200.0 * ct);
    TruncMonotone(90.0 + 60.0 * (1.0 - ct), 90.0 + 60.0 * (1.0 - cs));
    TruncMonotone(220.0 - 150.0 * ct, 220.0 - 150.0 * cs);
  }

  /** Parameters outside [0, 1] give the colour of the nearest end. */
  lemma MakeColorClamps(t: real)
    ensures MakeColor(t) == MakeColor(Clamp(t))
    ensures t <= 0.0 ==> MakeColor(t) == [40, 150, 220, Alpha]
    ensures t >= 1.0 ==> MakeColor(t) == [240, 90, 70, Alpha]
  {
  }
}

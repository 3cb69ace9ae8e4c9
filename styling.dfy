/**
  Styling of one earthquake marker: the circle radius derived from the
  magnitude and the fill colour derived from the depth in kilometres
  (Leaflet-Part-1/static/js/logic.js, markerSize and chooseColor).
  Magnitude and depth are exact reals; the floating-point rounding of the
  browser is not modelled.
*/
module Styling {

  /** Fixed factor from magnitude to circle radius (metres on the map). */
  const ScaleFactor: real := 20000.0

  /** markerSize: the radius of an earthquake's circle. No clamping: a zero
      magnitude gives a zero radius and a negative one a negative radius. */
  function MarkerSize(magnitude: real): (radius: real)
    ensures radius > 0.0 <==> magnitude > 0.0
    ensures radius == 0.0 <==> magnitude == 0.0
    ensures radius < 0.0 <==> magnitude < 0.0
  {
    magnitude * ScaleFactor
  }

  /** The inverse of MarkerSize: the magnitude a given radius stands for. */
  function MagnitudeOfRadius(radius: real): (magnitude: real)
    ensures MarkerSize(magnitude) == radius
  {
    radius / ScaleFactor
  }

  /** Round trip: the radius determines the magnitude. */
  lemma MarkerSizeRoundTrip(magnitude: real)
    ensures MagnitudeOfRadius(MarkerSize(magnitude)) == magnitude
  {
  }

  /** The radius is proportional to the magnitude with the one fixed factor:
      every radius is the magnitude times the radius of magnitude 1. */
  lemma MarkerSizeProportional(magnitude: real)
    ensures MarkerSize(1.0) == 20000.0
    ensures MarkerSize(magnitude) == magnitude * MarkerSize(1.0)
  {
  }

  /** A stronger quake always draws a strictly larger circle. */
  lemma MarkerSizeStrictlyIncreasing(m1: real, m2: real)
    requires m1 < m2
    ensures MarkerSize(m1) < MarkerSize(m2)
  {
  }

  /** Worked values: magnitude 5 gives radius 100000, magnitude 0 gives 0 and
      magnitude -1 gives -20000. */
  lemma MarkerSizeExamples()
    ensures MarkerSize(5.0) == 100000.0
    ensures MarkerSize(0.0) == 0.0
    ensures MarkerSize(-1.0) == -20000.0
  {
  }

  /** The six fill colours of the depth bands, from shallowest to deepest. */
  datatype Colour = Green | LightGreen | Yellow | Orange | OrangeRed | Red
  {
    /** The hex colour code the page uses for this colour. */
    function Hex(): string
    {
      match this
      case Green => "#98ee00"
      case LightGreen => "#d4ee00"
      case Yellow => "#eecc00"
      case Orange => "#ee9c00"
      case OrangeRed => "#ea822c"
      case Red => "#ea2c2c"
    }

    /** Position in the green-to-red gradient: Green is 0, Red is 5. */
    function Band(): (k: nat)
      ensures k < 6
    {
      match this
      case Green => 0
      case LightGreen => 1
      case Yellow => 2
      case Orange => 3
      case OrangeRed => 4
      case Red => 5
    }
  }

  /** The colour at a given position of the gradient (the inverse of Band). */
  function BandColour(k: nat): (c: Colour)
    requires k < 6
    ensures c.Band() == k
  {
    [Green, LightGreen, Yellow, Orange, OrangeRed, Red][k]
  }

  /** The six codes are pairwise distinct, so a code names exactly one colour. */
  lemma HexInjective(a: Colour, b: Colour)
    requires a.Hex() == b.Hex()
    ensures a == b
  {
  }

  /** The depth thresholds of chooseColor, in ascending order. */
  const Thresholds: seq<real> := [10.0, 30.0, 50.0, 70.0, 90.0]

  /** chooseColor: a descending ladder of strict comparisons; the first
      threshold the depth exceeds decides, and anything else is green. The
      colour is the band whose index is the number of thresholds the depth
      strictly exceeds. */
  function ChooseColor(depth: real): (c: Colour)
    ensures c == BandColour(CountBelow(Thresholds, depth))
  {
    var t0 := Thresholds;
    var t1, t2, t3, t4 := t0[1..], t0[2..], t0[3..], t0[4..];
    assert t1[1..] == t2 && t2[1..] == t3 && t3[1..] == t4 && t4[1..] == [];
    assert CountBelow(t4, depth) == (if depth > 90.0 then 1 else 0);
    assert CountBelow(t3, depth) == (if depth > 70.0 then 1 else 0) + CountBelow(t4, depth);
    assert CountBelow(t2, depth) == (if depth > 50.0 then 1 else 0) + CountBelow(t3, depth);
    assert CountBelow(t1, depth) == (if depth > 30.0 then 1 else 0) + CountBelow(t2, depth);
    assert CountBelow(t0, depth) == (if depth > 10.0 then 1 else 0) + CountBelow(t1, depth);
    if depth > 90.0 then Red
    else if depth > 70.0 then OrangeRed
    else if depth > 50.0 then Orange
    else if depth > 30.0 then Yellow
    else if depth > 10.0 then LightGreen
    else Green
  }

  /** The number of thresholds of ts that depth strictly exceeds. */
  function CountBelow(ts: seq<real>, depth: real): (n: nat)
    ensures n <= |ts|
  {
    if ts == [] then 0
    else (if depth > ts[0] then 1 else 0) + CountBelow(ts[1..], depth)
  }

  /** Crossing thresholds is monotone in the depth. */
  lemma {:induction false} CountBelowMonotone(ts: seq<real>, d1: real, d2: real)
    requires d1 <= d2
    ensures CountBelow(ts, d1) <= CountBelow(ts, d2)
  {
    if ts != [] {
      CountBelowMonotone(ts[1..], d1, d2);
    }
  }

  /** Totality: every real depth, negative ones included, gets one of exactly
      six colour codes. */
  lemma ChooseColorTotal(depth: real)
    ensures ChooseColor(depth).Hex() in
      {"#ea2c2c", "#ea822c", "#ee9c00", "#eecc00", "#d4ee00", "#98ee00"}
  {
  }

  /** Each colour is chosen for exactly one half-open depth interval; both
      directions of each equivalence hold. */
  lemma ChooseColorBands(depth: real)
    ensures ChooseColor(depth) == Red <==> depth > 90.0
    ensures ChooseColor(depth) == OrangeRed <==> 70.0 < depth <= 90.0
    ensures ChooseColor(depth) == Orange <==> 50.0 < depth <= 70.0
    ensures ChooseColor(depth) == Yellow <==> 30.0 < depth <= 50.0
    ensures ChooseColor(depth) == LightGreen <==> 10.0 < depth <= 30.0
    ensures ChooseColor(depth) == Green <==> depth <= 10.0
  {
  }

  /** Boundaries are strict: a depth equal to a threshold falls to the band
      below it. */
  lemma ChooseColorBoundaries()
    ensures ChooseColor(90.0).Hex() == "#ea822c"
    ensures ChooseColor(70.0).Hex() == "#ee9c00"
    ensures ChooseColor(50.0).Hex() == "#eecc00"
    ensures ChooseColor(30.0).Hex() == "#d4ee00"
    ensures ChooseColor(10.0).Hex() == "#98ee00"
    ensures ChooseColor(95.0).Hex() == "#ea2c2c"
    ensures ChooseColor(-5.0).Hex() == "#98ee00"
  {
  }

  /** Monotonicity: a deeper quake is never shown in a colour nearer the
      green end of the gradient than a shallower one. */
  lemma ChooseColorMonotone(d1: real, d2: real)
    requires d1 <= d2
    ensures ChooseColor(d1).Band() <= ChooseColor(d2).Band()
  {
    CountBelowMonotone(Thresholds, d1, d2);
  }
}

/**
 * The non-trigonometric half of `cartographic_to_cartesian`, which every
 * tile writer repeats: the int16 "cartographic" columns (lon and lat scaled
 * to ±32767 per 180 degrees, altitude in decametres), the quantisation of
 * already-projected Earth-centred coordinates to uint16 against a per-axis
 * offset (the minimum) and scale (the extent), and the bounding region.
 * Coordinates are reals; float64 rounding is not modelled.
 */
module Geo {
  import opened Wrappers

  /** `np.pi` is the double 884279719003555 / 2^48. */
  const PI: real := 884279719003555.0 / 281474976710656.0

  /** `x * to_rad` with `to_rad = np.pi / 180`; the literal is 180 * 2^48. */
  function Rad(x: real): real {
    x * 884279719003555.0 / 50665495807918080.0
  }

  lemma RadMono(x: real, y: real)
    requires x <= y
    ensures Rad(x) <= Rad(y)
  {
  }

  datatype Triple = Triple(a: int, b: int, c: int)
  datatype Vec3 = Vec3(x: real, y: real, z: real)

  // -------------------------------------------------------------------
  // Extremes (`np.min` / `np.max`, which raise on an empty array)
  // -------------------------------------------------------------------

  function MinOf(xs: seq<real>): (r: Result<real>)
    ensures r.Ok? <==> |xs| > 0
    ensures r.Ok? ==> r.value in xs && forall i :: 0 <= i < |xs| ==> r.value <= xs[i]
  {
    if |xs| == 0 then Err(EmptyArray)
    else if |xs| == 1 then Ok(xs[0])
    else
      var m := MinOf(xs[1..]).value;
      Ok(if xs[0] <= m then xs[0] else m)
  }

  function MaxOf(xs: seq<real>): (r: Result<real>)
    ensures r.Ok? <==> |xs| > 0
    ensures r.Ok? ==> r.value in xs && forall i :: 0 <= i < |xs| ==> xs[i] <= r.value
  {
    if |xs| == 0 then Err(EmptyArray)
    else if |xs| == 1 then Ok(xs[0])
    else
      var m := MaxOf(xs[1..]).value;
      Ok(if xs[0] >= m then xs[0] else m)
  }

  // -------------------------------------------------------------------
  // Casts
  // -------------------------------------------------------------------

  /** `astype(int)` of a float: truncation toward zero. */
  function Trunc(r: real): (t: int)
    ensures r >= 0.0 ==> t as real <= r < t as real + 1.0
    ensures r < 0.0 ==> t as real - 1.0 < r <= t as real
  {
    if r >= 0.0 then r.Floor else -((-r).Floor)
  }

  /** Keeps the low 16 bits of an integer as a signed value (`astype(np.int16)`). */
  function WrapI16(v: int): (w: int)
    ensures -0x8000 <= w < 0x8000
    ensures (w - v) % 0x1_0000 == 0
    ensures -0x8000 <= v < 0x8000 ==> w == v
  {
    var u := v % 0x1_0000;
    if u < 0x8000 then u else u - 0x1_0000
  }

  // -------------------------------------------------------------------
  // Cartographic int16 columns
  // -------------------------------------------------------------------

  /** One row of the int16 `cartographic` array: lon, lat scaled and alt / 10. */
  function Cartographic(lon: real, lat: real, alt: real): Triple {
    Triple(WrapI16(Trunc(lon * 32767.0 / 180.0)),
           WrapI16(Trunc(lat * 32767.0 / 180.0)),
           WrapI16(Trunc(alt / 10.0)))
  }

  /**
   * For coordinates on the globe and altitudes below 327 km, no component
   * wraps, and scaling the stored integers back recovers each coordinate to
   * within one quantum (180/32767 degrees, 10 metres), rounded toward zero.
   */
  lemma CartographicRecovers(lon: real, lat: real, alt: real)
    requires -180.0 <= lon <= 180.0 && -90.0 <= lat <= 90.0
    requires -327670.0 < alt < 327670.0
    ensures var t := Cartographic(lon, lat, alt);
            Near(t.a as real * 180.0 / 32767.0, lon, 180.0 / 32767.0)
            && Near(t.b as real * 180.0 / 32767.0, lat, 180.0 / 32767.0)
            && Near(t.c as real * 10.0, alt, 10.0)
  {
    var qa := Trunc(lon * 32767.0 / 180.0);
    var qb := Trunc(lat * 32767.0 / 180.0);
    var qc := Trunc(alt / 10.0);
    assert -32767 <= qa <= 32767;
    assert -16384 <= qb <= 16384;
    assert -32767 <= qc <= 32767;
  }

  /** `approx` is within `eps` of `exact`, on the side of zero. */
  predicate Near(approx: real, exact: real, eps: real) {
    if exact >= 0.0 then approx <= exact < approx + eps
    else approx - eps < exact <= approx
  }

  // -------------------------------------------------------------------
  // Quantised positions
  // -------------------------------------------------------------------

  /**
   * `(x / scale * 65535.0).astype(np.uint16)` for a shifted coordinate
   * `x >= 0`. A zero scale divides 0 by 0; numpy casts that NaN to 0, which
   * is the value the model gives.
   */
  function QuantizeValue(shifted: real, scale: real): (q: int)
    requires 0.0 <= shifted <= scale
    ensures 0 <= q <= 65535
    ensures scale > 0.0 ==> q as real * scale <= shifted * 65535.0 < (q as real + 1.0) * scale
    ensures scale > 0.0 && shifted == scale ==> q == 65535
  {
    if scale == 0.0 then 0
    else
      var u := shifted * 65535.0;
      var v := u / scale;
      DivMul(u, scale);
      assert v * scale == u;
      assert 0.0 <= v <= 65535.0 by {
        if v > 65535.0 { MulLt(65535.0, v, scale); }
        if v < 0.0 { MulLt(v, 0.0, scale); }
      }
      var q := v.Floor;
      var hi := q as real + 1.0;
      MulLe(q as real, v, scale);
      MulLt(v, hi, scale);
      assert q as real * scale <= v * scale;
      assert v * scale < hi * scale;
      assert shifted == scale ==> v == 65535.0 by {
        if shifted == scale && v < 65535.0 { MulLt(v, 65535.0, scale); }
      }
      q
  }

  lemma DivMul(a: real, b: real)
    requires b > 0.0
    ensures a / b * b == a
  {
  }

  lemma MulLe(a: real, b: real, c: real)
    requires a <= b && c >= 0.0
    ensures a * c <= b * c
  {
    assert b * c - a * c == (b - a) * c;
  }

  lemma MulLt(a: real, b: real, c: real)
    requires a < b && c > 0.0
    ensures a * c < b * c
  {
    assert b * c - a * c == (b - a) * c;
  }

  /** One axis of the quantiser: offset, scale and the uint16 column. */
  datatype Axis = Axis(offset: real, scale: real, q: seq<int>)

  function QuantizeAxis(xs: seq<real>): (r: Result<Axis>)
    ensures r.Ok? <==> |xs| > 0
    ensures r.Ok? ==> r.value.offset in xs && r.value.offset + r.value.scale in xs
    ensures r.Ok? ==> |r.value.q| == |xs| && r.value.scale >= 0.0
    ensures r.Ok? ==> forall i :: 0 <= i < |xs| ==>
              r.value.offset <= xs[i] <= r.value.offset + r.value.scale
              && r.value.q[i] == QuantizeValue(xs[i] - r.value.offset, r.value.scale)
  {
    if |xs| == 0 then Err(EmptyArray)
    else
      var lo := MinOf(xs).value;
      var hi := MaxOf(xs).value;
      var scale := hi - lo;
      Ok(Axis(lo, scale, seq(|xs|, i requires 0 <= i < |xs| => QuantizeValue(xs[i] - lo, scale))))
  }

  /** The position a uint16 code stands for on an axis: `offset + q * scale / 65535`. */
  function Dequantize(offset: real, q: int, scale: real): real {
    offset + q as real * scale / 65535.0
  }

  /** Code `q` decodes to within one step below `x`: `x` lies in `[Dequantize(q), Dequantize(q + 1))`. */
  predicate DecodesTo(offset: real, q: int, scale: real, x: real) {
    Dequantize(offset, q, scale) <= x < Dequantize(offset, q + 1, scale)
  }

  /**
   * Dequantising a coordinate with the axis offset and scale gives it back
   * to within one step of `scale / 65535`, from below. With
   * `QuantizeAxis`'s contract this bounds every decoded position.
   */
  lemma DequantizeBound(offset: real, x: real, scale: real)
    requires offset <= x <= offset + scale && scale > 0.0
    ensures var q := QuantizeValue(x - offset, scale) as real;
            offset + q * scale / 65535.0 <= x < offset + (q + 1.0) * scale / 65535.0
  {
    var d := x - offset;
    var qv := QuantizeValue(d, scale) as real;
    var lo := qv * scale;
    var hi := (qv + 1.0) * scale;
    assert lo <= d * 65535.0 < hi;
    assert lo / 65535.0 <= d < hi / 65535.0;
  }

  /** The quantiser keeps the order of coordinates on an axis. */
  lemma QuantizeMonotone(s1: real, s2: real, scale: real)
    requires 0.0 <= s1 <= s2 <= scale
    ensures QuantizeValue(s1, scale) <= QuantizeValue(s2, scale)
  {
    if scale > 0.0 {
      var v1 := s1 * 65535.0 / scale;
      var v2 := s2 * 65535.0 / scale;
      DivMono(s1 * 65535.0, s2 * 65535.0, scale);
      assert QuantizeValue(s1, scale) == v1.Floor;
      assert QuantizeValue(s2, scale) == v2.Floor;
    }
  }

  lemma DivMono(a: real, b: real, c: real)
    requires a <= b && c > 0.0
    ensures a / c <= b / c
  {
    DivMul(a, c);
    DivMul(b, c);
  }

  /** The three axes of the quantiser: cartesian rows, offset and scale. */
  datatype Quantized = Quantized(cartesian: seq<Triple>, offset: Vec3, scale: Vec3)

  function Xs(ps: seq<Vec3>): seq<real> { seq(|ps|, i requires 0 <= i < |ps| => ps[i].x) }
  function Ys(ps: seq<Vec3>): seq<real> { seq(|ps|, i requires 0 <= i < |ps| => ps[i].y) }
  function Zs(ps: seq<Vec3>): seq<real> { seq(|ps|, i requires 0 <= i < |ps| => ps[i].z) }

  function Quantize(ps: seq<Vec3>): (r: Result<Quantized>)
    ensures r.Ok? <==> |ps| > 0
    ensures r.Ok? ==> |r.value.cartesian| == |ps|
    ensures r.Ok? ==> forall i :: 0 <= i < |ps| ==>
              var t := r.value.cartesian[i];
              0 <= t.a <= 65535 && 0 <= t.b <= 65535 && 0 <= t.c <= 65535
    ensures r.Ok? ==> var ax, ay, az := QuantizeAxis(Xs(ps)).value, QuantizeAxis(Ys(ps)).value, QuantizeAxis(Zs(ps)).value;
              r.value.offset == Vec3(ax.offset, ay.offset, az.offset)
              && r.value.scale == Vec3(ax.scale, ay.scale, az.scale)
              && forall i :: 0 <= i < |ps| ==> r.value.cartesian[i] == Triple(ax.q[i], ay.q[i], az.q[i])
  {
    if |ps| == 0 then Err(EmptyArray)
    else
      var ax := QuantizeAxis(Xs(ps)).value;
      var ay := QuantizeAxis(Ys(ps)).value;
      var az := QuantizeAxis(Zs(ps)).value;
      Ok(Quantized(
        seq(|ps|, i requires 0 <= i < |ps| => Triple(ax.q[i], ay.q[i], az.q[i])),
        Vec3(ax.offset, ay.offset, az.offset),
        Vec3(ax.scale, ay.scale, az.scale)))
  }

  /**
   * Decoding a point's code with its axis's offset and scale gives the
   * coordinate back to within one step of `scale / 65535`, from below, on
   * every axis whose extent is not zero.
   */
  lemma QuantizeDecodes(ps: seq<Vec3>, i: nat)
    requires i < |ps|
    ensures var q := Quantize(ps).value;
            var t, o, s := q.cartesian[i], q.offset, q.scale;
            (s.x > 0.0 ==> DecodesTo(o.x, t.a, s.x, ps[i].x))
            && (s.y > 0.0 ==> DecodesTo(o.y, t.b, s.y, ps[i].y))
            && (s.z > 0.0 ==> DecodesTo(o.z, t.c, s.z, ps[i].z))
  {
    var q := Quantize(ps).value;
    var t, o, s := q.cartesian[i], q.offset, q.scale;
    assert Xs(ps)[i] == ps[i].x && Ys(ps)[i] == ps[i].y && Zs(ps)[i] == ps[i].z;
    AxisDecodes(Xs(ps), i, o.x, s.x, t.a, ps[i].x);
    AxisDecodes(Ys(ps), i, o.y, s.y, t.b, ps[i].y);
    AxisDecodes(Zs(ps), i, o.z, s.z, t.c, ps[i].z);
  }

  /** One axis of `QuantizeDecodes`: `x` is `xs[i]`, and `offset`, `scale`, `code` are what the axis made of it. */
  lemma AxisDecodes(xs: seq<real>, i: nat, offset: real, scale: real, code: int, x: real)
    requires i < |xs| && x == xs[i]
    requires var a := QuantizeAxis(xs).value; offset == a.offset && scale == a.scale && code == a.q[i]
    ensures scale > 0.0 ==> DecodesTo(offset, code, scale, x)
  {
    AxisAt(xs, i);
    if scale > 0.0 { DecodeCode(offset, x, scale, code); }
  }

  /** The per-point part of `QuantizeAxis`'s contract, at one index. */
  lemma AxisAt(xs: seq<real>, i: nat)
    requires i < |xs|
    ensures var a := QuantizeAxis(xs).value;
            a.offset <= xs[i] <= a.offset + a.scale && a.q[i] == QuantizeValue(xs[i] - a.offset, a.scale)
  {
  }

  /** `DequantizeBound` for a code given by name. */
  lemma DecodeCode(offset: real, x: real, scale: real, q: int)
    requires offset <= x <= offset + scale && scale > 0.0 && q == QuantizeValue(x - offset, scale)
    ensures DecodesTo(offset, q, scale, x)
  {
    DequantizeBound(offset, x, scale);
  }

  // -------------------------------------------------------------------
  // Regions
  // -------------------------------------------------------------------

  /** `regionrad`: degrees to radians, element by element. */
  function RegionRad(region: seq<real>): (r: seq<real>)
    ensures |r| == |region|
  {
    seq(|region|, i requires 0 <= i < |region| => Rad(region[i]))
  }

  function RegionDeg(region: seq<real>): (r: seq<real>)
    ensures |r| == |region|
  {
    seq(|region|, i requires 0 <= i < |region| => region[i] * 50665495807918080.0 / 884279719003555.0)
  }

  /** Converting back to degrees restores the region exactly. */
  lemma RegionRadInverse(region: seq<real>)
    ensures RegionDeg(RegionRad(region)) == region
  {
  }

  /** The tile region: lon/lat extremes in radians, altitude extremes unchanged. */
  function Region(lon: seq<real>, lat: seq<real>, alt: seq<real>): (r: Result<seq<real>>)
    requires |lon| == |lat| == |alt|
    ensures r.Ok? <==> |lon| > 0
    ensures r.Ok? ==> |r.value| == 6
    ensures r.Ok? ==> forall i :: 0 <= i < |lon| ==>
              r.value[0] <= Rad(lon[i]) <= r.value[2]
              && r.value[1] <= Rad(lat[i]) <= r.value[3]
              && r.value[4] <= alt[i] <= r.value[5]
    ensures r.Ok? ==> ((exists i :: 0 <= i < |lon| && r.value[0] == Rad(lon[i]))
                       && (exists i :: 0 <= i < |lon| && r.value[1] == Rad(lat[i]))
                       && (exists i :: 0 <= i < |lon| && r.value[2] == Rad(lon[i]))
                       && (exists i :: 0 <= i < |lon| && r.value[3] == Rad(lat[i]))
                       && (exists i :: 0 <= i < |lon| && r.value[4] == alt[i])
                       && (exists i :: 0 <= i < |lon| && r.value[5] == alt[i]))
  {
    if |lon| == 0 then Err(EmptyArray)
    else
      Ok([Rad(MinOf(lon).value), Rad(MinOf(lat).value), Rad(MaxOf(lon).value), Rad(MaxOf(lat).value),
          MinOf(alt).value, MaxOf(alt).value])
  }
}

/**
 * The colour encoders. Radar reflectivity (dBZ) and lidar backscatter
 * (ATB) pick a band by testing every half-open interval `(lo, hi]` in turn;
 * lightning sources pick one of eleven fixed colours by altitude. A value
 * that falls in no band keeps the all-zero colour. The dBZ colour rows
 * come from a matplotlib colour map, so the model stops at the band index.
 */
module Colors {
  import opened Wrappers
  import opened Floats
  import opened Geo

  // -------------------------------------------------------------------
  // Unit-width bands (reflectivity)
  // -------------------------------------------------------------------

  /** `x` lies in band `i` of the unit bands above `bot`: `bot + i < x <= bot + i + 1`. */
  predicate InUnitBand(x: real, bot: real, i: int) {
    bot + i as real < x <= bot + i as real + 1.0
  }

  /** The encoder's loop over bands `0 .. k-1`: each matching band overwrites the colour. */
  function LoopBand(x: real, bot: real, k: nat): Option<nat> {
    if k == 0 then None
    else if InUnitBand(x, bot, k - 1) then Some(k - 1)
    else LoopBand(x, bot, k - 1)
  }

  /** The band of `x` among the first `n` unit bands above `bot`, found arithmetically. */
  function UnitBand(x: real, bot: real, n: nat): (b: Option<nat>)
    ensures b.Some? ==> b.value < n && InUnitBand(x, bot, b.value)
    ensures b.None? ==> forall i :: 0 <= i < n ==> !InUnitBand(x, bot, i)
  {
    if bot < x <= bot + n as real then
      var y := x - bot;
      var i := if y.Floor as real == y then y.Floor - 1 else y.Floor;
      Some(i)
    else None
  }

  /** Unit bands do not overlap. */
  lemma UnitBandsDisjoint(x: real, bot: real, i: int, j: int)
    requires InUnitBand(x, bot, i) && InUnitBand(x, bot, j)
    ensures i == j
  {
  }

  /** The loop finds exactly the one band `x` belongs to, or none. */
  lemma {:induction false} LoopBandIsBand(x: real, bot: real, n: nat)
    ensures LoopBand(x, bot, n) == UnitBand(x, bot, n)
  {
    if n > 0 {
      LoopBandIsBand(x, bot, n - 1);
      var u := UnitBand(x, bot, n);
      if InUnitBand(x, bot, n - 1) {
        if u.Some? { UnitBandsDisjoint(x, bot, u.value, n - 1); }
      } else if u.Some? {
        assert u.value < n - 1;
        var v := UnitBand(x, bot, n - 1);
        if v.Some? { UnitBandsDisjoint(x, bot, u.value, v.value); }
      }
    }
  }

  // -------------------------------------------------------------------
  // Reflectivity (dBZ)
  // -------------------------------------------------------------------

  const DBZ_TOP: real := 50.0
  const DBZ_BOT: real := -25.0
  /** `int((vtop - vbot) / vint)` with `vint = 1`. */
  const DBZ_LEVELS: nat := 75

  /** The clamp as written: `>= 50` becomes `50.0001`, `<= -25` becomes `-25.0001`; NaN compares false. */
  function DbzClampAsWritten(v: F64): F64 {
    match v
    case Num(x) => if x >= DBZ_TOP then Num(DBZ_TOP + 0.0001) else if x <= DBZ_BOT then Num(DBZ_BOT - 0.0001) else v
    case Inf(negative) => if negative then Num(DBZ_BOT - 0.0001) else Num(DBZ_TOP + 0.0001)
    case NaN => NaN
  }

  /** `color_encodeDBZ` as written: the band of the clamped value, if any. */
  function DbzBandAsWritten(v: F64): Option<nat> {
    match DbzClampAsWritten(v)
    case Num(x) => LoopBand(x, DBZ_BOT, DBZ_LEVELS)
    case _ => None
  }

  /** As written, every reflectivity of 50 dBZ or more gets the all-zero (invisible) colour. */
  lemma DbzAsWrittenHidesTop(x: real)
    requires x >= DBZ_TOP
    ensures DbzBandAsWritten(Num(x)) == None
  {
    LoopBandIsBand(DBZ_TOP + 0.0001, DBZ_BOT, DBZ_LEVELS);
  }

  /** The clamp as evidently intended: the top saturates into the top band's upper edge. */
  function DbzClamp(v: F64): F64 {
    match v
    case Num(x) => if x >= DBZ_TOP then Num(DBZ_TOP) else if x <= DBZ_BOT then Num(DBZ_BOT - 0.0001) else v
    case Inf(negative) => if negative then Num(DBZ_BOT - 0.0001) else Num(DBZ_TOP)
    case NaN => NaN
  }

  /** The corrected encoder's band. */
  function DbzBand(v: F64): Option<nat> {
    match DbzClamp(v)
    case Num(x) => LoopBand(x, DBZ_BOT, DBZ_LEVELS)
    case _ => None
  }

  /**
   * The corrected encoder colours every reflectivity above -25 dBZ: the
   * value's own unit band below 50, the top band from 50 up; at or below
   * -25 and NaN stay invisible. Below 50 it agrees with the code as written.
   */
  lemma DbzBandExact(x: real)
    ensures DbzBand(Num(x)).Some? <==> x > DBZ_BOT
    ensures x >= DBZ_TOP ==> DbzBand(Num(x)) == Some(DBZ_LEVELS - 1)
    ensures DBZ_BOT < x < DBZ_TOP ==> DbzBand(Num(x)).Some? && InUnitBand(x, DBZ_BOT, DbzBand(Num(x)).value)
    ensures x < DBZ_TOP ==> DbzBand(Num(x)) == DbzBandAsWritten(Num(x))
  {
    LoopBandIsBand(x, DBZ_BOT, DBZ_LEVELS);
    LoopBandIsBand(DBZ_TOP, DBZ_BOT, DBZ_LEVELS);
    LoopBandIsBand(DBZ_BOT - 0.0001, DBZ_BOT, DBZ_LEVELS);
  }

  /** Stronger echoes never get a lower band. */
  lemma DbzBandMonotone(a: real, b: real)
    requires DBZ_BOT < a <= b
    ensures DbzBand(Num(a)).Some? && DbzBand(Num(b)).Some? && DbzBand(Num(a)).value <= DbzBand(Num(b)).value
  {
    DbzBandExact(a);
    DbzBandExact(b);
  }

  // -------------------------------------------------------------------
  // Velocity, spectrum width and depolarisation ratio
  // -------------------------------------------------------------------

  /**
   * `KWS[vname]`: the bottom of the variable's scale and its number of
   * unit bands, `int((top - bot) / 1)` (Vel -10..10, spW 0..20, LDR -30..0).
   */
  function OthersScale(vname: string): Option<(real, nat)> {
    if vname == "Vel" then Some((-10.0, 20))
    else if vname == "spW" then Some((0.0, 20))
    else if vname == "LDR" then Some((-30.0, 30))
    else None
  }

  /**
   * `color_encodeOthers` for one value: a `KeyError` for a variable with
   * no scale, otherwise the one unit band the value falls in, if any.
   * Infinities and NaN fail every comparison and fall in none.
   */
  function OthersBand(v: F64, vname: string): (r: Result<Option<nat>>)
    ensures r.Err? <==> vname != "Vel" && vname != "spW" && vname != "LDR"
    ensures r.Err? ==> r.error == MissingKey
    ensures r.Ok? && !v.Num? ==> r.value == None
    ensures r.Ok? && v.Num? ==> r.value == UnitBand(v.r, OthersScale(vname).value.0, OthersScale(vname).value.1)
    ensures r.Ok? ==> var (bot, n) := OthersScale(vname).value;
                      (r.value.Some? <==> v.Num? && bot < v.r <= bot + n as real)
  {
    match OthersScale(vname)
    case None => Err(MissingKey)
    case Some((bot, n)) =>
      if v.Num? then LoopBandIsBand(v.r, bot, n); Ok(LoopBand(v.r, bot, n)) else Ok(None)
  }

  // -------------------------------------------------------------------
  // Backscatter (ATB)
  // -------------------------------------------------------------------

  /** `atbPLvs`: seven bands between eight increasing levels. */
  const ATB_LEVELS: seq<real> := [0.005, 0.007, 0.009, 0.015, 0.02, 0.05, 0.1, 5.0]

  predicate InLevel(x: real, i: nat)
    requires i + 1 < |ATB_LEVELS|
  {
    ATB_LEVELS[i] < x <= ATB_LEVELS[i + 1]
  }

  /** The encoder's loop over the seven bands. */
  function AtbLoop(x: real, k: nat): (b: Option<nat>)
    requires k < |ATB_LEVELS|
    ensures b.Some? ==> b.value < k && InLevel(x, b.value)
    ensures b.None? ==> forall i :: 0 <= i < k ==> !InLevel(x, i)
  {
    if k == 0 then None
    else if InLevel(x, k - 1) then Some(k - 1)
    else AtbLoop(x, k - 1)
  }

  /** `trunc(80 + i * 175 / 6)`: the shade of band `i`. */
  function AtbShade(i: nat): int {
    (480 + 175 * i) / 6
  }

  /**
   * The shade is the float `cn = 80 + i*(255-80)/(7-1)` cut to an integer
   * by the `uint8` store, and `cn - 50` cuts to the shade minus 50.
   */
  lemma AtbShadeTrunc(i: nat)
    requires i < 7
    ensures AtbShade(i) == Trunc(80.0 + (i as real) * 175.0 / 6.0)
    ensures AtbShade(i) - 50 == Trunc(80.0 + (i as real) * 175.0 / 6.0 - 50.0)
    ensures 0 <= AtbShade(i) - 50 && AtbShade(i) <= 255
  {
    var s := AtbShade(i);
    var c := 80.0 + (i as real) * 175.0 / 6.0;
    assert 6 * s <= 480 + 175 * i < 6 * s + 6;
    assert (s as real) <= c < (s as real) + 1.0;
  }

  /** `[cn, cn-50, cn, 255]` as stored. */
  function AtbRow(i: nat): seq<int> {
    [AtbShade(i), AtbShade(i) - 50, AtbShade(i), 255]
  }

  /** `color_encodeATB` for one value. */
  function AtbCode(v: F64): (c: seq<int>)
    ensures |c| == 4
  {
    match v
    case Num(x) =>
      (match AtbLoop(x, 7)
       case Some(i) => AtbRow(i)
       case None => [0, 0, 0, 0])
    case _ => [0, 0, 0, 0]
  }

  /** A backscatter value is coloured (opaque) exactly when it is in `(0.005, 5]`. */
  lemma AtbVisibleIff(v: F64)
    ensures AtbCode(v)[3] == 255 <==> v.Num? && 0.005 < v.r <= 5.0
    ensures AtbCode(v)[3] != 255 ==> AtbCode(v) == [0, 0, 0, 0]
  {
    if v.Num? && 0.005 < v.r <= 5.0 {
      var x := v.r;
      var i: nat := if x <= 0.007 then 0 else if x <= 0.009 then 1 else if x <= 0.015 then 2
                    else if x <= 0.02 then 3 else if x <= 0.05 then 4 else if x <= 0.1 then 5 else 6;
      assert InLevel(x, i);
    }
  }

  /** Stronger backscatter never gets a darker shade. */
  lemma AtbMonotone(a: real, b: real)
    requires 0.005 < a <= b <= 5.0
    ensures AtbCode(Num(a))[0] <= AtbCode(Num(b))[0]
  {
    AtbVisibleIff(Num(a));
    AtbVisibleIff(Num(b));
    var i, j := AtbLoop(a, 7).value, AtbLoop(b, 7).value;
    assert InLevel(a, i) && InLevel(b, j);
  }

  // -------------------------------------------------------------------
  // Lightning sources by altitude
  // -------------------------------------------------------------------

  /** `rgb`: eleven colours from green (low) to violet (high). */
  const LMA_RGB: seq<seq<int>> := [
    [90, 255, 100], [90, 255, 150], [90, 255, 200], [90, 255, 255],
    [90, 200, 255], [90, 150, 255], [90, 90, 255], [10, 10, 255],
    [100, 10, 255], [150, 70, 255], [200, 90, 255]]

  /** `opa`, the alpha of the `rgba` table. */
  const LMA_ALPHA: int := 170

  /** `(alt / 1000 - 2).astype(int)` clamped to `0 .. 10`. */
  function LmaBand(alt: real): (b: nat)
    ensures b <= 10
  {
    var code := Trunc(alt / 1000.0 - 2.0);
    if code < 0 then 0 else if code > 10 then 10 else code
  }

  /** Band `b` covers one kilometre from `b + 2` km; the lowest and highest bands are open-ended. */
  lemma LmaBandIff(alt: real, b: nat)
    requires b <= 10
    ensures LmaBand(alt) == b <==>
              (b == 0 && alt < 3000.0)
              || (1 <= b <= 9 && 1000.0 * (b as real + 2.0) <= alt < 1000.0 * (b as real + 3.0))
              || (b == 10 && alt >= 12000.0)
  {
  }

  /** Higher sources never get a lower band. */
  lemma LmaBandMonotone(a: real, b: real)
    requires a <= b
    ensures LmaBand(a) <= LmaBand(b)
  {
    var ya, yb := a / 1000.0 - 2.0, b / 1000.0 - 2.0;
    assert ya <= yb;
  }

  /** One source's colour: the band's row, with alpha 170 when `RGBA`. */
  function LmaColor(alt: real, rgba: bool): (c: seq<int>)
    ensures |c| == (if rgba then 4 else 3)
    ensures c[..3] == LMA_RGB[LmaBand(alt)]
    ensures rgba ==> c[3] == LMA_ALPHA
  {
    if rgba then LMA_RGB[LmaBand(alt)] + [LMA_ALPHA] else LMA_RGB[LmaBand(alt)]
  }

  /** `color_encode(DF, RGBA)`: one colour row per source. */
  function ColorEncode(alts: seq<real>, rgba: bool): (rows: seq<seq<int>>)
    ensures |rows| == |alts|
    ensures forall i :: 0 <= i < |alts| ==> |rows[i]| == (if rgba then 4 else 3)
    ensures forall i :: 0 <= i < |alts| ==> rows[i][..3] == LMA_RGB[LmaBand(alts[i])]
  {
    seq(|alts|, i requires 0 <= i < |alts| => LmaColor(alts[i], rgba))
  }
}

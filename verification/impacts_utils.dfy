/**
 * The IMPACTS airborne radar and lidar helpers: resetting NaN samples,
 * trimming navigation arrays to the time axis, expanding per-beam
 * navigation into one row per range gate, and the validity filters that
 * turn those rows into radar (`RADdf`) and lidar (`ER2CPL`) frames.
 *
 * The trigonometric step that moves a gate from the aircraft to the
 * ground (`proj_LatLonAlt`) is a parameter `project`: the model says
 * which inputs it receives and what is done with its answer.
 */
module ImpactsUtils {
  import opened Wrappers
  import opened Arith
  import opened Seqs
  import opened Floats
  import opened Geo
  import IngestUtils

  /** The fill value the scripts write over missing samples. */
  const MISSING: real := -999.0

  /** Seconds in a day, added to samples recorded after 00Z. */
  const DAY_SECONDS: real := 86400.0

  /** Lidar backscatter below this is background and dropped. */
  const ATB_FLOOR: real := 0.001

  /** Radar gates above this altitude (metres) are dropped. */
  const RADAR_CEILING: real := 18000.0

  // -------------------------------------------------------------------
  // resetNAN and syncDim
  // -------------------------------------------------------------------

  function FillNan(x: F64, reset: real): F64 {
    if x.NaN? then Num(reset) else x
  }

  /** `resetNAN`: every array keeps its shape and only its NaN entries change. */
  function ResetNan(arrs: seq<seq<F64>>, reset: real): (r: seq<seq<F64>>)
    ensures |r| == |arrs|
    ensures forall i :: 0 <= i < |arrs| ==> |r[i]| == |arrs[i]|
    ensures forall i, j :: 0 <= i < |arrs| && 0 <= j < |arrs[i]| && !arrs[i][j].NaN? ==> r[i][j] == arrs[i][j]
  {
    seq(|arrs|, i requires 0 <= i < |arrs| =>
      seq(|arrs[i]|, j requires 0 <= j < |arrs[i]| => FillNan(arrs[i][j], reset)))
  }

  /** After `resetNAN` no entry is NaN: each former NaN holds `reset`, infinities stay. */
  lemma ResetNanClears(arrs: seq<seq<F64>>, reset: real)
    ensures var r := ResetNan(arrs, reset);
            forall i, j :: 0 <= i < |arrs| && 0 <= j < |arrs[i]| ==>
              !r[i][j].NaN? && (arrs[i][j].NaN? ==> r[i][j] == Num(reset))
  {
  }

  /** Resetting twice is resetting once. */
  lemma ResetNanIdempotent(arrs: seq<seq<F64>>, reset: real)
    ensures ResetNan(ResetNan(arrs, reset), reset) == ResetNan(arrs, reset)
  {
    var r := ResetNan(arrs, reset);
    ResetNanClears(arrs, reset);
    var rr := ResetNan(r, reset);
    assert forall i :: 0 <= i < |r| ==> rr[i] == r[i];
  }

  /** `syncDim`: cut `arr` down to the length of `std` when it is longer. */
  function SyncDim<T, U>(arr: seq<T>, std: seq<U>): (r: seq<T>)
    ensures |r| == if |arr| > |std| then |std| else |arr|
    ensures r == arr[..|r|]
  {
    if |arr| > |std| then arr[..|std|] else arr
  }

  /** An array is left unchanged exactly when it is no longer than the reference. */
  lemma SyncDimKeeps<T, U>(arr: seq<T>, std: seq<U>)
    ensures SyncDim(arr, std) == arr <==> |arr| <= |std|
  {
  }

  /** Syncing an array that was already synced changes nothing. */
  lemma SyncDimIdempotent<T, U>(arr: seq<T>, std: seq<U>)
    ensures SyncDim(SyncDim(arr, std), std) == SyncDim(arr, std)
  {
  }

  // -------------------------------------------------------------------
  // Row expansion shared by the radar and the lidar
  // -------------------------------------------------------------------

  /** What the projection sees for one gate: navigation with angles in radians, and the gate's distance from the aircraft. */
  datatype Gate = Gate(lon: real, lat: real, alt: real, roll: real, pitch: real, head: real, zdist: real)

  datatype Position = Position(lon: real, lat: real, alt: real)

  /** `x * k` elementwise. */
  function Scaled(xs: seq<real>, k: real): (r: seq<real>)
    ensures |r| == |xs|
    ensures forall i :: 0 <= i < |xs| ==> r[i] == xs[i] * k
  {
    seq(|xs|, i requires 0 <= i < |xs| => xs[i] * k)
  }

  /** `x * to_rad` elementwise. */
  function Radians(xs: seq<real>): (r: seq<real>)
    ensures |r| == |xs|
    ensures forall i :: 0 <= i < |xs| ==> r[i] == Rad(xs[i])
  {
    seq(|xs|, i requires 0 <= i < |xs| => Rad(xs[i]))
  }

  /**
   * Assigning `np.repeat(x, nrow)` (or `np.tile`) of length `len * nrow`
   * to a frame of `ncol * nrow` rows raises unless the lengths agree.
   */
  predicate Fits(len: nat, ncol: nat, nrow: nat) {
    len * nrow == ncol * nrow
  }

  lemma FitsIff(len: nat, ncol: nat, nrow: nat)
    ensures Fits(len, ncol, nrow) <==> nrow == 0 || len == ncol
  {
    MulCancel(nrow, len, ncol);
  }

  lemma IndexSplit(i: nat, j: nat, ncol: nat, nrow: nat)
    requires i < ncol && j < nrow
    ensures i * nrow + j < ncol * nrow
    ensures (i * nrow + j) / nrow == i && (i * nrow + j) % nrow == j
  {
    MulMono(nrow, i + 1, ncol);
    DivUnique(i * nrow + j, nrow, i);
  }

  // -------------------------------------------------------------------
  // ER2Radar and RADdf
  // -------------------------------------------------------------------

  /** The navigation of one radar file: one entry per beam, and the gate ranges. */
  datatype RadarNav = RadarNav(
    time: seq<real>, lon: seq<real>, lat: seq<real>, alt: seq<real>,
    roll: seq<real>, pitch: seq<real>, head: seq<real>, range: seq<real>)

  datatype RadarPoint = RadarPoint(time: real, lon: real, lat: real, alt: real)

  predicate RadarFits(nav: RadarNav) {
    var ncol := |nav.time|;
    var nrow := |nav.range|;
    Fits(|nav.lon|, ncol, nrow) && Fits(|nav.lat|, ncol, nrow) && Fits(|nav.alt|, ncol, nrow)
    && Fits(|nav.roll|, ncol, nrow) && Fits(|nav.pitch|, ncol, nrow) && Fits(|nav.head|, ncol, nrow)
  }

  /**
   * `ER2Radar`: one row per (beam, gate), the beam's values repeated once
   * per gate and the gate ranges tiled once per beam, then projected.
   */
  function Er2Radar(nav: RadarNav, project: Gate -> Position): (r: Result<seq<RadarPoint>>)
    ensures r.Ok? <==> RadarFits(nav)
    ensures r.Ok? ==> |r.value| == |nav.time| * |nav.range|
  {
    var ncol := |nav.time|;
    var nrow := |nav.range|;
    if !RadarFits(nav) then Err(LengthMismatch)
    else
      var time := Repeat(nav.time, nrow);
      var lon := Repeat(nav.lon, nrow);
      var lat := Repeat(nav.lat, nrow);
      var alt := Repeat(nav.alt, nrow);
      var roll := Repeat(Radians(nav.roll), nrow);
      var pitch := Repeat(Radians(nav.pitch), nrow);
      var head := Repeat(Radians(nav.head), nrow);
      var zdist := Tile(nav.range, ncol);
      Ok(seq(ncol * nrow, k requires 0 <= k < ncol * nrow =>
        var p := project(Gate(lon[k], lat[k], alt[k], roll[k], pitch[k], head[k], zdist[k]));
        RadarPoint(time[k], p.lon, p.lat, p.alt)))
  }

  /** The gate `j` of beam `i`, as the projection receives it. */
  function RadarGate(nav: RadarNav, i: nat, j: nat): Gate
    requires i < |nav.time| && j < |nav.range| && RadarFits(nav)
  {
    FitsIff(|nav.lon|, |nav.time|, |nav.range|);
    FitsIff(|nav.lat|, |nav.time|, |nav.range|);
    FitsIff(|nav.alt|, |nav.time|, |nav.range|);
    FitsIff(|nav.roll|, |nav.time|, |nav.range|);
    FitsIff(|nav.pitch|, |nav.time|, |nav.range|);
    FitsIff(|nav.head|, |nav.time|, |nav.range|);
    Gate(nav.lon[i], nav.lat[i], nav.alt[i], Rad(nav.roll[i]), Rad(nav.pitch[i]), Rad(nav.head[i]), nav.range[j])
  }

  /** Row `i * nrow + j` is beam `i` at gate `j`: the time of the beam and the projected gate. */
  lemma Er2RadarLayout(nav: RadarNav, project: Gate -> Position, i: nat, j: nat)
    requires RadarFits(nav) && i < |nav.time| && j < |nav.range|
    ensures var nrow := |nav.range|;
            var r := Er2Radar(nav, project).value;
            var p := project(RadarGate(nav, i, j));
            i * nrow + j < |r| && r[i * nrow + j] == RadarPoint(nav.time[i], p.lon, p.lat, p.alt)
  {
    var ncol := |nav.time|;
    var nrow := |nav.range|;
    IndexSplit(i, j, ncol, nrow);
  }

  /** One band's variable columns, as `RADdf` copies them into the frame. */
  datatype RadRow = RadRow(time: real, lon: real, lat: real, alt: real, vars: seq<F64>)

  /** `RAD[vname] = data[band][vname].flatten()`: a missing key or a column of the wrong length raises. */
  function Column(band: map<string, seq<F64>>, name: string, n: nat): (r: Result<seq<F64>>)
    ensures r.Ok? <==> name in band && |band[name]| == n
    ensures r.Ok? ==> r.value == band[name]
    ensures r.Err? ==> r.error == (if name in band then LengthMismatch else MissingKey)
  {
    if name !in band then Err(MissingKey)
    else if |band[name]| != n then Err(LengthMismatch)
    else Ok(band[name])
  }

  predicate AllNan(cols: seq<seq<F64>>, i: nat)
    requires forall k :: 0 <= k < |cols| ==> i < |cols[k]|
  {
    forall k :: 0 <= k < |cols| ==> cols[k][i].NaN?
  }

  /** Row `i` of the band frame after `fillna(-999)`. */
  function RadRowAt(points: seq<RadarPoint>, cols: seq<seq<F64>>, i: nat): RadRow
    requires i < |points| && forall k :: 0 <= k < |cols| ==> |cols[k]| == |points|
  {
    RadRow(points[i].time, points[i].lon, points[i].lat, points[i].alt,
      seq(|cols|, k requires 0 <= k < |cols| => FillNan(cols[k][i], MISSING)))
  }

  /** Row `i` survives: some variable is present and the gate lies in [0, 18000] m. */
  predicate RadKeep(points: seq<RadarPoint>, cols: seq<seq<F64>>, i: nat)
    requires i < |points| && forall k :: 0 <= k < |cols| ==> |cols[k]| == |points|
  {
    !AllNan(cols, i) && 0.0 <= points[i].alt <= RADAR_CEILING
  }

  /** The band frame after `fillna(-999)`, before any row is dropped. */
  function RadRows(points: seq<RadarPoint>, cols: seq<seq<F64>>): (rows: seq<RadRow>)
    requires forall k :: 0 <= k < |cols| ==> |cols[k]| == |points|
    ensures |rows| == |points|
    ensures forall i :: 0 <= i < |points| ==> rows[i] == RadRowAt(points, cols, i)
  {
    seq(|points|, i requires 0 <= i < |points| => RadRowAt(points, cols, i))
  }

  /** The rows that survive `dropna(how='all')` and the altitude window. */
  function RadMask(points: seq<RadarPoint>, cols: seq<seq<F64>>): (m: seq<bool>)
    requires forall k :: 0 <= k < |cols| ==> |cols[k]| == |points|
    ensures |m| == |points|
    ensures forall i :: 0 <= i < |points| ==> m[i] == RadKeep(points, cols, i)
  {
    seq(|points|, i requires 0 <= i < |points| => RadKeep(points, cols, i))
  }

  /**
   * The clean-up of one band: `dropna(how='all')` over the variables,
   * `fillna(-999)`, the altitude window, and `reset_index`.
   */
  function RadBand(points: seq<RadarPoint>, cols: seq<seq<F64>>): (r: seq<RadRow>)
    requires forall k :: 0 <= k < |cols| ==> |cols[k]| == |points|
    ensures |r| <= |points|
    ensures forall x :: x in r ==> 0.0 <= x.alt <= RADAR_CEILING && |x.vars| == |cols|
  {
    SelectMembers(RadRows(points, cols), RadMask(points, cols));
    Select(RadRows(points, cols), RadMask(points, cols))
  }

  /**
   * The band frame is the subsequence of surviving rows in file order,
   * renumbered from zero, with no NaN left in any variable.
   */
  lemma RadBandExact(points: seq<RadarPoint>, cols: seq<seq<F64>>)
    requires forall k :: 0 <= k < |cols| ==> |cols[k]| == |points|
    ensures forall x :: x in RadBand(points, cols) ==>
              exists i :: 0 <= i < |points| && RadKeep(points, cols, i) && x == RadRowAt(points, cols, i)
    ensures forall i :: 0 <= i < |points| && RadKeep(points, cols, i) ==> RadRowAt(points, cols, i) in RadBand(points, cols)
    ensures forall x, k :: x in RadBand(points, cols) && 0 <= k < |x.vars| ==> !x.vars[k].NaN?
    ensures var idx := Kept(RadMask(points, cols));
            && |RadBand(points, cols)| == |idx|
            && Ascending(idx)
            && (forall j :: 0 <= j < |idx| ==> idx[j] < |points| && RadBand(points, cols)[j] == RadRowAt(points, cols, idx[j]))
            && (forall i :: 0 <= i < |points| ==> (i in idx <==> RadKeep(points, cols, i)))
  {
    var rows := RadRows(points, cols);
    var keep := RadMask(points, cols);
    SelectMembers(rows, keep);
    SelectInOrder(rows, keep);
    forall x, k | x in RadBand(points, cols) && 0 <= k < |x.vars| ensures !x.vars[k].NaN? {
      var i :| 0 <= i < |points| && keep[i] && x == rows[i];
      RadRowFilled(points, cols, i, k);
    }
  }

  /** After `fillna(-999)` no variable of a row is NaN. */
  lemma RadRowFilled(points: seq<RadarPoint>, cols: seq<seq<F64>>, i: nat, k: nat)
    requires i < |points| && forall c :: 0 <= c < |cols| ==> |cols[c]| == |points|
    requires k < |RadRowAt(points, cols, i).vars|
    ensures !RadRowAt(points, cols, i).vars[k].NaN?
  {
  }

  /** The columns of one band, or the first error the assignments raise. */
  function BandColumns(data: map<string, map<string, seq<F64>>>, band: string, vars: seq<string>, n: nat): (r: Result<seq<seq<F64>>>)
    ensures r.Ok? <==> band in data && forall k :: 0 <= k < |vars| ==> vars[k] in data[band] && |data[band][vars[k]]| == n
    ensures r.Ok? ==> |r.value| == |vars| && forall k :: 0 <= k < |vars| ==> r.value[k] == data[band][vars[k]]
  {
    if band !in data then Err(MissingKey)
    else
      var rs := seq(|vars|, k requires 0 <= k < |vars| => Column(data[band], vars[k], n));
      assert forall k :: 0 <= k < |vars| ==> (rs[k].Ok? <==> vars[k] in data[band] && |data[band][vars[k]]| == n);
      AllOk(rs)
  }

  /** `RADdf`: one cleaned frame per band, keyed by band name. */
  function RadDf(points: seq<RadarPoint>, data: map<string, map<string, seq<F64>>>, bands: seq<string>, vars: seq<string>)
    : (r: Result<map<string, seq<RadRow>>>)
    ensures r.Ok? <==> forall b :: b in bands ==> BandColumns(data, b, vars, |points|).Ok?
    ensures r.Ok? ==> r.value.Keys == set b | b in bands
    ensures r.Ok? ==> forall b :: b in bands ==> r.value[b] == RadBand(points, BandColumns(data, b, vars, |points|).value)
  {
    if |bands| == 0 then Ok(map[])
    else
      var cols :- BandColumns(data, bands[0], vars, |points|);
      var rest :- RadDf(points, data, bands[1..], vars);
      assert forall b :: b in bands ==> b == bands[0] || b in bands[1..];
      Ok(rest[bands[0] := RadBand(points, cols)])
  }

  // -------------------------------------------------------------------
  // ER2CPL
  // -------------------------------------------------------------------

  /**
   * The fields `ER2CPL` reads from one lidar file. `atb` is the
   * backscatter of shape (ncol, nrow) in row-major order.
   */
  datatype CplFile = CplFile(
    atb: seq<F64>, ncol: nat, nrow: nat, altBin: seq<real>,
    lon: seq<real>, lat: seq<real>, planeAlt: seq<real>,
    roll: seq<real>, head: seq<real>, pitch: seq<real>,
    hour: seq<real>, minute: seq<real>, second: seq<real>)

  predicate Shaped(f: CplFile) {
    |f.atb| == f.ncol * f.nrow
  }

  /** `[h*3600 + m*60 + s for (h, m, s) in zip(...)]`: as long as the shortest field. */
  function SecondsOfDay(h: seq<real>, m: seq<real>, s: seq<real>): (r: seq<real>)
    ensures |r| <= |h| && |r| <= |m| && |r| <= |s|
    ensures |r| == |h| || |r| == |m| || |r| == |s|
    ensures forall i :: 0 <= i < |r| ==> r[i] == h[i] * 3600.0 + m[i] * 60.0 + s[i]
  {
    var n := if |h| <= |m| && |h| <= |s| then |h| else if |m| <= |s| then |m| else |s|;
    seq(n, i requires 0 <= i < n => h[i] * 3600.0 + m[i] * 60.0 + s[i])
  }

  /** Clock fields of a valid time of day give seconds in [0, 86400). */
  lemma SecondsOfDayBounds(h: seq<real>, m: seq<real>, s: seq<real>)
    requires forall i :: 0 <= i < |h| ==> 0.0 <= h[i] <= 23.0
    requires forall i :: 0 <= i < |m| ==> 0.0 <= m[i] <= 59.0
    requires forall i :: 0 <= i < |s| ==> 0.0 <= s[i] < 60.0
    ensures forall i :: 0 <= i < |SecondsOfDay(h, m, s)| ==> 0.0 <= SecondsOfDay(h, m, s)[i] < DAY_SECONDS
  {
  }

  /** The navigation columns after the day wrap and `syncDim`. */
  datatype CplNav = CplNav(secs: seq<real>, alt: seq<real>, roll: seq<real>, head: seq<real>, pitch: seq<real>)

  function SyncNav(f: CplFile, secs: seq<real>): (nav: CplNav)
    ensures nav.secs == secs
    ensures |nav.alt| <= |secs| && |nav.roll| <= |secs| && |nav.head| <= |secs| && |nav.pitch| <= |secs|
  {
    CplNav(secs, SyncDim(Scaled(f.planeAlt, 1000.0), secs), SyncDim(Radians(f.roll), secs),
      SyncDim(Radians(f.head), secs), SyncDim(Radians(f.pitch), secs))
  }

  predicate CplFits(f: CplFile, nav: CplNav) {
    |f.altBin| * f.ncol == f.ncol * f.nrow
    && Fits(|f.lon|, f.ncol, f.nrow) && Fits(|f.lat|, f.ncol, f.nrow)
    && Fits(|nav.alt|, f.ncol, f.nrow) && Fits(|nav.roll|, f.ncol, f.nrow)
    && Fits(|nav.head|, f.ncol, f.nrow) && Fits(|nav.pitch|, f.ncol, f.nrow)
    && Fits(|nav.secs|, f.ncol, f.nrow)
  }

  /** NaN and infinite backscatter become -999. */
  function CleanAtb(x: F64): real {
    if x.Num? then x.r else MISSING
  }

  datatype CplRow = CplRow(atb: real, lev: real, lon: real, lat: real, alt: real,
                           roll: real, head: real, pitch: real, secs: real)

  datatype CplPoint = CplPoint(atb: real, lev: real, secs: real, lon: real, lat: real, alt: real)

  /** The projected columns that survive `drop`. */
  function Projected(row: CplRow, project: Gate -> Position): CplPoint {
    var p := project(Gate(row.lon, row.lat, row.alt, row.roll, row.pitch, row.head, row.alt - row.lev));
    CplPoint(row.atb, row.lev, row.secs, p.lon, p.lat, p.alt)
  }

  /** Row `k` of the frame before filtering: beam `k / nrow`, bin `k % nrow`. */
  function CplRowAt(f: CplFile, nav: CplNav, k: nat): CplRow
    requires Shaped(f) && CplFits(f, nav) && k < f.ncol * f.nrow
  {
    var i := k / f.nrow;
    var j := k % f.nrow;
    DivBelow(k, f.nrow, f.ncol);
    FitsIff(|f.lon|, f.ncol, f.nrow);
    FitsIff(|f.lat|, f.ncol, f.nrow);
    FitsIff(|nav.alt|, f.ncol, f.nrow);
    FitsIff(|nav.roll|, f.ncol, f.nrow);
    FitsIff(|nav.head|, f.ncol, f.nrow);
    FitsIff(|nav.pitch|, f.ncol, f.nrow);
    FitsIff(|nav.secs|, f.ncol, f.nrow);
    MulCancel(f.ncol, |f.altBin|, f.nrow);
    CplRow(CleanAtb(f.atb[k]), f.altBin[j] * 1000.0, f.lon[i], f.lat[i], nav.alt[i],
           nav.roll[i], nav.head[i], nav.pitch[i], nav.secs[i])
  }

  /** A cell survives both filters: its backscatter is at least the floor and its projected altitude is positive. */
  predicate CplKeep(f: CplFile, nav: CplNav, project: Gate -> Position, k: nat)
    requires Shaped(f) && CplFits(f, nav) && k < f.ncol * f.nrow
  {
    CplRowAt(f, nav, k).atb >= ATB_FLOOR && Projected(CplRowAt(f, nav, k), project).alt > 0.0
  }

  /**
   * Row `k` of the frame is cell `k` of the flattened backscatter, cleaned,
   * with entry `k` of `np.tile(AltBin, ncol)` and entry `k` of each
   * `np.repeat(..., nrow)` beam column.
   */
  lemma CplFrameTiled(f: CplFile, nav: CplNav, k: nat)
    requires Shaped(f) && CplFits(f, nav) && k < f.ncol * f.nrow
    ensures && k < |Tile(Scaled(f.altBin, 1000.0), f.ncol)| && k < |Repeat(f.lon, f.nrow)| && k < |Repeat(f.lat, f.nrow)|
            && k < |Repeat(nav.alt, f.nrow)| && k < |Repeat(nav.roll, f.nrow)| && k < |Repeat(nav.head, f.nrow)|
            && k < |Repeat(nav.pitch, f.nrow)| && k < |Repeat(nav.secs, f.nrow)|
            && k < |CplFrame(f, nav)|
            && CplFrame(f, nav)[k]
               == CplRow(CleanAtb(f.atb[k]), Tile(Scaled(f.altBin, 1000.0), f.ncol)[k],
                         Repeat(f.lon, f.nrow)[k], Repeat(f.lat, f.nrow)[k], Repeat(nav.alt, f.nrow)[k],
                         Repeat(nav.roll, f.nrow)[k], Repeat(nav.head, f.nrow)[k], Repeat(nav.pitch, f.nrow)[k],
                         Repeat(nav.secs, f.nrow)[k])
  {
    MulCancel(f.ncol, |f.altBin|, f.nrow);
    DivBelow(k, f.nrow, f.ncol);
    FitsIff(|f.lon|, f.ncol, f.nrow);
    FitsIff(|f.lat|, f.ncol, f.nrow);
    FitsIff(|nav.alt|, f.ncol, f.nrow);
    FitsIff(|nav.roll|, f.ncol, f.nrow);
    FitsIff(|nav.head|, f.ncol, f.nrow);
    FitsIff(|nav.pitch|, f.ncol, f.nrow);
    FitsIff(|nav.secs|, f.ncol, f.nrow);
  }

  /** The frame built with `np.tile` / `np.repeat`, before any filter; see `CplFrameTiled`. */
  function CplFrame(f: CplFile, nav: CplNav): (rows: seq<CplRow>)
    requires Shaped(f) && CplFits(f, nav)
    ensures |rows| == f.ncol * f.nrow
    ensures forall k :: 0 <= k < |rows| ==> rows[k] == CplRowAt(f, nav, k)
  {
    seq(f.ncol * f.nrow, k requires 0 <= k < f.ncol * f.nrow => CplRowAt(f, nav, k))
  }

  /** `df['ATB'] >= ATB_FLOOR`. */
  function BrightMask(rows: seq<CplRow>): (m: seq<bool>)
    ensures |m| == |rows|
    ensures forall k :: 0 <= k < |rows| ==> m[k] == (rows[k].atb >= ATB_FLOOR)
  {
    seq(|rows|, k requires 0 <= k < |rows| => rows[k].atb >= ATB_FLOOR)
  }

  /** Every row's gate projected to the ground frame. */
  function ProjectAll(rows: seq<CplRow>, project: Gate -> Position): (ps: seq<CplPoint>)
    ensures |ps| == |rows|
    ensures forall k :: 0 <= k < |rows| ==> ps[k] == Projected(rows[k], project)
  {
    seq(|rows|, k requires 0 <= k < |rows| => Projected(rows[k], project))
  }

  /** `df['alt'] > 0`. */
  function AboveMask(ps: seq<CplPoint>): (m: seq<bool>)
    ensures |m| == |ps|
    ensures forall k :: 0 <= k < |ps| ==> m[k] == (ps[k].alt > 0.0)
  {
    seq(|ps|, k requires 0 <= k < |ps| => ps[k].alt > 0.0)
  }

  /** Both filters judged on the unfiltered rows. */
  function CplMask(rows: seq<CplRow>, project: Gate -> Position): (m: seq<bool>)
    ensures |m| == |rows|
    ensures forall k :: 0 <= k < |rows| ==> m[k] == (rows[k].atb >= ATB_FLOOR && Projected(rows[k], project).alt > 0.0)
  {
    seq(|rows|, k requires 0 <= k < |rows| => rows[k].atb >= ATB_FLOOR && Projected(rows[k], project).alt > 0.0)
  }

  /** The two filters of `ER2CPL`: the backscatter floor, then positive projected altitude. */
  function CplFilter(rows: seq<CplRow>, project: Gate -> Position): (r: seq<CplPoint>)
    ensures |r| <= |rows|
    ensures forall p :: p in r ==> p.atb >= ATB_FLOOR && p.alt > 0.0
  {
    var bright := Select(rows, BrightMask(rows));
    var points := ProjectAll(bright, project);
    SelectMembers(rows, BrightMask(rows));
    SelectMembers(points, AboveMask(points));
    assert forall m :: 0 <= m < |bright| ==> bright[m] in bright;
    Select(points, AboveMask(points))
  }

  /** Projecting then selecting is selecting then projecting. */
  lemma {:induction false} ProjectSelect(rows: seq<CplRow>, m: seq<bool>, project: Gate -> Position)
    requires |m| == |rows|
    ensures ProjectAll(Select(rows, m), project) == Select(ProjectAll(rows, project), m)
    decreases |rows|
  {
    if |rows| > 0 {
      ProjectSelect(rows[1..], m[1..], project);
      var ps := ProjectAll(rows, project);
      assert ps[1..] == ProjectAll(rows[1..], project);
      var head := if m[0] then [rows[0]] else [];
      assert Select(rows, m) == head + Select(rows[1..], m[1..]);
      assert ProjectAll(Select(rows, m), project)
          == ProjectAll(head, project) + ProjectAll(Select(rows[1..], m[1..]), project);
    }
  }

  /**
   * Filtering in two passes (the floor on the rows, then the altitude on
   * the projected survivors) is one pass of the joint mask over the
   * projected rows.
   */
  lemma CplFilterInOrder(rows: seq<CplRow>, project: Gate -> Position)
    ensures CplFilter(rows, project) == Select(ProjectAll(rows, project), CplMask(rows, project))
  {
    var b := BrightMask(rows);
    var bright := Select(rows, b);
    var points := ProjectAll(bright, project);
    var a := AboveMask(points);
    var all := ProjectAll(rows, project);
    ProjectSelect(rows, b, project);
    SelectSelect(all, b, a);
    SelectIsKept(rows, b);
    forall k | 0 <= k < |rows| ensures Spread(b, a)[k] == CplMask(rows, project)[k] {
      if b[k] {
        KeptComplete(b, k);
        var i :| 0 <= i < |Kept(b)| && Kept(b)[i] == k;
        SpreadAt(b, a, i);
        assert bright[i] == rows[k];
      } else {
        SpreadOff(b, a, k);
      }
    }
    assert Spread(b, a) == CplMask(rows, project);
  }

  datatype CplOut = CplOut(points: seq<CplPoint>, secs: seq<real>, alt: seq<real>)

  /**
   * `ER2CPL`: seconds of day unwrapped past midnight, navigation synced to
   * the time axis, backscatter cleaned and filtered, gates projected and
   * kept above ground. The first error is an empty time axis, then a
   * column whose length does not fit the frame.
   */
  function Er2Cpl(f: CplFile, project: Gate -> Position): (r: Result<CplOut>)
    requires Shaped(f)
    ensures r.Ok? <==> |SecondsOfDay(f.hour, f.minute, f.second)| > 0
                       && CplFits(f, SyncNav(f, IngestUtils.Unwrap(SecondsOfDay(f.hour, f.minute, f.second), DAY_SECONDS).value))
    ensures r.Err? && |SecondsOfDay(f.hour, f.minute, f.second)| == 0 ==> r.error == IndexOutOfRange
    ensures r.Err? && |SecondsOfDay(f.hour, f.minute, f.second)| > 0 ==> r.error == LengthMismatch
    ensures r.Ok? ==> |r.value.points| <= f.ncol * f.nrow && |r.value.alt| <= |r.value.secs|
    ensures r.Ok? ==> forall p :: p in r.value.points ==> p.atb >= ATB_FLOOR && p.alt > 0.0
  {
    var secs :- IngestUtils.Unwrap(SecondsOfDay(f.hour, f.minute, f.second), DAY_SECONDS);
    var nav := SyncNav(f, secs);
    if !CplFits(f, nav) then Err(LengthMismatch)
    else Ok(CplOut(CplFilter(CplFrame(f, nav), project), secs, nav.alt))
  }

  /** Which cell a surviving point came from. */
  predicate FromCell(f: CplFile, nav: CplNav, project: Gate -> Position, p: CplPoint)
    requires Shaped(f) && CplFits(f, nav)
  {
    exists k :: 0 <= k < f.ncol * f.nrow && CplKeep(f, nav, project, k) && p == Projected(CplRowAt(f, nav, k), project)
  }

  /**
   * The filtered frame is the subsequence of projected rows whose
   * backscatter reaches the floor and whose projected gate is above
   * ground, in frame order: one point per surviving row, and a row
   * survives exactly when it passes both filters.
   */
  lemma CplFilterExact(rows: seq<CplRow>, project: Gate -> Position)
    ensures forall p :: p in CplFilter(rows, project) ==>
              exists k :: 0 <= k < |rows| && rows[k].atb >= ATB_FLOOR && Projected(rows[k], project).alt > 0.0
                          && p == Projected(rows[k], project)
    ensures forall k :: 0 <= k < |rows| && rows[k].atb >= ATB_FLOOR && Projected(rows[k], project).alt > 0.0 ==>
              Projected(rows[k], project) in CplFilter(rows, project)
    ensures var idx := Kept(CplMask(rows, project));
            && |CplFilter(rows, project)| == |idx|
            && Ascending(idx)
            && (forall j :: 0 <= j < |idx| ==> idx[j] < |rows| && CplFilter(rows, project)[j] == Projected(rows[idx[j]], project))
            && (forall k :: 0 <= k < |rows| ==> (k in idx <==> rows[k].atb >= ATB_FLOOR && Projected(rows[k], project).alt > 0.0))
  {
    var all := ProjectAll(rows, project);
    var m := CplMask(rows, project);
    CplFilterInOrder(rows, project);
    SelectInOrder(all, m);
    SelectMembers(all, m);
  }

  /** The filter over the lidar frame, stated per cell. */
  lemma CplFrameInOrder(f: CplFile, nav: CplNav, project: Gate -> Position)
    requires Shaped(f) && CplFits(f, nav)
    ensures var rows := CplFrame(f, nav);
            var idx := Kept(CplMask(rows, project));
            && |CplFilter(rows, project)| == |idx|
            && Ascending(idx)
            && (forall j :: 0 <= j < |idx| ==> idx[j] < f.ncol * f.nrow && CplFilter(rows, project)[j] == Projected(CplRowAt(f, nav, idx[j]), project))
            && (forall k :: 0 <= k < f.ncol * f.nrow ==> (k in idx <==> CplKeep(f, nav, project, k)))
  {
    CplFilterExact(CplFrame(f, nav), project);
  }

  /** On success, `ER2CPL` returns the filtered frame built from the unwrapped clock. */
  lemma Er2CplOk(f: CplFile, project: Gate -> Position)
    requires Shaped(f) && Er2Cpl(f, project).Ok?
    ensures var secs := IngestUtils.Unwrap(SecondsOfDay(f.hour, f.minute, f.second), DAY_SECONDS).value;
            var nav := SyncNav(f, secs);
            && CplFits(f, nav)
            && Er2Cpl(f, project).value.points == CplFilter(CplFrame(f, nav), project)
            && Er2Cpl(f, project).value.secs == secs
  {
  }

  /** The filtered frame holds a point exactly when it projects a kept cell. */
  lemma CplFrameMembers(f: CplFile, nav: CplNav, project: Gate -> Position)
    requires Shaped(f) && CplFits(f, nav)
    ensures forall p :: p in CplFilter(CplFrame(f, nav), project) ==> FromCell(f, nav, project, p)
    ensures forall k :: 0 <= k < f.ncol * f.nrow && CplKeep(f, nav, project, k) ==>
              Projected(CplRowAt(f, nav, k), project) in CplFilter(CplFrame(f, nav), project)
    ensures forall k :: 0 <= k < f.ncol * f.nrow && CplKeep(f, nav, project, k) ==> f.atb[k] == Num(CplRowAt(f, nav, k).atb)
  {
    var rows := CplFrame(f, nav);
    CplFilterExact(rows, project);
    forall p | p in CplFilter(rows, project) ensures FromCell(f, nav, project, p) {
      var k :| 0 <= k < |rows| && rows[k].atb >= ATB_FLOOR && Projected(rows[k], project).alt > 0.0
               && p == Projected(rows[k], project);
      assert CplKeep(f, nav, project, k);
    }
  }

  /**
   * The lidar frame holds exactly the cells whose finite backscatter
   * reaches the floor and whose projected gate is above ground; NaN and
   * infinite cells never survive.
   */
  lemma Er2CplExact(f: CplFile, project: Gate -> Position)
    requires Shaped(f) && Er2Cpl(f, project).Ok?
    ensures var secs := IngestUtils.Unwrap(SecondsOfDay(f.hour, f.minute, f.second), DAY_SECONDS).value;
            var nav := SyncNav(f, secs);
            var out := Er2Cpl(f, project).value;
            && out.secs == secs
            && (forall p :: p in out.points ==> FromCell(f, nav, project, p))
            && (forall k :: 0 <= k < f.ncol * f.nrow && CplKeep(f, nav, project, k) ==>
                  Projected(CplRowAt(f, nav, k), project) in out.points)
            && (forall k :: 0 <= k < f.ncol * f.nrow && CplKeep(f, nav, project, k) ==> f.atb[k] == Num(CplRowAt(f, nav, k).atb))
  ensures var secs := IngestUtils.Unwrap(SecondsOfDay(f.hour, f.minute, f.second), DAY_SECONDS).value;
          var nav := SyncNav(f, secs);
          var out := Er2Cpl(f, project).value;
          var idx := Kept(CplMask(CplFrame(f, nav), project));
          && |out.points| == |idx|
          && Ascending(idx)
          && (forall j :: 0 <= j < |idx| ==> idx[j] < f.ncol * f.nrow && out.points[j] == Projected(CplRowAt(f, nav, idx[j]), project))
          && (forall k :: 0 <= k < f.ncol * f.nrow ==> (k in idx <==> CplKeep(f, nav, project, k)))
  {
    var secs := IngestUtils.Unwrap(SecondsOfDay(f.hour, f.minute, f.second), DAY_SECONDS).value;
    var nav := SyncNav(f, secs);
    Er2CplOk(f, project);
    CplFrameMembers(f, nav, project);
    CplFrameInOrder(f, nav, project);
  }

  /** Cell `i * nrow + j` carries bin `j`'s level and beam `i`'s time and position. */
  lemma CplLayout(f: CplFile, nav: CplNav, i: nat, j: nat)
    requires Shaped(f) && CplFits(f, nav) && i < f.ncol && j < f.nrow
    ensures i * f.nrow + j < f.ncol * f.nrow
    ensures var row := CplRowAt(f, nav, i * f.nrow + j);
            j < |f.altBin| && i < |nav.secs| && i < |f.lon|
            && row.lev == f.altBin[j] * 1000.0 && row.secs == nav.secs[i] && row.lon == f.lon[i]
  {
    IndexSplit(i, j, f.ncol, f.nrow);
    MulCancel(f.ncol, |f.altBin|, f.nrow);
    FitsIff(|f.lon|, f.ncol, f.nrow);
    FitsIff(|nav.secs|, f.ncol, f.nrow);
  }

  /** For clock readings of one day, every sample's seconds land within one day of the first sample. */
  lemma Er2CplSecondsWithinDay(f: CplFile)
    requires |SecondsOfDay(f.hour, f.minute, f.second)| > 0
    requires forall i :: 0 <= i < |f.hour| ==> 0.0 <= f.hour[i] <= 23.0
    requires forall i :: 0 <= i < |f.minute| ==> 0.0 <= f.minute[i] <= 59.0
    requires forall i :: 0 <= i < |f.second| ==> 0.0 <= f.second[i] < 60.0
    ensures var xs := SecondsOfDay(f.hour, f.minute, f.second);
            var secs := IngestUtils.Unwrap(xs, DAY_SECONDS).value;
            forall i :: 0 <= i < |secs| ==> xs[0] <= secs[i] < xs[0] + DAY_SECONDS
  {
    SecondsOfDayBounds(f.hour, f.minute, f.second);
    IngestUtils.UnwrapWithinPeriod(SecondsOfDay(f.hour, f.minute, f.second), DAY_SECONDS);
  }
}

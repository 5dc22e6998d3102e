/**
 * The HS3 HIWRAP radar curtain: the nine variables kept from a granule,
 * the expansion of per-beam navigation into per-gate rows, and the
 * sort / mask / every-20th-row sampling that produces the output frame.
 * The projection of a gate is the same parameter as in `ImpactsUtils`.
 */
module Hiwrap {
  import opened Wrappers
  import opened Arith
  import opened Seqs
  import opened Floats
  import opened Geo
  import opened ChunkStore
  import opened ImpactsUtils

  /** The variables `_cleaning` keeps, in order. */
  const KEPT_VARS: seq<string> := ["time", "ref", "lat", "lon", "alt", "roll", "pitch", "head", "range"]

  /** One output row per this many kept rows. */
  const SAMPLE: nat := 20

  /** 2013-09-22T00:00:00Z in seconds since 1970, the origin of the granule's time axis. */
  const BASE_TIME: int := 1379808000

  /** `data[[...]]`: the nine variables, or a `KeyError` when one is missing. */
  function Cleaning<V>(ds: map<string, V>): (r: Result<map<string, V>>)
    ensures r.Ok? <==> forall v :: v in KEPT_VARS ==> v in ds
    ensures r.Err? ==> r.error == MissingKey
    ensures r.Ok? ==> r.value.Keys == set v | v in KEPT_VARS
    ensures r.Ok? ==> forall v :: v in r.value ==> r.value[v] == ds[v]
  {
    if forall v :: v in KEPT_VARS ==> v in ds then Ok(map v | v in KEPT_VARS :: ds[v])
    else Err(MissingKey)
  }

  /** Cleaning a cleaned granule gives it back unchanged. */
  lemma CleaningIdempotent<V>(ds: map<string, V>)
    requires Cleaning(ds).Ok?
    ensures Cleaning(Cleaning(ds).value) == Cleaning(ds)
  {
    var c := Cleaning(ds).value;
    assert (map v | v in KEPT_VARS :: c[v]) == c;
  }

  /**
   * The arrays `_transformation` reads. `ref` has shape (ncol, nrow) in
   * row-major order; the navigation has one entry per beam and `range`
   * one entry per gate.
   */
  datatype Granule = Granule(
    secs: seq<real>, lat: seq<real>, lon: seq<real>, alt: seq<real>,
    roll: seq<real>, pitch: seq<real>, head: seq<real>,
    ref: seq<F64>, ncol: nat, nrow: nat, range: seq<real>)

  /** The dimensions the granule's variables share. */
  predicate Consistent(g: Granule) {
    |g.ref| == g.ncol * g.nrow && |g.range| == g.nrow
    && |g.secs| == g.ncol && |g.lat| == g.ncol && |g.lon| == g.ncol && |g.alt| == g.ncol
    && |g.roll| == g.ncol && |g.pitch| == g.ncol && |g.head| == g.ncol
  }

  /** Seconds since 1970 of beam `i`: the offset cut to whole seconds toward zero, plus the base date. */
  function BeamTime(g: Granule, i: nat): int
    requires Consistent(g) && i < g.ncol
  {
    Trunc(g.secs[i]) + BASE_TIME
  }

  /** Row `k` of the curtain before sorting: beam `k / nrow`, gate `k % nrow`. */
  function CurtainRow(g: Granule, project: Gate -> Position, k: nat): Row
    requires Consistent(g) && k < g.ncol * g.nrow
  {
    var i := k / g.nrow;
    var j := k % g.nrow;
    DivBelow(k, g.nrow, g.ncol);
    var p := project(Gate(g.lon[i], g.lat[i], g.alt[i], Rad(g.roll[i]), Rad(g.pitch[i]), Rad(g.head[i]), g.range[j]));
    Row(Num(p.lon), Num(p.lat), Num(p.alt), g.ref[k], BeamTime(g, i))
  }

  /**
   * The curtain: track columns repeated once per gate (`np.repeat`), the
   * gate ranges tiled once per beam (`np.tile`), `ref` flattened, and
   * every gate projected.
   */
  function Curtain(g: Granule, project: Gate -> Position): (c: Columns)
    requires Consistent(g)
    ensures Valid(c) && |c.time| == g.ncol * g.nrow
    ensures forall k :: 0 <= k < |c.time| ==> RowAt(c, k) == CurtainRow(g, project, k)
  {
    var n := g.ncol * g.nrow;
    var rows := seq(n, k requires 0 <= k < n => CurtainRow(g, project, k));
    Columns(seq(n, k requires 0 <= k < n => rows[k].lon),
            seq(n, k requires 0 <= k < n => rows[k].lat),
            seq(n, k requires 0 <= k < n => rows[k].alt),
            seq(n, k requires 0 <= k < n => rows[k].value),
            seq(n, k requires 0 <= k < n => rows[k].time))
  }

  /** Gate `j` of beam `i` is row `i * nrow + j` of the curtain. */
  lemma CurtainLayout(g: Granule, project: Gate -> Position, i: nat, j: nat)
    requires Consistent(g) && i < g.ncol && j < g.nrow
    ensures var k := i * g.nrow + j;
            var p := project(Gate(g.lon[i], g.lat[i], g.alt[i], Rad(g.roll[i]), Rad(g.pitch[i]), Rad(g.head[i]), g.range[j]));
            k < g.ncol * g.nrow
            && CurtainRow(g, project, k) == Row(Num(p.lon), Num(p.lat), Num(p.alt), g.ref[k], Trunc(g.secs[i]) + BASE_TIME)
  {
    IndexSplit(i, j, g.ncol, g.nrow);
  }

  /** The curtain sorted by time and cut to finite reflectivity above ground. */
  function KeptCurtain(g: Granule, project: Gate -> Position): (r: Columns)
    requires Consistent(g)
    ensures Valid(r)
  {
    var sorted := SortByTime(Curtain(g, project));
    Filter(sorted, MaskOf(sorted, FiniteAboveGround))
  }

  /** `col[::k]` for all five columns. */
  function StrideColumns(c: Columns, k: nat): (r: Columns)
    requires Valid(c) && k > 0
    ensures Valid(r) && |r.time| == CeilDiv(|c.time|, k)
    ensures forall j :: 0 <= j < |r.time| ==> j * k < |c.time| && RowAt(r, j) == RowAt(c, j * k)
  {
    StrideIndex(c.lon, k);
    StrideIndex(c.lat, k);
    StrideIndex(c.alt, k);
    StrideIndex(c.value, k);
    StrideIndex(c.time, k);
    Columns(Stride(c.lon, k), Stride(c.lat, k), Stride(c.alt, k), Stride(c.value, k), Stride(c.time, k))
  }

  /** `_transformation`: every 20th row of the kept curtain. */
  function Transformation(g: Granule, project: Gate -> Position): (r: Columns)
    requires Consistent(g)
    ensures Valid(r)
    ensures |r.time| == CeilDiv(|KeptCurtain(g, project).time|, SAMPLE)
    ensures forall j :: 0 <= j < |r.time| ==>
              j * SAMPLE < |KeptCurtain(g, project).time|
              && RowAt(r, j) == RowAt(KeptCurtain(g, project), j * SAMPLE)
  {
    StrideColumns(KeptCurtain(g, project), SAMPLE)
  }

  /**
   * The kept curtain holds exactly the curtain rows with finite
   * reflectivity above ground, in non-decreasing time.
   */
  lemma KeptCurtainExact(g: Granule, project: Gate -> Position)
    requires Consistent(g)
    ensures var kept := KeptCurtain(g, project);
            Sorted(kept.time)
            && (forall j :: 0 <= j < |kept.time| ==>
                  FiniteAboveGround(RowAt(kept, j))
                  && exists k :: 0 <= k < g.ncol * g.nrow && RowAt(kept, j) == CurtainRow(g, project, k))
            && (forall k :: 0 <= k < g.ncol * g.nrow && FiniteAboveGround(CurtainRow(g, project, k)) ==>
                  exists j :: 0 <= j < |kept.time| && RowAt(kept, j) == CurtainRow(g, project, k))
  {
    var c := Curtain(g, project);
    var sorted := SortByTime(c);
    var mask := MaskOf(sorted, FiniteAboveGround);
    var kept := Filter(sorted, mask);
    var q :| IsPermutation(q, |c.time|) && RowsFrom(sorted, c, q);
    FilterExact(sorted, FiniteAboveGround);
    FilterKeepsOrder(sorted, mask);
    forall j | 0 <= j < |kept.time|
      ensures exists k :: 0 <= k < g.ncol * g.nrow && RowAt(kept, j) == CurtainRow(g, project, k)
    {
      var s := Kept(mask)[j];
      assert RowAt(kept, j) == RowAt(sorted, s) == RowAt(c, q[s]);
    }
    forall k | 0 <= k < g.ncol * g.nrow && FiniteAboveGround(CurtainRow(g, project, k))
      ensures exists j :: 0 <= j < |kept.time| && RowAt(kept, j) == CurtainRow(g, project, k)
    {
      PermutationHits(sorted, c, q, k);
      var s :| 0 <= s < |sorted.time| && RowAt(sorted, s) == RowAt(c, k);
      assert FiniteAboveGround(RowAt(sorted, s));
    }
  }

  /** Sampling a time-ordered table keeps it time-ordered. */
  lemma StrideSorted(c: Columns, k: nat)
    requires Valid(c) && k > 0 && Sorted(c.time)
    ensures Sorted(StrideColumns(c, k).time)
  {
    var r := StrideColumns(c, k);
    forall a, b | 0 <= a < b < |r.time| ensures r.time[a] <= r.time[b] {
      assert RowAt(r, a) == RowAt(c, a * k) && RowAt(r, b) == RowAt(c, b * k);
      MulMono(k, a, b);
    }
  }

  /** The output frame is time-ordered and every row is a kept curtain row. */
  lemma TransformationRows(g: Granule, project: Gate -> Position)
    requires Consistent(g)
    ensures var r := Transformation(g, project);
            Sorted(r.time)
            && forall j :: 0 <= j < |r.time| ==>
                 FiniteAboveGround(RowAt(r, j))
                 && exists k :: 0 <= k < g.ncol * g.nrow && RowAt(r, j) == CurtainRow(g, project, k)
  {
    var r := Transformation(g, project);
    var kept := KeptCurtain(g, project);
    KeptCurtainExact(g, project);
    StrideSorted(kept, SAMPLE);
    forall j | 0 <= j < |r.time|
      ensures FiniteAboveGround(RowAt(r, j))
              && exists k :: 0 <= k < g.ncol * g.nrow && RowAt(r, j) == CurtainRow(g, project, k)
    {
      assert RowAt(r, j) == RowAt(kept, j * SAMPLE);
    }
  }
}

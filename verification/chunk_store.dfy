/**
 * The `ingest` step shared by the CRS, CPL, NPOL and dropsonde scripts:
 * the parallel columns are sorted by time with one shared permutation,
 * filtered with one row mask, indexed every 262144 rows by
 * `(row offset, absolute time)`, and stored with times rebased to the
 * earliest time (`astype(np.int32)`). The projection of the beam
 * geometry (`down_vector`) happens before and is not modelled; the
 * columns arrive already projected.
 */
module ChunkStore {
  import opened Wrappers
  import opened Arith
  import opened Seqs
  import opened Floats

  /** Rows per chunk of the store and per entry of its chunk index. */
  const CHUNK: nat := 262144

  const TWO31: int := 0x8000_0000
  const TWO32: int := 0x1_0000_0000

  /** The five parallel columns of a store; `time` is in epoch seconds. */
  datatype Columns = Columns(lon: seq<F64>, lat: seq<F64>, alt: seq<F64>, value: seq<F64>, time: seq<int>)

  datatype Row = Row(lon: F64, lat: F64, alt: F64, value: F64, time: int)

  predicate Valid(c: Columns) {
    |c.lon| == |c.lat| == |c.alt| == |c.value| == |c.time|
  }

  function RowAt(c: Columns, i: nat): Row
    requires Valid(c) && i < |c.time|
  {
    Row(c.lon[i], c.lat[i], c.alt[i], c.value[i], c.time[i])
  }

  /** Row i of `r` is row `idx[i]` of `c`, for every i. */
  ghost predicate RowsFrom(r: Columns, c: Columns, idx: seq<nat>) {
    Valid(r) && Valid(c) && |idx| == |r.time|
    && forall i :: 0 <= i < |idx| ==> idx[i] < |c.time| && RowAt(r, i) == RowAt(c, idx[i])
  }

  /** Fancy indexing of every column with the same index array. */
  function Pick(c: Columns, idx: seq<nat>): (r: Columns)
    requires Valid(c)
    requires forall i :: 0 <= i < |idx| ==> idx[i] < |c.time|
    ensures RowsFrom(r, c, idx)
  {
    Columns(Gather(c.lon, idx), Gather(c.lat, idx), Gather(c.alt, idx), Gather(c.value, idx), Gather(c.time, idx))
  }

  // -------------------------------------------------------------------
  // Sort, mask
  // -------------------------------------------------------------------

  /**
   * `sort_idx = np.argsort(time)` applied to all five columns: the rows
   * are rearranged by one permutation, and time becomes non-decreasing.
   */
  function SortByTime(c: Columns): (r: Columns)
    requires Valid(c)
    ensures |r.time| == |c.time|
    ensures Sorted(r.time)
    ensures exists p :: IsPermutation(p, |c.time|) && RowsFrom(r, c, p)
  {
    var p := ArgSort(c.time);
    PermutationBounded(p, |c.time|);
    var r := Pick(c, p);
    assert forall a, b :: 0 <= a < b < |r.time| ==> r.time[a] <= r.time[b];
    r
  }

  /** Every input row reappears somewhere in a permuted table. */
  lemma PermutationHits(r: Columns, c: Columns, p: seq<nat>, i: nat)
    requires IsPermutation(p, |c.time|) && RowsFrom(r, c, p) && i < |c.time|
    ensures exists k :: 0 <= k < |r.time| && RowAt(r, k) == RowAt(c, i)
  {
    assert Range(|c.time|)[i] == i;
    assert i in multiset(Range(|c.time|));
    assert i in multiset(p);
    var k :| 0 <= k < |p| && p[k] == i;
  }

  /** `col[mask]` for every column with the same mask. */
  function Filter(c: Columns, mask: seq<bool>): (r: Columns)
    requires Valid(c) && |mask| == |c.time|
    ensures Valid(r) && |r.time| == Count(mask)
    ensures RowsFrom(r, c, Kept(mask))
  {
    SelectIsKept(c.lon, mask);
    SelectIsKept(c.lat, mask);
    SelectIsKept(c.alt, mask);
    SelectIsKept(c.value, mask);
    SelectIsKept(c.time, mask);
    Columns(Select(c.lon, mask), Select(c.lat, mask), Select(c.alt, mask), Select(c.value, mask),
            Select(c.time, mask))
  }

  /** Masking keeps the rows in their order, so a time-sorted table stays sorted. */
  lemma FilterKeepsOrder(c: Columns, mask: seq<bool>)
    requires Valid(c) && |mask| == |c.time| && Sorted(c.time)
    ensures Sorted(Filter(c, mask).time)
  {
    KeptIncreasing(mask);
    var r := Filter(c, mask);
    var idx := Kept(mask);
    forall a, b | 0 <= a < b < |r.time| ensures r.time[a] <= r.time[b] {
      assert RowAt(r, a) == RowAt(c, idx[a]) && RowAt(r, b) == RowAt(c, idx[b]);
    }
  }

  /** A row-wise mask. */
  function MaskOf(c: Columns, keep: Row -> bool): (mask: seq<bool>)
    requires Valid(c)
    ensures |mask| == |c.time|
    ensures forall i :: 0 <= i < |c.time| ==> mask[i] == keep(RowAt(c, i))
  {
    seq(|c.time|, i requires 0 <= i < |c.time| => keep(RowAt(c, i)))
  }

  /**
   * Filtering by a row predicate keeps exactly the rows that satisfy it:
   * every kept row satisfies it and every satisfying row is kept.
   */
  lemma FilterExact(c: Columns, keep: Row -> bool)
    requires Valid(c)
    ensures var r := Filter(c, MaskOf(c, keep));
            (forall j :: 0 <= j < |r.time| ==> keep(RowAt(r, j)))
            && (forall i :: 0 <= i < |c.time| && keep(RowAt(c, i)) ==>
                  exists j :: 0 <= j < |r.time| && RowAt(r, j) == RowAt(c, i))
  {
    var mask := MaskOf(c, keep);
    var r := Filter(c, mask);
    forall i | 0 <= i < |c.time| && keep(RowAt(c, i))
      ensures exists j :: 0 <= j < |r.time| && RowAt(r, j) == RowAt(c, i)
    {
      KeptComplete(mask, i);
      var j :| 0 <= j < |Kept(mask)| && Kept(mask)[j] == i;
      assert RowAt(r, j) == RowAt(c, i);
    }
  }

  // -------------------------------------------------------------------
  // The masks of the ingest scripts
  // -------------------------------------------------------------------

  /** CRS, CPL and HIWRAP: `np.logical_and(np.isfinite(ref), alt > 0)`. */
  predicate FiniteAboveGround(r: Row) {
    IsFinite(r.value) && Gt(r.alt, 0.0)
  }

  /**
   * The dropsonde mask as written:
   * `np.logical_and(alt != -999.0, lon != -999.0, lat != -999.0)` passes the
   * lat comparison as numpy's `out` argument, so latitude is never checked.
   */
  predicate DropsondeKeepAsWritten(r: Row) {
    Ne(r.alt, -999.0) && Ne(r.lon, -999.0)
  }

  /** The dropsonde mask with the missing-latitude test the call meant to make. */
  predicate DropsondeKeep(r: Row) {
    Ne(r.alt, -999.0) && Ne(r.lon, -999.0) && Ne(r.lat, -999.0)
  }

  /** A sounding row with a missing latitude passes the mask as written. */
  lemma DropsondeLatitudeIgnored()
    ensures var r := Row(Num(10.0), Num(-999.0), Num(500.0), Num(25.0), 0);
            DropsondeKeepAsWritten(r) && !DropsondeKeep(r)
  {
  }

  /** The corrected mask keeps no row with a missing coordinate. */
  lemma DropsondeKeepComplete(r: Row)
    ensures DropsondeKeep(r) <==>
              DropsondeKeepAsWritten(r) && r.lat != Num(-999.0)
  {
  }

  // -------------------------------------------------------------------
  // Chunk index and epoch
  // -------------------------------------------------------------------

  datatype ChunkEntry = ChunkEntry(offset: nat, time: int)

  function Zip(offsets: seq<nat>, times: seq<int>): (r: seq<ChunkEntry>)
    requires |offsets| == |times|
    ensures |r| == |offsets|
    ensures forall i :: 0 <= i < |r| ==> r[i] == ChunkEntry(offsets[i], times[i])
  {
    seq(|offsets|, i requires 0 <= i < |offsets| => ChunkEntry(offsets[i], times[i]))
  }

  /**
   * `idx = np.arange(0, n, chunk)`, `chunks = (idx, time[idx])`: one entry
   * per started chunk, holding the chunk's first row and its absolute time.
   */
  function ChunkIndex(time: seq<int>, chunk: nat): (r: seq<ChunkEntry>)
    requires chunk > 0
    ensures |r| == CeilDiv(|time|, chunk)
    ensures forall i :: 0 <= i < |r| ==> r[i].offset == i * chunk < |time| && r[i].time == time[i * chunk]
  {
    StrideIndex(Range(|time|), chunk);
    StrideIndex(time, chunk);
    Zip(Stride(Range(|time|), chunk), Stride(time, chunk))
  }

  /** Every row lies in exactly the chunk `k / chunk` of the index. */
  lemma ChunkIndexCovers(time: seq<int>, chunk: nat, k: nat)
    requires chunk > 0 && k < |time|
    ensures var r := ChunkIndex(time, chunk);
            k / chunk < |r| && r[k / chunk].offset <= k < r[k / chunk].offset + chunk
  {
    var r := ChunkIndex(time, chunk);
    DivBounds(k, chunk);
    if k / chunk >= |r| {
      CeilDivLeast(|time|, chunk);
      MulMono(chunk, |r|, k / chunk);
    }
  }

  /** On a sorted store the index's times are sorted too. */
  lemma ChunkIndexSorted(time: seq<int>, chunk: nat)
    requires chunk > 0 && Sorted(time)
    ensures var r := ChunkIndex(time, chunk);
            forall a, b :: 0 <= a < b < |r| ==> r[a].time <= r[b].time
  {
    var r := ChunkIndex(time, chunk);
    forall a, b | 0 <= a < b < |r| ensures r[a].time <= r[b].time {
      MulMono(chunk, a, b);
    }
  }

  /** `astype(np.int32)`: keeps the low 32 bits as a signed value. */
  function WrapI32(v: int): (w: int)
    ensures -TWO31 <= w < TWO31
    ensures (w - v) % TWO32 == 0
    ensures -TWO31 <= v < TWO31 ==> w == v
  {
    var u := v % TWO32;
    if u < TWO31 then u else u - TWO32
  }

  function MinInt(xs: seq<int>): (m: int)
    requires |xs| > 0
    ensures m in xs && forall i :: 0 <= i < |xs| ==> m <= xs[i]
  {
    if |xs| == 1 then xs[0]
    else
      var m := MinInt(xs[1..]);
      if xs[0] <= m then xs[0] else m
  }

  /**
   * `epoch = np.min(n_time)`; `n_time = (n_time - epoch).astype(np.int32)`.
   * `np.min` of an empty array raises.
   */
  function Rebase(time: seq<int>): (r: Result<(int, seq<int>)>)
    ensures r.Ok? <==> |time| > 0
    ensures r.Ok? ==> r.value.0 in time && forall i :: 0 <= i < |time| ==> r.value.0 <= time[i]
    ensures r.Ok? ==> |r.value.1| == |time|
    ensures r.Ok? ==> forall i :: 0 <= i < |time| ==> r.value.1[i] == WrapI32(time[i] - r.value.0)
  {
    if |time| == 0 then Err(EmptyArray)
    else
      var epoch := MinInt(time);
      Ok((epoch, seq(|time|, i requires 0 <= i < |time| => WrapI32(time[i] - epoch))))
  }

  /**
   * When the data spans less than 2^31 seconds, every stored time is
   * non-negative and adding the epoch back gives the absolute time.
   */
  lemma RebaseRecovers(time: seq<int>)
    requires |time| > 0
    requires forall i, j :: 0 <= i < |time| && 0 <= j < |time| ==> time[i] - time[j] < TWO31
    ensures var (epoch, stored) := Rebase(time).value;
            forall i :: 0 <= i < |time| ==> 0 <= stored[i] && stored[i] + epoch == time[i]
  {
    var (epoch, stored) := Rebase(time).value;
    forall i | 0 <= i < |time| ensures 0 <= stored[i] && stored[i] + epoch == time[i] {
      var j :| 0 <= j < |time| && time[j] == epoch;
    }
  }

  /** On a sorted column the epoch is the first time. */
  lemma RebaseSortedEpoch(time: seq<int>)
    requires |time| > 0 && Sorted(time)
    ensures Rebase(time).value.0 == time[0]
  {
  }

  // -------------------------------------------------------------------
  // The ingest scripts
  // -------------------------------------------------------------------

  /** The scripts whose `ingest` builds a chunked store. */
  datatype Pipeline =
    | CrsOlympex   // olympex/CRS/crs_to_json.py
    | CrsGoesr     // goesr/crs.py
    | CplHs3       // hs3/CPL/cpl_to_json.py
    | CplOlympex   // olympex/CPL/cpl_to_json.py
    | NpolOlympex  // olympex/NPOL/npol_to_json.py
    | Dropsonde    // cpexaw/DROPSONDE/helper/ingestToZarr.py

  /** The fixed metadata each script stores next to `epoch`. */
  datatype Attrs = Attrs(campaign: string, collection: string, dataset: string,
                         variables: seq<string>, renderers: seq<string>, epoch: int)

  function Metadata(p: Pipeline, epoch: int): Attrs {
    match p
    case CrsOlympex => Attrs("Olympex", "AirborneRadar", "gpmValidationOlympexcrs", ["zku"], ["point_cloud"], epoch)
    case CrsGoesr => Attrs("GOES-R PLT", "AirborneRadar", "goesrpltcrs", ["ref"], ["point_cloud"], epoch)
    case CplHs3 => Attrs("Hs3", "AirborneRadar", "hs3cpl", ["ATB_1064"], ["point_cloud"], epoch)
    case CplOlympex => Attrs("Olympex", "AirborneRadar", "gpmValidationOlympexcrs", ["ref"], ["point_cloud"], epoch)
    case NpolOlympex => Attrs("Olympex", "AirborneRadar", "gpmValidationOlympexcrs", ["ref"], ["point_cloud"], epoch)
    case Dropsonde => Attrs("CPEX-AW", "AirborneRadar", "cpexaw_dropsonde", ["zku"], ["point_cloud"], epoch)
  }

  /**
   * Which rows a script keeps, as each script is written: NPOL keeps every
   * gate, and the dropsonde script never applies its latitude test.
   */
  predicate Keep(p: Pipeline, r: Row) {
    match p
    case NpolOlympex => true
    case Dropsonde => DropsondeKeepAsWritten(r)
    case _ => FiniteAboveGround(r)
  }

  /** The Olympex CPL script stores `atb * 10000`, scaled after sorting. */
  function Prepare(p: Pipeline, c: Columns): (r: Columns)
    requires Valid(c)
    ensures Valid(r) && r.(value := c.value) == c
    ensures p != CplOlympex ==> r == c
    ensures p == CplOlympex ==> forall i :: 0 <= i < |c.value| ==> r.value[i] == Scale(c.value[i], 10000.0)
  {
    if p == CplOlympex then
      c.(value := seq(|c.value|, i requires 0 <= i < |c.value| => Scale(c.value[i], 10000.0)))
    else c
  }

  datatype Store = Store(rows: Columns, chunkId: seq<ChunkEntry>, attrs: Attrs)

  /** The input after the shared sort and the script's scaling. */
  function Arranged(p: Pipeline, c: Columns): (r: Columns)
    requires Valid(c)
    ensures Valid(r) && |r.time| == |c.time|
  {
    Prepare(p, SortByTime(c))
  }

  /** The script's row mask over a table. */
  function KeepMask(p: Pipeline, c: Columns): (mask: seq<bool>)
    requires Valid(c)
    ensures |mask| == |c.time|
    ensures forall i :: 0 <= i < |c.time| ==> mask[i] == Keep(p, RowAt(c, i))
  {
    MaskOf(c, (row: Row) => Keep(p, row))
  }

  /** The rows that survive the script's mask, in time order. */
  function KeptRows(p: Pipeline, c: Columns): (r: Columns)
    requires Valid(c)
    ensures Valid(r)
  {
    var sorted := Arranged(p, c);
    Filter(sorted, KeepMask(p, sorted))
  }

  /**
   * One `ingest` call: sort, (scale,) mask, index, rebase. Fails, as
   * `np.min` does, when no row survives the mask.
   */
  function Ingest(p: Pipeline, c: Columns): (r: Result<Store>)
    requires Valid(c)
  {
    StoreRows(p, KeptRows(p, c))
  }

  /** The store written for rows already kept and sorted: rebased times, chunk index, metadata. */
  function StoreRows(p: Pipeline, kept: Columns): (r: Result<Store>) {
    match Rebase(kept.time)
    case Err(e) => Err(e)
    case Ok((epoch, stored)) =>
      Ok(Store(kept.(time := stored), ChunkIndex(kept.time, CHUNK), Metadata(p, epoch)))
  }

  /**
   * The kept rows are exactly the sorted input rows that pass the
   * script's mask, and their absolute times are non-decreasing.
   */
  lemma KeptRowsExact(p: Pipeline, c: Columns)
    requires Valid(c)
    ensures var sorted := Arranged(p, c);
            var kept := KeptRows(p, c);
            (forall j :: 0 <= j < |kept.time| ==> Keep(p, RowAt(kept, j)))
            && (forall i :: 0 <= i < |sorted.time| && Keep(p, RowAt(sorted, i)) ==>
                  exists j :: 0 <= j < |kept.time| && RowAt(kept, j) == RowAt(sorted, i))
            && Sorted(kept.time)
  {
    var sorted := Arranged(p, c);
    FilterExact(sorted, (row: Row) => Keep(p, row));
    FilterKeepsOrder(sorted, KeepMask(p, sorted));
  }

  /**
   * What an ingest stores: it fails exactly when no row passes the mask;
   * otherwise the chunk index holds one entry per 262144 stored rows with
   * the absolute time of the chunk's first row, `attrs.epoch` is the
   * earliest kept time, and each stored time is the absolute time minus
   * the epoch, wrapped to int32.
   */
  lemma IngestStores(p: Pipeline, c: Columns)
    requires Valid(c)
    ensures StoresKept(p, KeptRows(p, c), Ingest(p, c))
  {
    KeptRowsSorted(p, c);
    StoreRowsSpec(p, KeptRows(p, c));
  }

  /**
   * `r` is the store of the kept rows: present exactly when a row is kept,
   * one index entry per chunk, the earliest time as epoch, every other
   * column as kept and every time rebased and wrapped to int32.
   */
  predicate StoresKept(p: Pipeline, kept: Columns, r: Result<Store>) {
    (r.Ok? <==> |kept.time| > 0)
    && (r.Ok? ==>
          |r.value.chunkId| == CeilDiv(|kept.time|, CHUNK)
          && (forall k :: 0 <= k < |r.value.chunkId| ==>
                r.value.chunkId[k] == ChunkEntry(k * CHUNK, kept.time[k * CHUNK]))
          && r.value.attrs == Metadata(p, kept.time[0])
          && r.value.rows.(time := kept.time) == kept
          && |r.value.rows.time| == |kept.time|
          && forall j :: 0 <= j < |kept.time| ==>
               r.value.rows.time[j] == WrapI32(kept.time[j] - kept.time[0]))
  }

  lemma KeptRowsSorted(p: Pipeline, c: Columns)
    requires Valid(c)
    ensures Sorted(KeptRows(p, c).time)
  {
    var sorted := Arranged(p, c);
    FilterKeepsOrder(sorted, KeepMask(p, sorted));
  }

  lemma StoreRowsSpec(p: Pipeline, kept: Columns)
    requires Sorted(kept.time)
    ensures StoresKept(p, kept, StoreRows(p, kept))
  {
    if |kept.time| > 0 {
      RebaseSortedEpoch(kept.time);
      var rb := Rebase(kept.time).value;
      assert StoreRows(p, kept) == Ok(Store(kept.(time := rb.1), ChunkIndex(kept.time, CHUNK), Metadata(p, rb.0)));
    }
  }

  /** Scaling acts row by row, so it commutes with picking rows. */
  lemma PrepareRows(p: Pipeline, s: Columns, c: Columns, q: seq<nat>)
    requires RowsFrom(s, c, q)
    ensures RowsFrom(Prepare(p, s), Prepare(p, c), q)
  {
    var ps := Prepare(p, s);
    var pc := Prepare(p, c);
    forall i | 0 <= i < |q| ensures q[i] < |pc.time| && RowAt(ps, i) == RowAt(pc, q[i]) {
      assert RowAt(s, i) == RowAt(c, q[i]);
      assert ps.value[i] == pc.value[q[i]];
    }
  }

  /** Some input row passes the mask exactly when the ingest succeeds. */
  lemma IngestSucceedsIff(p: Pipeline, c: Columns)
    requires Valid(c)
    ensures Ingest(p, c).Ok? <==> exists i :: 0 <= i < |c.time| && Keep(p, RowAt(Prepare(p, c), i))
  {
    KeptNonEmptyIff(p, c);
    IngestStores(p, c);
  }

  lemma KeptNonEmptyIff(p: Pipeline, c: Columns)
    requires Valid(c)
    ensures |KeptRows(p, c).time| > 0 <==> exists i :: 0 <= i < |c.time| && Keep(p, RowAt(Prepare(p, c), i))
  {
    var s := SortByTime(c);
    var q :| IsPermutation(q, |c.time|) && RowsFrom(s, c, q);
    PrepareRows(p, s, c, q);
    var a := Arranged(p, c);
    assert a == Prepare(p, s);
    var pc := Prepare(p, c);
    var kept := KeptRows(p, c);
    var idx := Kept(KeepMask(p, a));
    assert kept == Filter(a, KeepMask(p, a));
    KeptRowsExact(p, c);
    assert RowsFrom(kept, a, idx);
    HitIff(a, pc, kept, q, p, idx);
  }

  /**
   * A filter of a permuted table is non-empty exactly when some row of the
   * original table passes the filter.
   */
  lemma HitIff(a: Columns, c: Columns, kept: Columns, q: seq<nat>, p: Pipeline, idx: seq<nat>)
    requires IsPermutation(q, |c.time|) && RowsFrom(a, c, q) && RowsFrom(kept, a, idx)
    requires forall j :: 0 <= j < |kept.time| ==> Keep(p, RowAt(kept, j))
    requires forall i :: 0 <= i < |a.time| && Keep(p, RowAt(a, i)) ==>
               exists j :: 0 <= j < |kept.time| && RowAt(kept, j) == RowAt(a, i)
    ensures |kept.time| > 0 <==> exists i :: 0 <= i < |c.time| && Keep(p, RowAt(c, i))
  {
    if exists i :: 0 <= i < |c.time| && Keep(p, RowAt(c, i)) {
      var i :| 0 <= i < |c.time| && Keep(p, RowAt(c, i));
      PermutationHits(a, c, q, i);
      var k :| 0 <= k < |a.time| && RowAt(a, k) == RowAt(c, i);
      assert Keep(p, RowAt(a, k));
    }
    if |kept.time| > 0 {
      assert Keep(p, RowAt(kept, 0));
      assert RowAt(kept, 0) == RowAt(a, idx[0]) == RowAt(c, q[idx[0]]);
    }
  }
}

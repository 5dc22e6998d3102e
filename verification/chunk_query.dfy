/**
 * `generate_point_cloud` of utils/point_cloud.py: find the rows of a
 * chunked store that may fall in an absolute time window `[epoch, end]`
 * from its chunk index, read that row range, keep the rows whose time
 * lies in the window, and cut the result into tiles of 530000 rows, one
 * task per tile.
 *
 * The store's rows are referred to by position: a query yields the
 * positions it keeps, in order. The lookup as written reads one row too
 * few when the window reaches past the last chunk's first time, and its
 * strict comparisons drop rows whose time equals a window end at a chunk
 * boundary; `Query` is the lookup with both corrected, and it returns
 * exactly the rows in the window.
 */
module ChunkQuery {
  import opened Wrappers
  import opened Arith
  import opened Seqs
  import opened ChunkStore
  import opened Floats
  import Manifest

  /** Rows per point-cloud tile. */
  const TILE_ROWS: nat := 530000

  /** The absolute time of stored row i. */
  function AbsTime(s: Store, i: nat): int
    requires i < |s.rows.time|
  {
    s.rows.time[i] + s.attrs.epoch
  }

  /**
   * A store as an ingest leaves it: rows sorted by time, and one index
   * entry per `chunk` rows holding the chunk's first row and its absolute
   * time.
   */
  ghost predicate Indexed(s: Store, chunk: nat) {
    chunk > 0 && Valid(s.rows) && Sorted(s.rows.time)
    && |s.chunkId| == CeilDiv(|s.rows.time|, chunk)
    && forall k :: 0 <= k < |s.chunkId| ==>
         k * chunk < |s.rows.time| && s.chunkId[k] == ChunkEntry(k * chunk, AbsTime(s, k * chunk))
  }

  /** The mask `time >= epoch and time <= end` over every stored row. */
  function WindowMask(s: Store, epoch: int, end: int): (m: seq<bool>)
    ensures |m| == |s.rows.time|
    ensures forall i :: 0 <= i < |m| ==> m[i] == (epoch <= AbsTime(s, i) <= end)
  {
    seq(|s.rows.time|, i requires 0 <= i < |s.rows.time| => epoch <= AbsTime(s, i) <= end)
  }

  /** The reference answer: every stored row whose time lies in `[epoch, end]`, in order. */
  function InWindow(s: Store, epoch: int, end: int): (rows: seq<nat>)
    ensures forall j :: 0 <= j < |rows| ==> rows[j] < |s.rows.time| && epoch <= AbsTime(s, rows[j]) <= end
  {
    Kept(WindowMask(s, epoch, end))
  }

  /** Reading rows `[a, b)` and keeping those in the window; positions are the store's. */
  function ReadWindow(s: Store, a: nat, b: nat, epoch: int, end: int): (rows: seq<nat>)
    ensures forall j :: 0 <= j < |rows| ==> a <= rows[j] < b && rows[j] < |s.rows.time|
  {
    var slice := PySlice(s.rows.time, a, b);
    var mask := seq(|slice|, i requires 0 <= i < |slice| =>
                      epoch - s.attrs.epoch <= slice[i] <= end - s.attrs.epoch);
    Offset(Kept(mask), a)
  }

  function ChunkTimes(chunks: seq<ChunkEntry>, test: int -> bool): (m: seq<bool>)
    ensures |m| == |chunks|
    ensures forall k :: 0 <= k < |chunks| ==> m[k] == test(chunks[k].time)
  {
    seq(|chunks|, k requires 0 <= k < |chunks| => test(chunks[k].time))
  }

  /**
   * The row range as written:
   * `id = argmax(chunk_id[:, 1] > epoch) - 1`, start at that chunk (the
   * first chunk when id is -1); `id = num_chunks - argmax(chunk_id[::-1, 1] < end)`,
   * stop at that chunk, or at `time.size - 1` when id is past the last
   * chunk. `chunk_id[0]` of an empty index raises.
   */
  function BoundsAsWritten(s: Store, epoch: int, end: int): (r: Result<(nat, nat)>)
    ensures r.Ok? <==> |s.chunkId| > 0
  {
    var chunks := s.chunkId;
    if |chunks| == 0 then Err(IndexOutOfRange)
    else
      var first := ArgMax(ChunkTimes(chunks, t => t > epoch)) - 1;
      var start := chunks[if first < 0 then 0 else first].offset;
      var last := LastAsWritten(chunks, end);
      // `time.size - 1` is -1 on an empty store, and a slice ending at -1 of
      // an empty array is empty, as one ending at 0 is.
      var stop := if last < |chunks| then chunks[last].offset
                  else if |s.rows.time| == 0 then 0 else |s.rows.time| - 1;
      Ok((start, stop))
  }

  /**
   * `num_chunks - argmax(chunk_id[::-1, 1] < end)`: past the last chunk
   * exactly when the last chunk starts before `end` or no chunk does.
   */
  function LastAsWritten(chunks: seq<ChunkEntry>, end: int): (last: nat)
    requires |chunks| > 0
    ensures 1 <= last <= |chunks|
    ensures chunks[|chunks| - 1].time < end ==> last == |chunks|
  {
    var rm := Reverse(ChunkTimes(chunks, t => t < end));
    assert chunks[|chunks| - 1].time < end ==> rm[0];
    |chunks| - ArgMax(rm)
  }

  function QueryAsWritten(s: Store, epoch: int, end: int): (r: Result<seq<nat>>)
    ensures r.Ok? <==> |s.chunkId| > 0
  {
    var (start, stop) :- BoundsAsWritten(s, epoch, end);
    Ok(ReadWindow(s, start, stop, epoch, end))
  }

  /**
   * The corrected row range: start at the chunk before the first chunk
   * whose time reaches `epoch`, stop at the first chunk whose time is past
   * `end`, or at the end of the store.
   */
  function Bounds(s: Store, epoch: int, end: int): (r: Result<(nat, nat)>)
    ensures r.Ok? <==> |s.chunkId| > 0
  {
    var chunks := s.chunkId;
    if |chunks| == 0 then Err(IndexOutOfRange)
    else
      var first := ArgMax(ChunkTimes(chunks, t => t >= epoch)) - 1;
      var start := chunks[if first < 0 then 0 else first].offset;
      var last := |chunks| - ArgMax(Reverse(ChunkTimes(chunks, t => t <= end)));
      var stop := if last < |chunks| then chunks[last].offset else |s.rows.time|;
      Ok((start, stop))
  }

  function Query(s: Store, epoch: int, end: int): (r: Result<seq<nat>>)
    ensures r.Ok? <==> |s.chunkId| > 0
  {
    var (start, stop) :- Bounds(s, epoch, end);
    Ok(ReadWindow(s, start, stop, epoch, end))
  }

  // -------------------------------------------------------------------
  // The corrected query is exact
  // -------------------------------------------------------------------

  /** On a sorted store, rows before row k are no later than it. */
  lemma SortedBefore(s: Store, i: nat, k: nat)
    requires Sorted(s.rows.time) && i <= k < |s.rows.time|
    ensures AbsTime(s, i) <= AbsTime(s, k)
  {
  }

  /** No row before the corrected start lies in the window. */
  lemma StartSound(s: Store, chunk: nat, epoch: int, end: int)
    requires Indexed(s, chunk) && |s.chunkId| > 0
    ensures var (start, _) := Bounds(s, epoch, end).value;
            start < |s.rows.time|
            && forall i :: 0 <= i < start ==> AbsTime(s, i) < epoch
  {
    var chunks := s.chunkId;
    var m := ChunkTimes(chunks, t => t >= epoch);
    var k := ArgMax(m);
    var (start, _) := Bounds(s, epoch, end).value;
    if FirstTrue(m).Some? && k > 0 {
      assert !m[k - 1];
      assert start == (k - 1) * chunk;
      forall i | 0 <= i < start ensures AbsTime(s, i) < epoch {
        SortedBefore(s, i, (k - 1) * chunk);
      }
    } else {
      assert start == chunks[0].offset == 0;
    }
  }

  /** No row from the corrected stop on lies in the window. */
  lemma StopSound(s: Store, chunk: nat, epoch: int, end: int)
    requires Indexed(s, chunk) && |s.chunkId| > 0
    ensures var (_, stop) := Bounds(s, epoch, end).value;
            stop <= |s.rows.time|
            && forall i :: stop <= i < |s.rows.time| ==> AbsTime(s, i) > end
  {
    var chunks := s.chunkId;
    var m := ChunkTimes(chunks, t => t <= end);
    var k := ArgMax(Reverse(m));
    var last := |chunks| - k;
    var (_, stop) := Bounds(s, epoch, end).value;
    if last < |chunks| {
      assert FirstTrue(Reverse(m)).Some? && k > 0;
      assert !Reverse(m)[k - 1];
      assert !m[last];
      assert stop == last * chunk;
      forall i | stop <= i < |s.rows.time| ensures AbsTime(s, i) > end {
        SortedBefore(s, last * chunk, i);
      }
    }
  }

  /** The rows read between the bounds, masked, are the window mask's kept rows. */
  lemma ReadWindowExact(s: Store, a: nat, b: nat, epoch: int, end: int)
    requires Valid(s.rows) && a <= |s.rows.time| && b <= |s.rows.time|
    requires forall i :: 0 <= i < |s.rows.time| && (i < a || b <= i) ==> !(epoch <= AbsTime(s, i) <= end)
    ensures ReadWindow(s, a, b, epoch, end) == InWindow(s, epoch, end)
  {
    var w := WindowMask(s, epoch, end);
    if a < b {
      var slice := PySlice(s.rows.time, a, b);
      var mask := seq(|slice|, i requires 0 <= i < |slice| =>
                        epoch - s.attrs.epoch <= slice[i] <= end - s.attrs.epoch);
      assert |mask| == b - a;
      forall i | 0 <= i < b - a ensures mask[i] == w[a..b][i] {
        assert slice[i] == s.rows.time[a + i];
      }
      assert mask == w[a..b];
      KeptWindow(w, a, b);
    } else {
      forall i | 0 <= i < |w| ensures !w[i] { }
      KeptNone(w);
    }
  }

  /**
   * On an indexed store the corrected lookup returns exactly the stored
   * rows whose absolute time lies in `[epoch, end]`, in store order.
   */
  lemma QueryExact(s: Store, chunk: nat, epoch: int, end: int)
    requires Indexed(s, chunk) && |s.chunkId| > 0
    ensures Query(s, epoch, end) == Ok(InWindow(s, epoch, end))
  {
    StartSound(s, chunk, epoch, end);
    StopSound(s, chunk, epoch, end);
    var (start, stop) := Bounds(s, epoch, end).value;
    ReadWindowExact(s, start, stop, epoch, end);
  }

  /**
   * An ingest leaves an indexed store whenever the kept rows span less
   * than 2^31 seconds, so that no rebased time wraps.
   */
  lemma IngestIndexed(p: Pipeline, c: Columns)
    requires Valid(c) && Ingest(p, c).Ok?
    requires var kept := KeptRows(p, c).time;
             forall j :: 0 <= j < |kept| ==> kept[j] - kept[0] < TWO31
    ensures Indexed(Ingest(p, c).value, CHUNK)
    ensures |Ingest(p, c).value.chunkId| > 0
  {
    KeptRowsSorted(p, c);
    IngestStores(p, c);
    StoredIndexed(p, KeptRows(p, c), Ingest(p, c).value);
  }

  /** The store of sorted kept rows spanning less than 2^31 seconds is indexed. */
  lemma StoredIndexed(p: Pipeline, kept: Columns, s: Store)
    requires Valid(kept) && Sorted(kept.time) && StoresKept(p, kept, Ok(s))
    requires forall j :: 0 <= j < |kept.time| ==> kept.time[j] - kept.time[0] < TWO31
    ensures Indexed(s, CHUNK) && |s.chunkId| > 0
  {
    assert Valid(s.rows) by { assert s.rows.(time := kept.time) == kept; }
    forall j | 0 <= j < |kept.time| ensures s.rows.time[j] == kept.time[j] - kept.time[0] {
      assert kept.time[0] <= kept.time[j];
    }
    assert s.attrs.epoch == kept.time[0];
    forall k | 0 <= k < |s.chunkId|
      ensures k * CHUNK < |s.rows.time| && s.chunkId[k] == ChunkEntry(k * CHUNK, AbsTime(s, k * CHUNK))
    {
      assert s.chunkId[k] == ChunkEntry(k * CHUNK, kept.time[k * CHUNK]);
    }
    CeilDivLeast(|kept.time|, CHUNK);
  }

  // -------------------------------------------------------------------
  // The lookup as written
  // -------------------------------------------------------------------

  /**
   * When the window reaches past the last chunk's first time, the lookup
   * as written stops at `time.size - 1`, so the last stored row is never
   * returned, even when it lies in the window.
   */
  lemma QueryAsWrittenDropsLastRow(s: Store, chunk: nat, epoch: int, end: int)
    requires Indexed(s, chunk) && |s.chunkId| > 0
    requires s.chunkId[|s.chunkId| - 1].time < end
    ensures |s.rows.time| - 1 !in QueryAsWritten(s, epoch, end).value
    ensures epoch <= AbsTime(s, |s.rows.time| - 1) <= end ==>
              |s.rows.time| - 1 in Query(s, epoch, end).value
  {
    AsWrittenStopsShort(s, chunk, epoch, end);
    if epoch <= AbsTime(s, |s.rows.time| - 1) <= end {
      LastRowInWindow(s, chunk, epoch, end);
    }
  }

  /** The corrected lookup returns the last row whenever its time lies in the window. */
  lemma LastRowInWindow(s: Store, chunk: nat, epoch: int, end: int)
    requires Indexed(s, chunk) && |s.chunkId| > 0
    requires epoch <= AbsTime(s, |s.rows.time| - 1) <= end
    ensures |s.rows.time| - 1 in Query(s, epoch, end).value
  {
    var m := WindowMask(s, epoch, end);
    QueryExact(s, chunk, epoch, end);
    KeptComplete(m, |s.rows.time| - 1);
  }

  /** Past the last chunk's first time, every row the lookup as written returns is before the last row. */
  lemma AsWrittenStopsShort(s: Store, chunk: nat, epoch: int, end: int)
    requires Indexed(s, chunk) && |s.chunkId| > 0
    requires s.chunkId[|s.chunkId| - 1].time < end
    ensures var rows := QueryAsWritten(s, epoch, end).value;
            forall j :: 0 <= j < |rows| ==> rows[j] < |s.rows.time| - 1
  {
    assert 0 < |s.rows.time|;
    var (start, stop) := BoundsAsWritten(s, epoch, end).value;
    assert stop == |s.rows.time| - 1;
  }

  /** A store whose rows carry only the given times; the other columns are NaN. */
  function TimesOnly(time: seq<int>, chunkId: seq<ChunkEntry>): (s: Store)
    ensures Valid(s.rows) && s.rows.time == time && s.attrs.epoch == 0
  {
    var none := seq(|time|, _ => NaN);
    Store(Columns(none, none, none, none, time), chunkId, Metadata(CrsOlympex, 0))
  }

  /** A two-row store in one chunk; the window holds both rows. */
  function TwoRowStore(): Store {
    TimesOnly([0, 1], [ChunkEntry(0, 0)])
  }

  lemma TwoRowStoreFacts()
    ensures Indexed(TwoRowStore(), 2)
    ensures BoundsAsWritten(TwoRowStore(), 0, 10) == Ok((0, 1))
    ensures InWindow(TwoRowStore(), 0, 10) == [0, 1]
  {
    TwoRowStoreIndexed();
    TwoRowStoreBounds();
    TwoRowStoreWindow();
  }

  lemma TwoRowStoreIndexed()
    ensures Indexed(TwoRowStore(), 2)
  {
    assert CeilDiv(2, 2) == 1;
  }

  lemma TwoRowStoreBounds()
    ensures BoundsAsWritten(TwoRowStore(), 0, 10) == Ok((0, 1))
  {
    var s := TwoRowStore();
    assert ChunkTimes(s.chunkId, t => t > 0) == [false];
    assert ChunkTimes(s.chunkId, t => t < 10) == [true];
    assert Reverse([true]) == [true];
    assert ArgMax([true]) == 0;
    assert ArgMax([false]) == 0;
  }

  lemma TwoRowStoreWindow()
    ensures InWindow(TwoRowStore(), 0, 10) == [0, 1]
  {
    var s := TwoRowStore();
    assert WindowMask(s, 0, 10) == [true, true];
    assert Kept([true]) == [0];
    assert [true, true][1..] == [true];
  }

  lemma TwoRowReadFirst()
    ensures ReadWindow(TwoRowStore(), 0, 1, 0, 10) == [0]
  {
    var s := TwoRowStore();
    var slice := PySlice(s.rows.time, 0, 1);
    assert slice == [0];
    var mask := seq(|slice|, i requires 0 <= i < |slice| =>
                      0 - s.attrs.epoch <= slice[i] <= 10 - s.attrs.epoch);
    assert mask == [true];
    assert Kept([true]) == [0];
    assert Offset([0], 0) == [0];
  }

  /** The lookup as written returns only the first row of the two. */
  lemma TwoRowStoreLosesLastRow()
    ensures Indexed(TwoRowStore(), 2)
    ensures QueryAsWritten(TwoRowStore(), 0, 10) == Ok([0])
    ensures Query(TwoRowStore(), 0, 10) == Ok([0, 1])
  {
    TwoRowStoreFacts();
    TwoRowReadFirst();
    QueryExact(TwoRowStore(), 2, 0, 10);
  }

  /** Three rows, one per chunk, times 5, 5 and 6; the window is `[5, 6]`. */
  function TieStore(): Store {
    TimesOnly([5, 5, 6], [ChunkEntry(0, 5), ChunkEntry(1, 5), ChunkEntry(2, 6)])
  }

  lemma TieStoreIndexed()
    ensures Indexed(TieStore(), 1)
  {
    assert CeilDiv(3, 1) == 3;
  }

  lemma TieStoreBoundsAsWritten()
    ensures BoundsAsWritten(TieStore(), 5, 6) == Ok((1, 2))
  {
    var s := TieStore();
    assert ChunkTimes(s.chunkId, t => t > 5) == [false, false, true];
    assert [false, false, true][1..] == [false, true];
    assert [false, true][1..] == [true];
    assert FirstTrue([false, true]) == Some(1);
    assert ArgMax([false, false, true]) == 2;
    assert Reverse(ChunkTimes(s.chunkId, t => t < 6)) == [false, true, true];
    assert [false, true, true][1..] == [true, true];
    assert ArgMax([false, true, true]) == 1;
  }

  lemma TieStoreRead()
    ensures ReadWindow(TieStore(), 1, 2, 5, 6) == [1]
  {
    assert PySlice(TieStore().rows.time, 1, 2) == [5];
    assert Kept([true]) == [0];
  }

  lemma TieStoreWindow()
    ensures InWindow(TieStore(), 5, 6) == [0, 1, 2]
  {
    var s := TieStore();
    assert WindowMask(s, 5, 6) == [true, true, true];
    assert Kept([true]) == [0];
    assert Kept([true, true]) == [0, 1];
  }

  /**
   * The strict comparisons as written start at the second row, because
   * the second chunk's time equals `epoch`, and stop before the third,
   * whose time equals `end`: two of the three rows in the window are lost.
   */
  lemma TieStoreLosesBoundaryRows()
    ensures Indexed(TieStore(), 1)
    ensures QueryAsWritten(TieStore(), 5, 6) == Ok([1])
    ensures Query(TieStore(), 5, 6) == Ok([0, 1, 2])
  {
    TieStoreIndexed();
    TieStoreBoundsAsWritten();
    TieStoreRead();
    TieStoreWindow();
    QueryExact(TieStore(), 1, 5, 6);
  }

  // -------------------------------------------------------------------
  // Tiles of 530000 rows
  // -------------------------------------------------------------------

  function Min(a: nat, b: nat): nat {
    if a <= b then a else b
  }

  /**
   * `for tile in range(ceil(n / 530000))`: rows
   * `[tile * 530000, min(tile * 530000 + 530000, n))`.
   */
  function TileTasks(n: nat): (ts: seq<Manifest.Task>)
    ensures |ts| == CeilDiv(n, TILE_ROWS)
    ensures forall t :: 0 <= t < |ts| ==> ts[t].tile == t && ts[t].start < ts[t].end <= n
  {
    CeilDivLeast(n, TILE_ROWS);
    seq(CeilDiv(n, TILE_ROWS), t requires 0 <= t < CeilDiv(n, TILE_ROWS) =>
      assert t * TILE_ROWS < n by {
        MulMono(TILE_ROWS, t, CeilDiv(n, TILE_ROWS) - 1);
      }
      Manifest.Task(t, t * TILE_ROWS, Min(t * TILE_ROWS + TILE_ROWS, n)))
  }

  /**
   * The tiles cut the rows into consecutive non-empty pieces of at most
   * 530000 rows: the first starts at row 0, each starts where the one
   * before stops, and the last stops at row n.
   */
  lemma TileTasksPartition(n: nat)
    ensures var ts := TileTasks(n);
            (n == 0 <==> |ts| == 0)
            && (|ts| > 0 ==> ts[0].start == 0 && ts[|ts| - 1].end == n)
            && (forall t :: 0 <= t < |ts| - 1 ==> ts[t].end == ts[t + 1].start)
            && (forall t :: 0 <= t < |ts| ==> ts[t].end - ts[t].start <= TILE_ROWS)
  {
    var ts := TileTasks(n);
    CeilDivLeast(n, TILE_ROWS);
    if n == 0 {
      CeilDivZero(TILE_ROWS);
    }
    forall t | 0 <= t < |ts| - 1 ensures ts[t].end == ts[t + 1].start {
      MulSucc(t, TILE_ROWS);
      MulMono(TILE_ROWS, t + 1, |ts| - 1);
    }
    if |ts| > 0 {
      MulSucc(|ts| - 1, TILE_ROWS);
    }
  }

  /** Every row falls in exactly one tile: tile `i / 530000`. */
  lemma TileOfRow(n: nat, i: nat)
    requires i < n
    ensures var ts := TileTasks(n);
            i / TILE_ROWS < |ts| && ts[i / TILE_ROWS].start <= i < ts[i / TILE_ROWS].end
            && forall t :: 0 <= t < |ts| && ts[t].start <= i < ts[t].end ==> t == i / TILE_ROWS
  {
    var ts := TileTasks(n);
    DivBounds(i, TILE_ROWS);
    CeilDivLeast(n, TILE_ROWS);
    MulSucc(i / TILE_ROWS, TILE_ROWS);
    forall t | 0 <= t < |ts| && ts[t].start <= i < ts[t].end ensures t == i / TILE_ROWS {
      MulSucc(t, TILE_ROWS);
      DivUnique(i, TILE_ROWS, t);
    }
  }
}

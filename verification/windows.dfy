/**
 * The time windowing of the GOES-R lightning drivers (LMA, GLM, ISS-LIS)
 * and of the IMPACTS CPL point-cloud driver: where the first and last
 * windows fall, how many there are, which rows each window selects, and
 * which windows produce output.
 *
 * Times of day are `real` seconds; the aircraft start and end times the
 * windows are aligned to are whole seconds (`int`). The S3 file listings
 * the drivers consult are parameters.
 */
module Windows {
  import opened Wrappers
  import opened Arith
  import opened Seqs
  import opened Geo
  import opened Strings

  /** Ten minutes, the alignment of the first and last LMA/GLM windows. */
  const TEN_MINUTES: int := 600

  /** `Tsize`: seconds per LMA/GLM window. */
  const WINDOW_SECONDS: int := 60

  /** `Dt_show`: seconds a window's display interval is stretched by. */
  const DT_SHOW: int := 10

  function MinInt(a: int, b: int): int {
    if a <= b then a else b
  }

  function MinReal(a: real, b: real): real {
    if a <= b then a else b
  }

  // -------------------------------------------------------------------
  // Row subsets by time
  // -------------------------------------------------------------------

  function InclusiveMask(time: seq<real>, lo: real, hi: real): (m: seq<bool>)
    ensures |m| == |time|
    ensures forall i :: 0 <= i < |time| ==> m[i] == (lo <= time[i] <= hi)
  {
    seq(|time|, i requires 0 <= i < |time| => lo <= time[i] <= hi)
  }

  function HalfOpenMask(time: seq<real>, lo: real, hi: real): (m: seq<bool>)
    ensures |m| == |time|
    ensures forall i :: 0 <= i < |time| ==> m[i] == (lo <= time[i] < hi)
  {
    seq(|time|, i requires 0 <= i < |time| => lo <= time[i] < hi)
  }

  /** `Subset3`: the rows with `start <= Time <= end`, in their original order. */
  function Subset(time: seq<real>, lo: real, hi: real): (rows: seq<nat>)
    ensures forall j :: 0 <= j < |rows| ==> rows[j] < |time| && lo <= time[rows[j]] <= hi
  {
    Kept(InclusiveMask(time, lo, hi))
  }

  /** `(Time >= start) & (Time < end)`. */
  function HalfOpenSubset(time: seq<real>, lo: real, hi: real): (rows: seq<nat>)
    ensures forall j :: 0 <= j < |rows| ==> rows[j] < |time| && lo <= time[rows[j]] < hi
  {
    Kept(HalfOpenMask(time, lo, hi))
  }

  /** A subset holds every row in the interval, once, in increasing row order. */
  lemma SubsetExact(time: seq<real>, lo: real, hi: real)
    ensures forall i: nat :: i in Subset(time, lo, hi) <==> i < |time| && lo <= time[i] <= hi
    ensures forall a, b :: 0 <= a < b < |Subset(time, lo, hi)| ==> Subset(time, lo, hi)[a] < Subset(time, lo, hi)[b]
  {
    var m := InclusiveMask(time, lo, hi);
    KeptIncreasing(m);
    forall i: nat | i < |time| && lo <= time[i] <= hi ensures i in Subset(time, lo, hi) {
      KeptComplete(m, i);
    }
  }

  lemma HalfOpenSubsetExact(time: seq<real>, lo: real, hi: real)
    ensures forall i: nat :: i in HalfOpenSubset(time, lo, hi) <==> i < |time| && lo <= time[i] < hi
  {
    var m := HalfOpenMask(time, lo, hi);
    forall i: nat | i < |time| && lo <= time[i] < hi ensures i in HalfOpenSubset(time, lo, hi) {
      KeptComplete(m, i);
    }
  }

  /**
   * Between the first and the last of a list of boundaries, every value
   * lies in some consecutive pair `[b[k], b[k+1])`; the boundaries need
   * not be ordered.
   */
  lemma {:induction false} Bracket(b: seq<real>, t: real)
    requires |b| >= 2 && b[0] <= t < b[|b| - 1]
    ensures exists k :: 0 <= k < |b| - 1 && b[k] <= t < b[k + 1]
    decreases |b|
  {
    if t >= b[1] {
      Bracket(b[1..], t);
      var k :| 0 <= k < |b| - 2 && b[1..][k] <= t < b[1..][k + 1];
      assert b[k + 1] <= t < b[k + 2];
    }
  }

  // -------------------------------------------------------------------
  // Alignment
  // -------------------------------------------------------------------

  /** LMA `sec0 = t0 + (600 - t0 % 600)`: the first 10-minute mark strictly after t0, even when t0 is one. */
  function LmaFirstMark(t0: int): (s: int)
    ensures s % TEN_MINUTES == 0
    ensures t0 < s <= t0 + TEN_MINUTES
  {
    var r := t0 % TEN_MINUTES;
    assert t0 == TEN_MINUTES * (t0 / TEN_MINUTES) + r;
    assert t0 + (TEN_MINUTES - r) == TEN_MINUTES * (t0 / TEN_MINUTES + 1);
    t0 + (TEN_MINUTES - r)
  }

  /**
   * GLM `sec0 = t0 + (300 - t0 % 600)`: five minutes past the 10-minute
   * mark at or before t0, within five minutes of t0.
   */
  function GlmFirstMark(t0: int): (s: int)
    ensures s % TEN_MINUTES == 300
    ensures t0 - 300 < s <= t0 + 300
  {
    var r := t0 % TEN_MINUTES;
    assert t0 == TEN_MINUTES * (t0 / TEN_MINUTES) + r;
    assert t0 + (300 - r) == TEN_MINUTES * (t0 / TEN_MINUTES) + 300;
    t0 + (300 - r)
  }

  /** `secf = tf - tf % 600`: the last 10-minute mark at or before tf. */
  function LastMark(tf: int): (s: int)
    ensures s % TEN_MINUTES == 0
    ensures tf - TEN_MINUTES < s <= tf
  {
    var r := tf % TEN_MINUTES;
    assert tf == TEN_MINUTES * (tf / TEN_MINUTES) + r;
    tf - r
  }

  /** The two marks are unique: any other multiple of 600 in the same range is the same number. */
  lemma MarksUnique(t0: int, s: int)
    requires s % TEN_MINUTES == 0
    ensures t0 < s <= t0 + TEN_MINUTES ==> s == LmaFirstMark(t0)
    ensures t0 - TEN_MINUTES < s <= t0 ==> s == LastMark(t0)
  {
    var a := LmaFirstMark(t0);
    var b := LastMark(t0);
    assert s == TEN_MINUTES * (s / TEN_MINUTES);
    assert a == TEN_MINUTES * (a / TEN_MINUTES);
    assert b == TEN_MINUTES * (b / TEN_MINUTES);
    if t0 < s <= t0 + TEN_MINUTES && s != a {
      if s < a {
        MulMono(TEN_MINUTES, s / TEN_MINUTES + 1, a / TEN_MINUTES);
      } else {
        MulMono(TEN_MINUTES, a / TEN_MINUTES + 1, s / TEN_MINUTES);
      }
    }
    if t0 - TEN_MINUTES < s <= t0 && s != b {
      if s < b {
        MulMono(TEN_MINUTES, s / TEN_MINUTES + 1, b / TEN_MINUTES);
      } else {
        MulMono(TEN_MINUTES, b / TEN_MINUTES + 1, s / TEN_MINUTES);
      }
    }
  }

  // -------------------------------------------------------------------
  // LMA: 60-second windows from sec0 to secf
  // -------------------------------------------------------------------

  datatype Window = Window(tile: nat, start: int, end: int)

  /** `nTile = int((secf - sec0) / Tsize) + 1`; `range` of a non-positive count is empty. */
  function LmaTileCount(sec0: int, secf: int): (n: nat)
    ensures secf >= sec0 ==> n == (secf - sec0) / WINDOW_SECONDS + 1
    ensures secf <= sec0 - WINDOW_SECONDS ==> n == 0
  {
    var q := TruncDiv(secf - sec0, WINDOW_SECONDS) + 1;
    if q > 0 then q else 0
  }

  /** Window k is `[sec0 + 60k, min(sec0 + 60k + 60, secf)]`. */
  function LmaWindows(sec0: int, secf: int): (ws: seq<Window>)
    ensures |ws| == LmaTileCount(sec0, secf)
  {
    seq(LmaTileCount(sec0, secf), k requires 0 <= k < LmaTileCount(sec0, secf) =>
      Window(k, sec0 + WINDOW_SECONDS * k, MinInt(sec0 + WINDOW_SECONDS * k + WINDOW_SECONDS, secf)))
  }

  /**
   * The windows tile `[sec0, secf]` without gaps: the first starts at
   * sec0, each ends where the next starts, every one lies inside the
   * range, the last is the single instant `[secf, secf]`, and every second
   * of the range lies in window `(t - sec0) / 60`.
   */
  lemma LmaWindowsCover(sec0: int, secf: int, t: int)
    requires sec0 <= secf && (secf - sec0) % WINDOW_SECONDS == 0
    ensures var ws := LmaWindows(sec0, secf);
            |ws| > 0 && ws[0].start == sec0
            && ws[|ws| - 1] == Window(|ws| - 1, secf, secf)
            && (forall k :: 0 <= k < |ws| ==> ws[k].tile == k && sec0 <= ws[k].start <= ws[k].end <= secf)
            && (forall k :: 0 <= k < |ws| - 1 ==> ws[k].end == ws[k + 1].start)
            && (sec0 <= t <= secf ==>
                  var k := (t - sec0) / WINDOW_SECONDS;
                  k < |ws| && ws[k].start <= t <= ws[k].end)
  {
    var ws := LmaWindows(sec0, secf);
    var q := (secf - sec0) / WINDOW_SECONDS;
    assert secf - sec0 == WINDOW_SECONDS * q;
    assert |ws| == q + 1;
    forall k | 0 <= k < |ws| ensures sec0 <= ws[k].start <= ws[k].end <= secf {
      MulMono(WINDOW_SECONDS, k, q);
    }
    forall k | 0 <= k < |ws| - 1 ensures ws[k].end == ws[k + 1].start {
      MulMono(WINDOW_SECONDS, k + 1, q);
    }
    if sec0 <= t <= secf {
      var k := (t - sec0) / WINDOW_SECONDS;
      DivBounds(t - sec0, WINDOW_SECONDS);
      assert WINDOW_SECONDS * k <= WINDOW_SECONDS * q;
    }
  }

  /** One `log` entry: key `'tile' + k`, display interval `[start, end + 10]`. */
  datatype LogEntry = LogEntry(tile: nat, key: string, start: int, end: int, rows: seq<nat>, hasPoints: bool)

  function TileKey(tile: nat): string {
    "tile" + NatToString(tile)
  }

  /**
   * The rows of window `w`: `Subset3` with the window shifted to seconds
   * of the day. A `.pnts` file is written only for more than two points.
   */
  function LmaEntry(w: Window, dayStart: int, time: seq<real>): LogEntry {
    var rows := Subset(time, (w.start - dayStart) as real, (w.end - dayStart) as real);
    LogEntry(w.tile, TileKey(w.tile), w.start, w.end + DT_SHOW, rows, |rows| > 2)
  }

  function LmaEntries(sec0: int, secf: int, dayStart: int, time: seq<real>): (es: seq<LogEntry>)
    ensures |es| == LmaTileCount(sec0, secf)
  {
    var ws := LmaWindows(sec0, secf);
    seq(|ws|, k requires 0 <= k < |ws| => LmaEntry(ws[k], dayStart, time))
  }

  function Populated(es: seq<LogEntry>): (m: seq<bool>)
    ensures |m| == |es|
    ensures forall k :: 0 <= k < |es| ==> m[k] == (|es[k].rows| >= 2)
  {
    seq(|es|, k requires 0 <= k < |es| => |es[k].rows| >= 2)
  }

  /** The tile loop of the LMA driver: windows with fewer than two points are skipped. */
  function LmaLog(sec0: int, secf: int, dayStart: int, time: seq<real>): seq<LogEntry> {
    var es := LmaEntries(sec0, secf, dayStart, time);
    Select(es, Populated(es))
  }

  /** Every log entry is its window's entry, and that window has at least two points. */
  lemma LmaLogSound(sec0: int, secf: int, dayStart: int, time: seq<real>)
    ensures var es := LmaEntries(sec0, secf, dayStart, time);
            var log := LmaLog(sec0, secf, dayStart, time);
            forall j :: 0 <= j < |log| ==> |log[j].rows| >= 2 && log[j].tile < |es| && log[j] == es[log[j].tile]
  {
    var es := LmaEntries(sec0, secf, dayStart, time);
    var m := Populated(es);
    SelectIsKept(es, m);
    forall j | 0 <= j < |Kept(m)| ensures es[Kept(m)[j]].tile == Kept(m)[j] {
    }
  }

  /** No window with two or more points is missing from the log. */
  lemma LmaLogComplete(sec0: int, secf: int, dayStart: int, time: seq<real>, k: nat)
    requires k < LmaTileCount(sec0, secf)
    requires |LmaEntries(sec0, secf, dayStart, time)[k].rows| >= 2
    ensures LmaEntries(sec0, secf, dayStart, time)[k] in LmaLog(sec0, secf, dayStart, time)
  {
    var es := LmaEntries(sec0, secf, dayStart, time);
    var m := Populated(es);
    SelectIsKept(es, m);
    KeptComplete(m, k);
    var j :| 0 <= j < |Kept(m)| && Kept(m)[j] == k;
    assert Select(es, m)[j] == es[k];
  }

  /** The log is in window order, and its keys are distinct. */
  lemma LmaLogOrdered(sec0: int, secf: int, dayStart: int, time: seq<real>)
    ensures var log := LmaLog(sec0, secf, dayStart, time);
            forall a, b :: 0 <= a < b < |log| ==> log[a].tile < log[b].tile && log[a].key != log[b].key
  {
    var log := LmaLog(sec0, secf, dayStart, time);
    LmaLogTiles(sec0, secf, dayStart, time);
    forall a, b | 0 <= a < b < |log| ensures log[a].key != log[b].key {
      TileKeyInjective(log[a].tile, log[b].tile);
    }
  }

  /** Log entries are keyed by their tile, and tiles increase along the log. */
  lemma LmaLogTiles(sec0: int, secf: int, dayStart: int, time: seq<real>)
    ensures var log := LmaLog(sec0, secf, dayStart, time);
            (forall j :: 0 <= j < |log| ==> log[j].key == TileKey(log[j].tile))
            && forall a, b :: 0 <= a < b < |log| ==> log[a].tile < log[b].tile
  {
    var es := LmaEntries(sec0, secf, dayStart, time);
    var m := Populated(es);
    var log := Select(es, m);
    SelectIsKept(es, m);
    KeptIncreasing(m);
    forall j | 0 <= j < |log| ensures log[j] == es[Kept(m)[j]] && log[j].tile == Kept(m)[j] {
    }
  }

  lemma TileKeyInjective(a: nat, b: nat)
    ensures TileKey(a) == TileKey(b) ==> a == b
  {
    if TileKey(a) == TileKey(b) {
      assert NatToString(a) == TileKey(a)[4..];
      assert NatToString(b) == TileKey(b)[4..];
    }
  }

  /** `stns_min`: the fewest contributing stations an LMA source needs. */
  function StationMinimum(network: string): (n: nat)
    ensures network == "OKLMA" ==> n == 8
    ensures network != "OKLMA" ==> n == 7
  {
    if network == "OKLMA" then 8 else 7
  }

  // -------------------------------------------------------------------
  // GLM: windows on the 5-minute offset, numbered by the ones with files
  // -------------------------------------------------------------------

  /** `nTile = int((secf - sec0) / Tsize)`, without the LMA `+ 1`. */
  function GlmTileCount(sec0: int, secf: int): (n: nat)
    ensures secf >= sec0 ==> n == (secf - sec0) / WINDOW_SECONDS
    ensures secf < sec0 ==> n == 0
  {
    var q := TruncDiv(secf - sec0, WINDOW_SECONDS);
    if q > 0 then q else 0
  }

  /** `Trng = 20 * ((sec2 - sec1) // 20 + 1)`: the least multiple of 20 above the window width. */
  function SearchRange(sec1: int, sec2: int): (r: int)
    ensures r % 20 == 0
    ensures sec2 - sec1 < r <= sec2 - sec1 + 20
  {
    var w := sec2 - sec1;
    assert w == 20 * (w / 20) + w % 20;
    20 * (w / 20 + 1)
  }

  /** A 60-second GLM window searches 80 seconds of files. */
  lemma GlmSearchRange(sec1: int)
    ensures SearchRange(sec1, sec1 + WINDOW_SECONDS) == 80
  {
  }

  datatype GlmEntry = GlmEntry(itile: nat, key: string, tile: nat, start: int, end: int)

  /**
   * The GLM tile loop. `hasFiles[k]` says whether the file search for
   * window k found anything; windows without files are skipped and do not
   * advance `itile`.
   */
  method GlmLog(sec0: int, hasFiles: seq<bool>) returns (log: seq<GlmEntry>)
    ensures |log| == Count(hasFiles)
    ensures forall j :: 0 <= j < |log| ==>
              log[j].itile == j + 1 && log[j].key == TileKey(j + 1)
              && log[j].tile == Kept(hasFiles)[j]
              && log[j].start == sec0 + WINDOW_SECONDS * log[j].tile - DT_SHOW
              && log[j].end == sec0 + WINDOW_SECONDS * log[j].tile + WINDOW_SECONDS + DT_SHOW
  {
    log := [];
    var itile := 0;
    var tile := 0;
    ghost var tiles: seq<nat> := [];
    while tile < |hasFiles|
      invariant tile <= |hasFiles|
      invariant itile == |log|
      invariant tiles == Kept(hasFiles[..tile])
      invariant GlmLogOf(log, sec0, tiles)
    {
      var sec1, sec2 := sec0 + WINDOW_SECONDS * tile, sec0 + WINDOW_SECONDS * tile + WINDOW_SECONDS;
      KeptStep(hasFiles, tile);
      if hasFiles[tile] {
        GlmLogExtend(log, sec0, tiles, tile);
        itile := itile + 1;
        log := log + [GlmEntry(itile, TileKey(itile), tile, sec1 - DT_SHOW, sec2 + DT_SHOW)];
        tiles := tiles + [tile];
      }
      tile := tile + 1;
    }
    assert hasFiles[..tile] == hasFiles;
  }

  /** The log lists one entry per tile of `tiles`, numbered from 1, with its padded window. */
  predicate GlmLogOf(log: seq<GlmEntry>, sec0: int, tiles: seq<nat>) {
    |log| == |tiles|
    && forall j :: 0 <= j < |log| ==>
         log[j].itile == j + 1 && log[j].key == TileKey(j + 1)
         && log[j].tile == tiles[j]
         && log[j].start == sec0 + WINDOW_SECONDS * log[j].tile - DT_SHOW
         && log[j].end == sec0 + WINDOW_SECONDS * log[j].tile + WINDOW_SECONDS + DT_SHOW
  }

  lemma GlmLogExtend(log: seq<GlmEntry>, sec0: int, tiles: seq<nat>, tile: nat)
    requires GlmLogOf(log, sec0, tiles)
    ensures var n := |log| + 1;
            GlmLogOf(log + [GlmEntry(n, TileKey(n), tile, sec0 + WINDOW_SECONDS * tile - DT_SHOW,
                                     sec0 + WINDOW_SECONDS * tile + WINDOW_SECONDS + DT_SHOW)],
                     sec0, tiles + [tile])
  {
  }

  /** `dictkey`: the first key, in insertion order, whose value is `v`; `list.index` raises when none is. */
  function DictKey<K(==), V(==)>(d: seq<(K, V)>, v: V): (r: Result<K>)
    ensures r.Ok? <==> exists i :: 0 <= i < |d| && d[i].1 == v
    ensures r.Ok? ==> exists i :: 0 <= i < |d| && d[i].0 == r.value && d[i].1 == v && forall j :: 0 <= j < i ==> d[j].1 != v
  {
    if |d| == 0 then Err(MissingKey)
    else if d[0].1 == v then Ok(d[0].0)
    else
      var r := DictKey(d[1..], v);
      if r.Ok? then
        var i :| 0 <= i < |d[1..]| && d[1..][i].0 == r.value && d[1..][i].1 == v && forall j :: 0 <= j < i ==> d[1..][j].1 != v;
        assert d[i + 1].0 == r.value && d[i + 1].1 == v;
        r
      else r
  }

  /** `usetype`: the lightning type drawn at each step. */
  const USETYPE: seq<(nat, string)> :=
    [(32, "flash"), (16, "flash"), (8, "group"), (4, "group"), (2, "event"), (1, "event")]

  /**
   * The steps a GLM or LIS tile draws, 16, 4 and 1 for flash, group and
   * event; a step whose data is empty is skipped.
   */
  function DrawnSteps(nFlash: nat, nGroup: nat, nEvent: nat): (steps: seq<nat>)
    ensures 16 in steps <==> nFlash > 0
    ensures 4 in steps <==> nGroup > 0
    ensures 1 in steps <==> nEvent > 0
    ensures forall a, b :: 0 <= a < b < |steps| ==> steps[a] > steps[b]
    ensures forall s :: s in steps ==> DictKey(USETYPE, TypeOfStep(s)).Ok?
  {
    (if nFlash > 0 then [16] else []) + (if nGroup > 0 then [4] else []) + (if nEvent > 0 then [1] else [])
  }

  function TypeOfStep(step: nat): string {
    if step >= 16 then "flash" else if step >= 4 then "group" else "event"
  }

  /**
   * The type lookup `usebox[dictkey(usetype, typ)]` lands on step 32 for
   * flash, 8 for group and 2 for event.
   */
  lemma UseTypeKeys()
    ensures DictKey(USETYPE, "flash") == Ok(32)
    ensures DictKey(USETYPE, "group") == Ok(8)
    ensures DictKey(USETYPE, "event") == Ok(2)
  {
    var d := USETYPE;
    assert d[0].1 == "flash";
    assert d[1..][1..][0].1 == "group";
    assert d[1..][1..][1..][1..][0].1 == "event";
    assert d[0].1 != "group" && d[1..][0].1 != "group";
    assert DictKey(d, "group") == DictKey(d[1..][1..], "group");
    assert d[1..][1..][0].1 != "event" && d[1..][1..][1..][0].1 != "event";
    assert DictKey(d, "event") == DictKey(d[1..][1..], "event");
    assert DictKey(d[1..][1..], "event") == DictKey(d[1..][1..][1..][1..], "event");
  }

  /** `TypeOfStep` agrees with the `usetype` table on every step. */
  lemma TypeOfStepMatchesTable()
    ensures forall i :: 0 <= i < |USETYPE| ==> TypeOfStep(USETYPE[i].0) == USETYPE[i].1
  {
  }

  // -------------------------------------------------------------------
  // ISS-LIS: equal time slices with shared boundaries
  // -------------------------------------------------------------------

  /** `nTile`: five slices on 2017-05-17, two on every other day. */
  function LisTileCount(fdate: string): (n: nat)
    ensures n == 5 || n == 2
    ensures n == 5 <==> fdate == "2017-05-17"
  {
    if fdate == "2017-05-17" then 5 else 2
  }

  /** The slice boundaries `T0 + k * (T1 - T0) / n` for k = 0..n. */
  function LisBounds(t0: real, t1: real, n: nat): (b: seq<real>)
    requires n > 0
    ensures |b| == n + 1 && b[0] == t0 && b[n] == t1
  {
    var d := (t1 - t0) / n as real;
    var b := seq(n + 1, k requires 0 <= k <= n => t0 + k as real * d);
    assert b[n] == t0 + n as real * d;
    assert n as real * d == t1 - t0;
    b
  }

  /** Slice k: `[start, min(start + d, T1)]`, both ends inclusive. */
  function LisSlice(t0: real, t1: real, n: nat, k: nat): (r: (real, real))
    requires n > 0 && k < n
  {
    var b := LisBounds(t0, t1, n);
    (b[k], MinReal(b[k + 1], t1))
  }

  /** Every time between the first and the last event falls in some slice. */
  lemma LisSlicesCover(t0: real, t1: real, n: nat, t: real)
    requires n > 0 && t0 <= t <= t1
    ensures exists k :: 0 <= k < n && LisSlice(t0, t1, n, k).0 <= t <= LisSlice(t0, t1, n, k).1
  {
    var b := LisBounds(t0, t1, n);
    var d := (t1 - t0) / n as real;
    if t < t1 {
      Bracket(b, t);
      var k :| 0 <= k < |b| - 1 && b[k] <= t < b[k + 1];
      assert LisSlice(t0, t1, n, k).0 <= t <= LisSlice(t0, t1, n, k).1;
    } else {
      assert d >= 0.0;
      assert b[n - 1] == t1 - d;
      assert LisSlice(t0, t1, n, n - 1).0 <= t <= LisSlice(t0, t1, n, n - 1).1;
    }
  }

  /** A time on an inner boundary lies in both slices that meet there. */
  lemma LisBoundaryShared(t0: real, t1: real, n: nat, k: nat)
    requires t0 <= t1 && k + 1 < n
    ensures var t := LisBounds(t0, t1, n)[k + 1];
            LisSlice(t0, t1, n, k).0 <= t <= LisSlice(t0, t1, n, k).1
            && LisSlice(t0, t1, n, k + 1).0 <= t <= LisSlice(t0, t1, n, k + 1).1
  {
    var b := LisBounds(t0, t1, n);
    var d := (t1 - t0) / n as real;
    assert d >= 0.0;
    assert b[k + 1] <= b[k + 2];
    assert b[k + 2] <= t1 by {
      assert b[k + 2] == t1 - (n - k - 2) as real * d;
    }
  }

  /**
   * A tile's display interval: `int(min(event times))` to
   * `int(max(event times) + 10)`; `np.min` of a slice without events raises.
   */
  function LisAvailability(eventTimes: seq<real>): (r: Result<(int, int)>)
    ensures r.Ok? <==> |eventTimes| > 0
    ensures r.Ok? ==> exists i :: 0 <= i < |eventTimes| && r.value.0 == Trunc(eventTimes[i])
                        && forall j :: 0 <= j < |eventTimes| ==> eventTimes[i] <= eventTimes[j]
    ensures r.Ok? ==> exists i :: 0 <= i < |eventTimes| && r.value.1 == Trunc(eventTimes[i] + DT_SHOW as real)
                        && forall j :: 0 <= j < |eventTimes| ==> eventTimes[j] <= eventTimes[i]
  {
    if |eventTimes| == 0 then Err(EmptyArray)
    else Ok((Trunc(MinOf(eventTimes).value), Trunc(MaxOf(eventTimes).value + DT_SHOW as real)))
  }

  datatype LisTile = LisTile(tile: nat, flash: seq<nat>, group: seq<nat>, event: seq<nat>,
                             start: int, end: int, steps: seq<nat>)

  function Pick(time: seq<real>, rows: seq<nat>): seq<real>
    requires forall j :: 0 <= j < |rows| ==> rows[j] < |time|
  {
    Gather(time, rows)
  }

  /** One LIS tile: the three type subsets of slice k, the event availability, the drawn steps. */
  function LisTileAt(flash: seq<real>, group: seq<real>, event: seq<real>, n: nat, k: nat): (r: Result<LisTile>)
    requires |event| > 0 && n > 0 && k < n
    ensures r.Ok? <==> (exists i :: 0 <= i < |event| &&
                          LisSlice(event[0], event[|event| - 1], n, k).0 <= event[i] <= LisSlice(event[0], event[|event| - 1], n, k).1)
  {
    var (lo, hi) := LisSlice(event[0], event[|event| - 1], n, k);
    var f, g, e := Subset(flash, lo, hi), Subset(group, lo, hi), Subset(event, lo, hi);
    SubsetExact(event, lo, hi);
    var w :- LisAvailability(Pick(event, e));
    Ok(LisTile(k, f, g, e, w.0, w.1, DrawnSteps(|f|, |g|, |e|)))
  }

  /**
   * The LIS driver: nothing when no file was found; otherwise
   * `Trng = [event.Time[0], event.Time[-1]]` (an empty event list raises)
   * and one tile per slice, the first failure stopping the run.
   */
  function LisRun(fdate: string, filesFound: bool, flash: seq<real>, group: seq<real>, event: seq<real>)
    : (r: Result<seq<LisTile>>)
    ensures !filesFound ==> r == Ok([])
    ensures filesFound && |event| == 0 ==> r.Err?
    ensures r.Ok? && filesFound ==> |r.value| == LisTileCount(fdate)
    ensures r.Ok? && filesFound ==> forall k :: 0 <= k < |r.value| ==>
              LisTileAt(flash, group, event, LisTileCount(fdate), k) == Ok(r.value[k])
    ensures filesFound && |event| > 0 ==>
              (r.Ok? <==> forall k :: 0 <= k < LisTileCount(fdate) ==> LisTileAt(flash, group, event, LisTileCount(fdate), k).Ok?)
  {
    if !filesFound then Ok([])
    else if |event| == 0 then Err(IndexOutOfRange)
    else
      var n := LisTileCount(fdate);
      AllOk(seq(n, k requires 0 <= k < n => LisTileAt(flash, group, event, n, k)))
  }

  // -------------------------------------------------------------------
  // IMPACTS CPL: tiles of 50000 rows, selected by time
  // -------------------------------------------------------------------

  /** `Tsize`: rows per CPL tile. */
  const CPL_TILE_ROWS: nat := 50000

  datatype CplTile = CplTile(tile: nat, start: real, end: real, rows: seq<nat>)

  /** `CPL['Time'][i]`: a label lookup on the frame's 0..n-1 index, which raises for any other label. */
  function TimeAt(time: seq<real>, i: int): (r: Result<real>)
    ensures r.Ok? <==> 0 <= i < |time|
    ensures r.Ok? ==> r.value == time[i]
  {
    if 0 <= i < |time| then Ok(time[i]) else Err(MissingKey)
  }

  /**
   * Tile k as written: from `SecS` (tile 0) or `Time[k * 50000]`, to
   * `Time[min((k + 1) * 50000, n - 1)]`, rows `epoch <= Time < end`.
   */
  function CplTileAsWritten(time: seq<real>, secS: real, k: nat): (r: Result<CplTile>)
    ensures r.Ok? <==> |time| > 0 && (k == 0 || k * CPL_TILE_ROWS < |time|)
  {
    var n := |time|;
    var epoch :- if k == 0 then Ok(secS) else TimeAt(time, k * CPL_TILE_ROWS);
    var end :- TimeAt(time, MinInt((k + 1) * CPL_TILE_ROWS, n - 1));
    Ok(CplTile(k, epoch, end, HalfOpenSubset(time, epoch, end)))
  }

  /** `nTile = int(n / 50000) + 1` tiles; the first failing lookup stops the run. */
  function CplTilesAsWritten(time: seq<real>, secS: real): Result<seq<CplTile>> {
    var count := |time| / CPL_TILE_ROWS + 1;
    AllOk(seq(count, k requires 0 <= k < count => CplTileAsWritten(time, secS, k)))
  }

  /**
   * The run as written fails exactly when the row count is a multiple of
   * 50000, zero included: the extra tile then looks up `Time[n]`.
   */
  lemma CplAsWrittenFailsIff(time: seq<real>, secS: real)
    ensures CplTilesAsWritten(time, secS).Err? <==> |time| % CPL_TILE_ROWS == 0
  {
    var n := |time|;
    var count := n / CPL_TILE_ROWS + 1;
    DivBounds(n, CPL_TILE_ROWS);
    var rs := seq(count, k requires 0 <= k < count => CplTileAsWritten(time, secS, k));
    assert CplTilesAsWritten(time, secS) == AllOk(rs);
    if n % CPL_TILE_ROWS == 0 {
      assert (count - 1) * CPL_TILE_ROWS == n;
      assert !rs[count - 1].Ok?;
    } else {
      forall j | 0 <= j < count ensures rs[j].Ok? {
        MulMono(CPL_TILE_ROWS, j, n / CPL_TILE_ROWS);
      }
    }
  }

  /** One-row input: the as-written run has a single tile. */
  lemma CplAsWrittenSucceedsOnOneRow()
    ensures CplTilesAsWritten([5.0], 0.0).Ok?
  {
    CplAsWrittenFailsIff([5.0], 0.0);
  }

  /** 50000 rows: the second tile reads `Time[50000]`, past the end. */
  lemma CplAsWrittenFailsOnFullTile(time: seq<real>, secS: real)
    requires |time| == CPL_TILE_ROWS
    ensures CplTilesAsWritten(time, secS).Err?
  {
    CplAsWrittenFailsIff(time, secS);
  }

  ghost predicate NonDecreasing(time: seq<real>) {
    forall a, b :: 0 <= a < b < |time| ==> time[a] <= time[b]
  }

  /**
   * With times in order, no tile as written holds a row at the final time
   * `Time[n - 1]`: every tile's end is at most that time and excludes it.
   */
  lemma CplAsWrittenDropsFinalTime(time: seq<real>, secS: real)
    requires NonDecreasing(time) && CplTilesAsWritten(time, secS).Ok?
    ensures var tiles := CplTilesAsWritten(time, secS).value;
            forall k, j :: 0 <= k < |tiles| && 0 <= j < |tiles[k].rows| ==>
              time[tiles[k].rows[j]] < time[|time| - 1]
  {
    var tiles := CplTilesAsWritten(time, secS).value;
    forall k, j | 0 <= k < |tiles| && 0 <= j < |tiles[k].rows|
      ensures time[tiles[k].rows[j]] < time[|time| - 1]
    {
      var t := CplTileAsWritten(time, secS, k).value;
      assert tiles[k] == t;
      var n := |time|;
      assert t.end == time[MinInt((k + 1) * CPL_TILE_ROWS, n - 1)];
    }
  }

  /** `ceil(n / 50000)` tiles, the last of them closed at its end. */
  function CplTileCount(n: nat): nat {
    CeilDiv(n, CPL_TILE_ROWS)
  }

  /** The tile boundaries: `SecS`, then `Time[k * 50000]` for each further tile, then `Time[n - 1]`. */
  function CplBounds(time: seq<real>, secS: real): (b: seq<real>)
    ensures |b| == CplTileCount(|time|) + 1
    ensures |b| > 0 && b[0] == secS
  {
    var count := CplTileCount(|time|);
    CeilDivLeast(|time|, CPL_TILE_ROWS);
    seq(count + 1, k requires 0 <= k <= count =>
      if k == 0 then secS
      else if k < count then
        assert k * CPL_TILE_ROWS < |time| by { MulMono(CPL_TILE_ROWS, k, count - 1); }
        time[k * CPL_TILE_ROWS]
      else time[|time| - 1])
  }

  /**
   * The corrected tiling: `ceil(n / 50000)` tiles, tile k running from
   * boundary k to boundary k + 1, half-open except for the last, which
   * keeps the rows at the final time.
   */
  function CplTiles(time: seq<real>, secS: real): (tiles: seq<CplTile>)
    ensures |tiles| == CplTileCount(|time|)
    ensures forall k :: 0 <= k < |tiles| ==> tiles[k].tile == k
  {
    var b := CplBounds(time, secS);
    var count := CplTileCount(|time|);
    seq(count, k requires 0 <= k < count =>
      CplTile(k, b[k], b[k + 1],
              if k + 1 < count then HalfOpenSubset(time, b[k], b[k + 1]) else Subset(time, b[k], b[k + 1])))
  }

  /** The corrected boundaries agree with the script's `epoch` and `end` expressions on every tile. */
  lemma CplTilesMatchScript(time: seq<real>, secS: real, k: nat)
    requires k < CplTileCount(|time|)
    ensures var t := CplTileAsWritten(time, secS, k);
            t.Ok? && CplTiles(time, secS)[k].start == t.value.start && CplTiles(time, secS)[k].end == t.value.end
            && (k + 1 < CplTileCount(|time|) ==> CplTiles(time, secS)[k] == t.value)
  {
    CplScriptStart(time, secS, k);
    CplScriptEnd(time, secS, k);
  }

  /** The script's `epoch` for a tile is the corrected tile's start. */
  lemma CplScriptStart(time: seq<real>, secS: real, k: nat)
    requires k < CplTileCount(|time|)
    ensures var t := CplTileAsWritten(time, secS, k);
            t.Ok? && t.value.tile == k && CplTiles(time, secS)[k].start == t.value.start
  {
    CeilDivLeast(|time|, CPL_TILE_ROWS);
    MulMono(CPL_TILE_ROWS, k, CplTileCount(|time|) - 1);
  }

  /** The script's `end` for a tile is the corrected tile's end. */
  lemma CplScriptEnd(time: seq<real>, secS: real, k: nat)
    requires k < CplTileCount(|time|)
    ensures var t := CplTileAsWritten(time, secS, k);
            t.Ok? && CplTiles(time, secS)[k].end == t.value.end
            && t.value.rows == HalfOpenSubset(time, t.value.start, t.value.end)
  {
    var n := |time|;
    var count := CplTileCount(n);
    var j := MinInt((k + 1) * CPL_TILE_ROWS, n - 1);
    CeilDivLeast(n, CPL_TILE_ROWS);
    MulMono(CPL_TILE_ROWS, k, count - 1);
    if k + 1 < count {
      MulMono(CPL_TILE_ROWS, k + 1, count - 1);
      assert j == (k + 1) * CPL_TILE_ROWS;
    } else {
      assert j == n - 1;
    }
    assert CplBounds(time, secS)[k + 1] == time[j];
    CplScriptTile(time, secS, k);
  }

  /** The script's tile, with its two lookups done. */
  lemma CplScriptTile(time: seq<real>, secS: real, k: nat)
    requires |time| > 0 && (k == 0 || k * CPL_TILE_ROWS < |time|)
    ensures var e := if k == 0 then secS else time[k * CPL_TILE_ROWS];
            var f := time[MinInt((k + 1) * CPL_TILE_ROWS, |time| - 1)];
            CplTileAsWritten(time, secS, k) == Ok(CplTile(k, e, f, HalfOpenSubset(time, e, f)))
  {
  }

  /** A time between `SecS` and the final time falls in some tile's interval, open at the end except in the last tile. */
  lemma CplBracket(time: seq<real>, secS: real, t: real) returns (k: nat)
    requires NonDecreasing(time) && |time| > 0 && secS <= t <= time[|time| - 1]
    ensures k < CplTileCount(|time|)
    ensures CplBounds(time, secS)[k] <= t <= CplBounds(time, secS)[k + 1]
    ensures k + 1 < CplTileCount(|time|) ==> t < CplBounds(time, secS)[k + 1]
  {
    var n := |time|;
    var b := CplBounds(time, secS);
    var count := CplTileCount(n);
    CeilDivLeast(n, CPL_TILE_ROWS);
    if t < b[count] {
      Bracket(b, t);
      k :| 0 <= k < |b| - 1 && b[k] <= t < b[k + 1];
    } else {
      k := count - 1;
      if k > 0 {
        MulMono(CPL_TILE_ROWS, k, count - 1);
        assert b[k] == time[k * CPL_TILE_ROWS];
      }
    }
  }

  lemma CplTileHolds(time: seq<real>, secS: real, k: nat, i: nat)
    requires k < CplTileCount(|time|) && i < |time|
    requires CplBounds(time, secS)[k] <= time[i] <= CplBounds(time, secS)[k + 1]
    requires k + 1 < CplTileCount(|time|) ==> time[i] < CplBounds(time, secS)[k + 1]
    ensures i in CplTiles(time, secS)[k].rows
  {
    var b := CplBounds(time, secS);
    if k + 1 < CplTileCount(|time|) {
      HalfOpenSubsetExact(time, b[k], b[k + 1]);
      assert CplTiles(time, secS)[k].rows == HalfOpenSubset(time, b[k], b[k + 1]);
    } else {
      SubsetExact(time, b[k], b[k + 1]);
      assert CplTiles(time, secS)[k].rows == Subset(time, b[k], b[k + 1]);
    }
  }

  /**
   * With times in order, every row at or after `SecS` lands in some
   * corrected tile, the rows at the final time included.
   */
  lemma CplTilesCover(time: seq<real>, secS: real, i: nat)
    requires NonDecreasing(time) && i < |time| && secS <= time[i]
    ensures exists k :: 0 <= k < |CplTiles(time, secS)| && i in CplTiles(time, secS)[k].rows
  {
    assert time[i] <= time[|time| - 1];
    var k := CplBracket(time, secS, time[i]);
    CplTileHolds(time, secS, k, i);
  }
}

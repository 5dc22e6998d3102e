/**
 * The flight-track readers. The HS3, GOES-R and CPEX-AW readers share one
 * pipeline: convert the navigation columns (angles to radians, heading
 * turned by a quarter circle), keep the rows whose six values are all
 * non-NaN and whose time first occurs at that row, then keep every 5th of
 * those. The IMPACTS reader instead wraps and corrects the angles, takes
 * its window from the first and last rows, and keeps the rows whose
 * second count is a multiple of `nskip + 1`.
 *
 * The text numpy prints for a `datetime64[s]` is the parameter `fmt`.
 */
module FlightReader {
  import opened Wrappers
  import opened Arith
  import opened Seqs
  import opened Strings
  import opened Floats
  import opened Geo
  import opened FloatText
  import opened Calendar
  import opened FlightWriter
  import opened FileNames

  /** One navigation record after conversion; `time` is seconds since 1970. */
  datatype Nav = Nav(time: int, lat: F64, lon: F64, alt: F64, heading: F64, pitch: F64, roll: F64)

  /** An increasing real map applied to a double: NaN and the infinities pass through. */
  function MapNum(x: F64, f: real -> real): (y: F64)
    ensures y.NaN? <==> x.NaN?
  {
    match x
    case Num(v) => Num(f(v))
    case NaN => NaN
    case Inf(neg) => Inf(neg)
  }

  /** `deg * np.pi / 180 - np.pi / 2`. */
  function HeadingRad(x: F64): F64 {
    MapNum(x, d => Rad(d) - PI / 2.0)
  }

  /** `deg * np.pi / 180`. */
  function AngleRad(x: F64): F64 {
    MapNum(x, Rad)
  }

  /** None of the six values is NaN (infinities pass `np.isnan`). */
  predicate Complete(n: Nav) {
    !n.lat.NaN? && !n.lon.NaN? && !n.alt.NaN? && !n.heading.NaN? && !n.pitch.NaN? && !n.roll.NaN?
  }

  /** Row `i` is where its time first occurs (`np.unique(time, return_index=True)`). */
  predicate FirstAt(rows: seq<Nav>, i: nat)
    requires i < |rows|
  {
    forall j :: 0 <= j < i ==> rows[j].time != rows[i].time
  }

  /** The reader's mask: complete rows holding the first occurrence of their time. */
  function KeepMask(rows: seq<Nav>): (m: seq<bool>)
    ensures |m| == |rows|
    ensures forall i :: 0 <= i < |rows| ==> m[i] == (Complete(rows[i]) && FirstAt(rows, i))
  {
    seq(|rows|, i requires 0 <= i < |rows| => Complete(rows[i]) && FirstAt(rows, i))
  }

  /** The rows the mask keeps, in file order. */
  function KeptNav(rows: seq<Nav>): (k: seq<Nav>)
    ensures |k| == Count(KeepMask(rows))
  {
    Select(rows, KeepMask(rows))
  }

  /**
   * The kept rows are exactly the complete first occurrences: every kept
   * row is one, every one is kept, and no two kept rows share a time.
   */
  lemma KeptNavExact(rows: seq<Nav>)
    ensures forall x :: x in KeptNav(rows) ==> Complete(x)
    ensures forall i :: 0 <= i < |rows| && Complete(rows[i]) && FirstAt(rows, i) ==> rows[i] in KeptNav(rows)
    ensures forall x :: x in KeptNav(rows) ==> exists i :: 0 <= i < |rows| && FirstAt(rows, i) && rows[i] == x
    ensures forall a, b :: 0 <= a < b < |KeptNav(rows)| ==> KeptNav(rows)[a].time != KeptNav(rows)[b].time
  {
    var m := KeepMask(rows);
    var k := KeptNav(rows);
    SelectMembers(rows, m);
    SelectIsKept(rows, m);
    KeptIncreasing(m);
    forall a, b | 0 <= a < b < |k| ensures k[a].time != k[b].time {
      var ia, ib := Kept(m)[a], Kept(m)[b];
      assert ia < ib && m[ib];
      assert FirstAt(rows, ib);
    }
  }

  /** Something is kept exactly when some row is a complete first occurrence. */
  lemma KeptNavNonEmpty(rows: seq<Nav>)
    ensures |KeptNav(rows)| > 0 <==> exists i :: 0 <= i < |rows| && Complete(rows[i]) && FirstAt(rows, i)
  {
    var m := KeepMask(rows);
    if exists i :: 0 <= i < |rows| && Complete(rows[i]) && FirstAt(rows, i) {
      var i :| 0 <= i < |rows| && Complete(rows[i]) && FirstAt(rows, i);
      KeptComplete(m, i);
    }
    if |KeptNav(rows)| > 0 {
      var i := Kept(m)[0];
      assert m[i];
    }
  }

  /** What a reader hands to the writer: the samples and `length`. */
  datatype Read = Read(samples: Samples, length: nat)

  function Times(k: seq<Nav>, t0: int): (s: seq<F64>)
    ensures |s| == |k| && forall i :: 0 <= i < |k| ==> s[i] == Num((k[i].time - t0) as real)
  {
    seq(|k|, i requires 0 <= i < |k| => Num((k[i].time - t0) as real))
  }

  function Lons(k: seq<Nav>): seq<F64> { seq(|k|, i requires 0 <= i < |k| => k[i].lon) }
  function Lats(k: seq<Nav>): seq<F64> { seq(|k|, i requires 0 <= i < |k| => k[i].lat) }
  function Alts(k: seq<Nav>): seq<F64> { seq(|k|, i requires 0 <= i < |k| => k[i].alt) }
  function Rolls(k: seq<Nav>): seq<F64> { seq(|k|, i requires 0 <= i < |k| => k[i].roll) }
  function Pitches(k: seq<Nav>): seq<F64> { seq(|k|, i requires 0 <= i < |k| => k[i].pitch) }
  function Headings(k: seq<Nav>): seq<F64> { seq(|k|, i requires 0 <= i < |k| => k[i].heading) }

  /**
   * The common tail of `read_csv`: the window from the first and last
   * kept times with `Z` appended, then every 5th kept row with its time
   * counted from the first kept time. `IndexError` when nothing is kept.
   */
  function Finish(rows: seq<Nav>, fmt: int -> string): (r: Result<Read>)
    ensures r.Ok? <==> |KeptNav(rows)| > 0
    ensures r.Err? ==> r.error == IndexOutOfRange
    ensures r.Ok? ==> r.value.length == CeilDiv(|KeptNav(rows)|, 5) && SamplesOf(r.value.samples, r.value.length)
    ensures r.Ok? ==> var k := KeptNav(rows);
                      r.value.samples.window == [fmt(k[0].time) + "Z", fmt(k[|k| - 1].time) + "Z"]
  {
    var k := KeptNav(rows);
    if |k| == 0 then Err(IndexOutOfRange)
    else
      var t0 := k[0].time;
      Ok(Read(Samples([fmt(t0) + "Z", fmt(k[|k| - 1].time) + "Z"],
                      Stride(Times(k, t0), 5), Stride(Lons(k), 5), Stride(Lats(k), 5), Stride(Alts(k), 5),
                      Stride(Rolls(k), 5), Stride(Pitches(k), 5), Stride(Headings(k), 5)),
              CeilDiv(|k|, 5)))
  }

  /**
   * Output sample `j` is kept row `5j`: its time counted from the first
   * kept row, and its six values unchanged. The first sample is at time 0.
   */
  lemma FinishLayout(rows: seq<Nav>, fmt: int -> string, j: nat)
    requires Finish(rows, fmt).Ok? && j < Finish(rows, fmt).value.length
    ensures var k := KeptNav(rows);
            var s := Finish(rows, fmt).value.samples;
            5 * j < |k|
            && s.steps[j] == Num((k[5 * j].time - k[0].time) as real)
            && s.lon[j] == k[5 * j].lon && s.lat[j] == k[5 * j].lat && s.alt[j] == k[5 * j].alt
            && s.roll[j] == k[5 * j].roll && s.pitch[j] == k[5 * j].pitch && s.heading[j] == k[5 * j].heading
  {
    var k := KeptNav(rows);
    var s := Finish(rows, fmt).value.samples;
    assert s.steps == Stride(Times(k, k[0].time), 5) && s.lon == Stride(Lons(k), 5) && s.lat == Stride(Lats(k), 5)
           && s.alt == Stride(Alts(k), 5) && s.roll == Stride(Rolls(k), 5) && s.pitch == Stride(Pitches(k), 5)
           && s.heading == Stride(Headings(k), 5);
    StrideRow(k, j);
  }

  /** Entry `j` of each strided column is row `5j` of the kept rows. */
  lemma StrideRow(k: seq<Nav>, j: nat)
    requires |k| > 0 && j < CeilDiv(|k|, 5)
    ensures 5 * j < |k| && Stride(Times(k, k[0].time), 5)[j] == Num((k[5 * j].time - k[0].time) as real)
    ensures Stride(Lons(k), 5)[j] == k[5 * j].lon && Stride(Lats(k), 5)[j] == k[5 * j].lat
    ensures Stride(Alts(k), 5)[j] == k[5 * j].alt && Stride(Rolls(k), 5)[j] == k[5 * j].roll
    ensures Stride(Pitches(k), 5)[j] == k[5 * j].pitch && Stride(Headings(k), 5)[j] == k[5 * j].heading
  {
    StrideAt(Times(k, k[0].time), 5, j);
    StrideAt(Lons(k), 5, j);
    StrideAt(Lats(k), 5, j);
    StrideAt(Alts(k), 5, j);
    StrideAt(Rolls(k), 5, j);
    StrideAt(Pitches(k), 5, j);
    StrideAt(Headings(k), 5, j);
  }

  /** Every output sample is a complete row, and the samples' times are all different. */
  lemma FinishSamplesDistinct(rows: seq<Nav>, fmt: int -> string, a: nat, b: nat)
    requires Finish(rows, fmt).Ok? && a < b < Finish(rows, fmt).value.length
    ensures Finish(rows, fmt).value.samples.steps[a] != Finish(rows, fmt).value.samples.steps[b]
  {
    var k := KeptNav(rows);
    FinishLayout(rows, fmt, a);
    FinishLayout(rows, fmt, b);
    KeptNavExact(rows);
    assert k[5 * a].time != k[5 * b].time;
  }

  /** A successful read always fills a fresh writer of its length. */
  lemma FinishFills(rows: seq<Nav>, fmt: int -> string, script: Script)
    requires Finish(rows, fmt).Ok?
    ensures var rd := Finish(rows, fmt).value;
            Fill(NewWriter(script, rd.length), rd.samples).Ok?
  {
  }

  // -------------------------------------------------------------------
  // HS3 and GOES-R: IWG1 text lines
  // -------------------------------------------------------------------

  /** The column of each field the readers convert. */
  datatype Cols = Cols(time: nat, lat: nat, lon: nat, alt: nat, heading: nat, pitch: nat, roll: nat)

  /** The GOES-R reader's fixed columns. */
  const GOESR_COLS: Cols := Cols(1, 2, 3, 4, 14, 16, 17)

  /** The HS3 reader's columns, looked up by name; `KeyError` for a missing name. */
  function Hs3Cols(rni: map<string, nat>): (r: Result<Cols>)
    ensures r.Ok? <==> "time" in rni && "latitude" in rni && "longitude" in rni && "altitude" in rni
                       && "heading" in rni && "pitch" in rni && "roll" in rni
    ensures r.Err? ==> r.error == MissingKey
    ensures r.Ok? ==> r.value.time == rni["time"] && r.value.lat == rni["latitude"] && r.value.lon == rni["longitude"]
                      && r.value.alt == rni["altitude"] && r.value.heading == rni["heading"]
                      && r.value.pitch == rni["pitch"] && r.value.roll == rni["roll"]
  {
    if "time" in rni && "latitude" in rni && "longitude" in rni && "altitude" in rni
       && "heading" in rni && "pitch" in rni && "roll" in rni
    then Ok(Cols(rni["time"], rni["latitude"], rni["longitude"], rni["altitude"],
                 rni["heading"], rni["pitch"], rni["roll"]))
    else Err(MissingKey)
  }

  predicate Covers(fields: seq<string>, c: Cols) {
    c.time < |fields| && c.lat < |fields| && c.lon < |fields| && c.alt < |fields|
    && c.heading < |fields| && c.pitch < |fields| && c.roll < |fields|
  }

  /**
   * One line's navigation record: `string_to_date` on the time column
   * (`parseTime` is `np.datetime64(text, 's')`, whose failure raises),
   * `string_to_float` on the six value columns.
   */
  function ParseLine(fields: seq<string>, c: Cols, parseTime: string -> Option<int>): (r: Result<Nav>)
    ensures r.Ok? <==> Covers(fields, c) && parseTime(fields[c.time]).Some?
    ensures r.Ok? ==> r.value.time == parseTime(fields[c.time]).value
                      && r.value.lat == StringToFloat(fields[c.lat]) && r.value.lon == StringToFloat(fields[c.lon])
                      && r.value.alt == StringToFloat(fields[c.alt])
                      && r.value.heading == HeadingRad(StringToFloat(fields[c.heading]))
                      && r.value.pitch == AngleRad(StringToFloat(fields[c.pitch]))
                      && r.value.roll == AngleRad(StringToFloat(fields[c.roll]))
  {
    if !Covers(fields, c) then Err(IndexOutOfRange)
    else
      match parseTime(fields[c.time])
      case None => Err(BadDigits)
      case Some(t) =>
        Ok(Nav(t, StringToFloat(fields[c.lat]), StringToFloat(fields[c.lon]), StringToFloat(fields[c.alt]),
               HeadingRad(StringToFloat(fields[c.heading])), AngleRad(StringToFloat(fields[c.pitch])),
               AngleRad(StringToFloat(fields[c.roll]))))
  }

  /** A value column whose text is not a number yields a record the mask drops. */
  lemma UnparsableDropped(fields: seq<string>, c: Cols, parseTime: string -> Option<int>)
    requires ParseLine(fields, c, parseTime).Ok?
    requires ParseFloat(fields[c.lat]).None? || ParseFloat(fields[c.heading]).None?
    ensures !Complete(ParseLine(fields, c, parseTime).value)
  {
  }

  /** `read_csv` on lines already split into fields. */
  function ReadNav(lines: seq<seq<string>>, c: Cols, parseTime: string -> Option<int>, fmt: int -> string): (r: Result<Read>)
    ensures r.Ok? ==> exists rows: seq<Nav> :: |rows| == |lines| && Finish(rows, fmt) == r
                        && forall i :: 0 <= i < |lines| ==> ParseLine(lines[i], c, parseTime) == Ok(rows[i])
    ensures (forall i :: 0 <= i < |lines| ==> ParseLine(lines[i], c, parseTime).Ok?) || r.Err?
  {
    var rows :- AllOk(seq(|lines|, i requires 0 <= i < |lines| => ParseLine(lines[i], c, parseTime)));
    Finish(rows, fmt)
  }

  // -------------------------------------------------------------------
  // CPEX-AW: ICARTT columns and day-of-year times
  // -------------------------------------------------------------------

  /** One ICARTT record as `icartt` returns it (whole seconds of day). */
  datatype IctRow = IctRow(doy: int, secs: int, lat: F64, lon: F64, radarAltFt: F64,
                           heading: F64, pitch: F64, roll: F64)

  /** The instant of 1970-01-01T00:00:00. */
  function UnixEpoch(): (t: DateTime)
    ensures Valid(t) && Instant(t) == DaysBeforeYear(1970) * DAY_MS
  {
    NewYear(1970)
  }

  /** Seconds since 1970 of a whole-second date-time. */
  function UnixSeconds(t: DateTime): int
    requires Valid(t)
  {
    (Instant(t) - Instant(UnixEpoch())) / 1000
  }

  /** `ft_to_meter`. */
  const FT_TO_METER: real := 0.3048

  /** The CPEX-AW record once its date-time is known. */
  function IctNav(row: IctRow, t: DateTime): Nav
    requires Valid(t)
  {
    Nav(UnixSeconds(t), row.lat, row.lon, MapNum(row.radarAltFt, a => a * FT_TO_METER),
        HeadingRad(row.heading), AngleRad(row.pitch), AngleRad(row.roll))
  }

  /** `get_iso_datetime(year, doy, secs)` of one record, before rendering. */
  function RowTime(row: IctRow, year: int): (r: Result<DateTime>)
    ensures r.Ok? ==> Valid(r.value)
    ensures r.Err? ==> r.error == YearError(year)
  {
    GetDateTime(year, row.doy, row.secs * 1000)
  }

  /** Every record's date-time, or the first failure. */
  function IctTimes(rows: seq<IctRow>, year: int): (r: Result<seq<DateTime>>)
    ensures r.Ok? <==> forall i :: 0 <= i < |rows| ==> RowTime(rows[i], year).Ok?
    ensures r.Ok? ==> |r.value| == |rows|
                      && forall i :: 0 <= i < |rows| ==> Ok(r.value[i]) == RowTime(rows[i], year)
    ensures r.Err? ==> r.error == YearError(year)
  {
    var rs := seq(|rows|, i requires 0 <= i < |rows| => RowTime(rows[i], year));
    assert forall i :: 0 <= i < |rows| ==> rs[i] == RowTime(rows[i], year);
    var r := AllOk(rs);
    assert r.Err? ==> r.error == YearError(year) by {
      if r.Err? {
        var i :| 0 <= i < |rs| && rs[i] == Err(r.error);
        assert RowTime(rows[i], year) == Err(r.error);
      }
    }
    r
  }

  /** The navigation records of a CPEX-AW file, or the first date failure. */
  function IctNavRows(rows: seq<IctRow>, year: int): (r: Result<seq<Nav>>)
    ensures r.Ok? <==> forall i :: 0 <= i < |rows| ==> RowTime(rows[i], year).Ok?
    ensures r.Err? ==> r.error == YearError(year)
    ensures r.Ok? ==> |r.value| == |rows|
                      && forall i :: 0 <= i < |rows| ==> r.value[i] == IctNav(rows[i], RowTime(rows[i], year).value)
  {
    var times :- IctTimes(rows, year);
    Ok(seq(|rows|, i requires 0 <= i < |rows| => IctNav(rows[i], times[i])))
  }

  /**
   * The CPEX-AW `read_csv`: every record's `get_iso_datetime(year, doy,
   * secs)` (any failure ends the read), then the shared pipeline.
   */
  function ReadIct(rows: seq<IctRow>, year: int, fmt: int -> string): (r: Result<Read>)
    ensures IctNavRows(rows, year).Err? ==> r == Err(YearError(year))
    ensures IctNavRows(rows, year).Ok? ==> r == Finish(IctNavRows(rows, year).value, fmt)
  {
    var navs :- IctNavRows(rows, year);
    Finish(navs, fmt)
  }

  /** A date-time a whole number of seconds after year 1 has no milliseconds. */
  lemma WholeInstant(t: DateTime, n: int)
    requires Valid(t) && Instant(t) == n * 1000
    ensures t.milli == 0
  {
    var y := (Ordinal(t.date.year, t.date.month, t.date.day) - 1) * 86400 + (t.hour * 60 + t.minute) * 60 + t.second;
    assert Instant(t) == y * 1000 + t.milli;
    assert t.milli == (n - y) * 1000;
  }

  /** `get_iso_datetime` with whole seconds gives whole-second date-times. */
  lemma WholeSeconds(row: IctRow, year: int)
    requires RowTime(row, year).Ok?
    ensures RowTime(row, year).value.milli == 0
  {
    var t := RowTime(row, year).value;
    var d := DaysBeforeYear(year) + row.doy - 1;
    assert Instant(t) == d * DAY_MS + row.secs * 1000;
    WholeInstant(t, d * 86400 + row.secs);
  }

  // -------------------------------------------------------------------
  // IMPACTS: MetNav ICARTT files
  // -------------------------------------------------------------------

  /** The `usecols` of each aircraft; any other plane leaves `cols` unbound. */
  function ImpactsCols(plane: string): (r: Result<seq<nat>>)
    ensures r.Ok? <==> plane == "P3B" || plane == "ER2"
    ensures r.Err? ==> r.error == Unbound
    ensures r.Ok? ==> |r.value| == 8 && r.value[..5] == [0, 1, 2, 3, 4]
    ensures r.Ok? ==> forall a, b :: 0 <= a < b < |r.value| ==> r.value[a] < r.value[b]
  {
    if plane == "P3B" then Ok([0, 1, 2, 3, 4, 12, 15, 16])
    else if plane == "ER2" then Ok([0, 1, 2, 3, 4, 10, 13, 14])
    else Err(Unbound)
  }

  /** What the reader's constructor keeps: the header line, the columns, the plane. */
  datatype ImpactsFile = ImpactsFile(hlines: nat, cols: seq<nat>, plane: string)

  /**
   * `FlightTrackReader.__init__`: search the lines for the header, then
   * store the columns; an empty file or an unknown plane fails with
   * `UnboundLocalError`.
   */
  function OpenImpacts(lines: seq<string>, plane: string): (r: Result<ImpactsFile>)
    ensures r.Ok? <==> |lines| > 0 && (plane == "P3B" || plane == "ER2")
    ensures r.Err? ==> r.error == Unbound
    ensures r.Ok? ==> r.value.hlines < |lines| && r.value.plane == plane && |r.value.cols| == 8
  {
    var h :- HeaderLines(lines);
    var cols :- ImpactsCols(plane);
    Ok(ImpactsFile(h, cols, plane))
  }

  /** One MetNav record: whole seconds since midnight of the flight day, day of year, navigation. */
  datatype MetRow = MetRow(timeS: int, jday: int, lat: F64, lon: F64, alt: F64, heading: F64, pitch: F64, roll: F64)

  const IMPACTS_YEAR: int := 2020

  /**
   * `strptime('2020' + str(jday).zfill(3), '%Y%j')`: midnight of day
   * `jday` of 2020. Any day outside 1..366 leaves text `%j` rejects (0,
   * a sign, a fourth digit or a day past the leap year's last), a
   * `ValueError`.
   */
  function CampaignDay(jday: int): (r: Result<DateTime>)
    ensures r.Ok? <==> 1 <= jday <= 366
    ensures r.Err? ==> r.error == BadDigits
    ensures r.Ok? ==> Valid(r.value) && Instant(r.value) == (DaysBeforeYear(IMPACTS_YEAR) + jday - 1) * DAY_MS
  {
    if 1 <= jday <= 366 then
      assert DaysBeforeYear(IMPACTS_YEAR) == 737424 && InstantEnd() == 3652059 * DAY_MS;
      Ok(FromInstant((DaysBeforeYear(IMPACTS_YEAR) + jday - 1) * DAY_MS))
    else Err(BadDigits)
  }

  /** The campaign day is midnight of the `jday`-th day of 2020. */
  lemma CampaignDayDate(jday: int)
    requires CampaignDay(jday).Ok?
    ensures var t := CampaignDay(jday).value;
            t.date.year == IMPACTS_YEAR && DaysBeforeMonth(IMPACTS_YEAR, t.date.month) + t.date.day == jday
            && t.hour == 0 && t.minute == 0 && t.second == 0 && t.milli == 0
  {
    var t := CampaignDay(jday).value;
    var y := t.date.year;
    InstantRange(t);
    var o := Ordinal(y, t.date.month, t.date.day);
    assert o == DaysBeforeYear(IMPACTS_YEAR) + jday;
    OrdinalInYear(y, t.date.month, t.date.day);
    if y < IMPACTS_YEAR {
      DaysBeforeYearMono(y, IMPACTS_YEAR);
      assert false;
    }
    if y > IMPACTS_YEAR {
      DaysBeforeYearMono(IMPACTS_YEAR, y);
      DaysBeforeYearStep(IMPACTS_YEAR);
      assert false;
    }
    assert TimeOfDay(t) == 0;
  }

  /** The instant of a record: its seconds after midnight of the campaign day. */
  function MetTime(day: DateTime, row: MetRow): (r: Result<DateTime>)
    requires Valid(day)
    ensures r.Ok? <==> 0 <= Instant(day) + row.timeS * 1000 < InstantEnd()
    ensures r.Ok? ==> Valid(r.value) && Instant(r.value) == Instant(day) + row.timeS * 1000
  {
    Calendar.Shift(day, row.timeS * 1000)
  }

  /** `Cdate + timedelta(seconds=s)` for every record, or the first overflow. */
  function MetTimes(day: DateTime, rows: seq<MetRow>): (r: Result<seq<DateTime>>)
    requires Valid(day)
    ensures r.Ok? <==> forall i :: 0 <= i < |rows| ==> MetTime(day, rows[i]).Ok?
    ensures r.Ok? ==> |r.value| == |rows| && forall i :: 0 <= i < |rows| ==> Ok(r.value[i]) == MetTime(day, rows[i])
  {
    var rs := seq(|rows|, i requires 0 <= i < |rows| => MetTime(day, rows[i]));
    assert forall i :: 0 <= i < |rows| ==> rs[i] == MetTime(day, rows[i]);
    AllOk(rs)
  }

  /** `h if h <= 180 else h - 360`. */
  function Unwrap(h: real): real {
    if h <= 180.0 then h else h - 360.0
  }

  /** A compass heading in [0, 360) becomes the same direction in (-180, 180]. */
  lemma UnwrapRange(h: real)
    requires 0.0 <= h < 360.0
    ensures -180.0 < Unwrap(h) <= 180.0
    ensures Unwrap(h) == h || Unwrap(h) == h - 360.0
  {
  }

  /** `(p + 90) * pi / 180` for the P3B model, `p * pi / 180` for any other plane. */
  function PitchCorrection(plane: string): real {
    if plane == "P3B" then 90.0 else 0.0
  }

  /** One record's converted navigation, keyed on its seconds after midnight. */
  function MetNav(row: MetRow, plane: string): Nav {
    Nav(row.timeS, row.lat, row.lon, row.alt,
        MapNum(row.heading, h => Rad(Unwrap(h) - 90.0)),
        MapNum(row.pitch, p => Rad(p + PitchCorrection(plane))),
        AngleRad(row.roll))
  }

  /** `df['Time_s'] % (nskip + 1) == 0`; pandas gives NaN for a zero divisor, which keeps nothing. */
  predicate OnStep(timeS: int, nskip: int) {
    nskip + 1 != 0 && timeS % (nskip + 1) == 0
  }

  function StepMask(rows: seq<MetRow>, nskip: int): (m: seq<bool>)
    ensures |m| == |rows| && forall i :: 0 <= i < |rows| ==> m[i] == OnStep(rows[i].timeS, nskip)
  {
    seq(|rows|, i requires 0 <= i < |rows| => OnStep(rows[i].timeS, nskip))
  }

  function MetNavs(rows: seq<MetRow>, plane: string): (navs: seq<Nav>)
    ensures |navs| == |rows| && forall i :: 0 <= i < |rows| ==> navs[i] == MetNav(rows[i], plane)
  {
    seq(|rows|, i requires 0 <= i < |rows| => MetNav(rows[i], plane))
  }

  /** The records `read_csv` keeps, converted. */
  function MetKept(rows: seq<MetRow>, plane: string, nskip: int): (k: seq<Nav>)
    ensures |k| == Count(StepMask(rows, nskip))
  {
    Select(MetNavs(rows, plane), StepMask(rows, nskip))
  }

  /** The instant `Cdate + timedelta(seconds=s)` of a record, in milliseconds. */
  function MetInstant(jday: int, timeS: int): int {
    (DaysBeforeYear(IMPACTS_YEAR) + jday - 1) * DAY_MS + timeS * 1000
  }

  /** `Cdate` from the first record's day, then every record's date-time. */
  function ImpactsTimes(rows: seq<MetRow>): (r: Result<seq<DateTime>>)
    requires |rows| > 0
    ensures r.Ok? <==> 1 <= rows[0].jday <= 366
                       && forall i :: 0 <= i < |rows| ==> 0 <= MetInstant(rows[0].jday, rows[i].timeS) < InstantEnd()
    ensures !(1 <= rows[0].jday <= 366) ==> r == Err(BadDigits)
    ensures r.Err? && 1 <= rows[0].jday <= 366 ==> r.error == DateOutOfRange
    ensures r.Ok? ==> |r.value| == |rows|
                      && forall i :: 0 <= i < |rows| ==>
                           Valid(r.value[i]) && Instant(r.value[i]) == MetInstant(rows[0].jday, rows[i].timeS)
  {
    var day :- CampaignDay(rows[0].jday);
    MetTimes(day, rows)
  }

  /** Sample `j` holds `row`: its seconds after `t0` and its converted navigation. */
  predicate SampleFrom(s: Samples, j: nat, row: MetRow, t0: int, plane: string) {
    var n := MetNav(row, plane);
    j < |s.steps| && j < |s.lon| && j < |s.lat| && j < |s.alt| && j < |s.roll| && j < |s.pitch| && j < |s.heading|
    && s.steps[j] == Num((row.timeS - t0) as real)
    && s.lon[j] == n.lon && s.lat[j] == n.lat && s.alt[j] == n.alt
    && s.roll[j] == n.roll && s.pitch[j] == n.pitch && s.heading[j] == n.heading
  }

  /** Sample `j` holds the `j`-th record on the sampling step, for every record on it. */
  predicate SampledOnStep(s: Samples, rows: seq<MetRow>, plane: string, nskip: int) {
    var m := StepMask(rows, nskip);
    |rows| > 0
    && forall j :: 0 <= j < Count(m) ==>
         j < |Kept(m)| && Kept(m)[j] < |rows| && SampleFrom(s, j, rows[Kept(m)[j]], rows[0].timeS, plane)
  }

  /** The sampled columns: the `j`-th record on the step goes to sample `j`. */
  function MetSamples(window: seq<string>, rows: seq<MetRow>, plane: string, nskip: int): (s: Samples)
    requires |window| >= 2 && |rows| > 0
    ensures SamplesOf(s, Count(StepMask(rows, nskip))) && s.window == window
    ensures SampledOnStep(s, rows, plane, nskip)
  {
    var k := MetKept(rows, plane, nskip);
    SelectIsKept(MetNavs(rows, plane), StepMask(rows, nskip));
    Samples(window, Times(k, rows[0].timeS), Lons(k), Lats(k), Alts(k), Rolls(k), Pitches(k), Headings(k))
  }

  /**
   * `FlightTrackReader.read_csv` followed by the driver's `len(Nav)`:
   * the window from the first and last records (before sampling), then
   * the records on the sampling step, in file order, with their seconds
   * counted from the first record. An empty table fails on `df.Jday[0]`.
   */
  function ImpactsRead(rows: seq<MetRow>, plane: string, nskip: int): (r: Result<Read>)
    ensures r.Ok? <==> |rows| > 0 && ImpactsTimes(rows).Ok?
    ensures |rows| == 0 ==> r == Err(MissingKey)
    ensures |rows| > 0 && ImpactsTimes(rows).Err? ==> r == Err(ImpactsTimes(rows).error)
    ensures r.Ok? ==> r.value.length == Count(StepMask(rows, nskip)) && SamplesOf(r.value.samples, r.value.length)
    ensures r.Ok? ==> r.value.samples.window
                      == [Stamp(FromInstant(MetInstant(rows[0].jday, rows[0].timeS))) + "Z",
                          Stamp(FromInstant(MetInstant(rows[0].jday, rows[|rows| - 1].timeS))) + "Z"]
    ensures r.Ok? ==> SampledOnStep(r.value.samples, rows, plane, nskip)
  {
    if |rows| == 0 then Err(MissingKey)
    else
      var times :- ImpactsTimes(rows);
      Ok(Read(MetSamples(MetWindow(rows, times), rows, plane, nskip), Count(StepMask(rows, nskip))))
  }

  /** The window stamps of the first and last records. */
  function MetWindow(rows: seq<MetRow>, times: seq<DateTime>): (w: seq<string>)
    requires |rows| > 0 && ImpactsTimes(rows) == Ok(times)
    ensures w == [Stamp(FromInstant(MetInstant(rows[0].jday, rows[0].timeS))) + "Z",
                  Stamp(FromInstant(MetInstant(rows[0].jday, rows[|rows| - 1].timeS))) + "Z"]
  {
    FromInstantInstant(times[0]);
    FromInstantInstant(times[|rows| - 1]);
    [Stamp(times[0]) + "Z", Stamp(times[|rows| - 1]) + "Z"]
  }

  /**
   * A converted record: heading unwrapped to (-180, 180] and turned a
   * quarter circle, pitch raised a quarter circle on the P3B only, all
   * three in radians; NaN stays NaN.
   */
  lemma MetNavValues(row: MetRow, plane: string)
    ensures var n := MetNav(row, plane);
            n.time == row.timeS && n.lat == row.lat && n.lon == row.lon && n.alt == row.alt
            && (row.heading.Num? ==> n.heading == Num(Rad(Unwrap(row.heading.r) - 90.0)))
            && (row.pitch.Num? && plane == "P3B" ==> n.pitch == Num(Rad(row.pitch.r + 90.0)))
            && (row.pitch.Num? && plane != "P3B" ==> n.pitch == Num(Rad(row.pitch.r)))
            && (row.roll.Num? ==> n.roll == Num(Rad(row.roll.r)))
            && (n.heading.NaN? <==> row.heading.NaN?) && (n.pitch.NaN? <==> row.pitch.NaN?)
            && (n.roll.NaN? <==> row.roll.NaN?)
  {
    if row.pitch.Num? {
      assert MetNav(row, plane).pitch == Num(Rad(row.pitch.r + PitchCorrection(plane)));
    }
  }

  /**
   * The samples are exactly the records on the step, in file order: every
   * such record is sampled, and later samples come from later records.
   */
  lemma ImpactsSamplesExact(rows: seq<MetRow>, plane: string, nskip: int)
    requires ImpactsRead(rows, plane, nskip).Ok?
    ensures var m := StepMask(rows, nskip);
            (forall i :: 0 <= i < |rows| && OnStep(rows[i].timeS, nskip) ==> i in Kept(m))
            && forall a, b :: 0 <= a < b < |Kept(m)| ==> Kept(m)[a] < Kept(m)[b]
  {
    var m := StepMask(rows, nskip);
    KeptIncreasing(m);
    forall i | 0 <= i < |rows| && OnStep(rows[i].timeS, nskip) ensures i in Kept(m) {
      KeptComplete(m, i);
    }
  }

  /** With `nskip = 0` every record is on the step. */
  lemma StepMaskNoSkip(rows: seq<MetRow>)
    ensures Count(StepMask(rows, 0)) == |rows|
  {
    var m := StepMask(rows, 0);
    forall i | 0 <= i < |rows| ensures m[i] {
      assert rows[i].timeS % 1 == 0;
    }
    CountAll(m);
  }

  /** With `nskip = 0` every record is sampled. */
  lemma ImpactsNoSkip(rows: seq<MetRow>, plane: string)
    requires ImpactsRead(rows, plane, 0).Ok?
    ensures ImpactsRead(rows, plane, 0).value.length == |rows|
  {
    StepMaskNoSkip(rows);
  }

  /** The sampling step changes neither whether the read succeeds nor its window. */
  lemma ImpactsWindowIgnoresStep(rows: seq<MetRow>, plane: string, a: int, b: int)
    requires ImpactsRead(rows, plane, a).Ok?
    ensures ImpactsRead(rows, plane, b).Ok?
    ensures ImpactsRead(rows, plane, a).value.samples.window == ImpactsRead(rows, plane, b).value.samples.window
  {
  }

  /** A successful read always fills the writer the driver builds for the same plane. */
  lemma ImpactsFills(rows: seq<MetRow>, plane: string, nskip: int)
    requires ImpactsRead(rows, plane, nskip).Ok? && (plane == "P3B" || plane == "ER2")
    ensures var rd := ImpactsRead(rows, plane, nskip).value;
            Fill(ImpactsWriter(rd.length, plane).value, rd.samples).Ok?
  {
  }
}

/**
 * Availability intervals read off radar file names. NEXRAD images are
 * named `..._<YYYYMMDD>_<HHMM>_...` and NPOL scans
 * `.../<a>_<b>_<YYYYMMDD>_<HHMMSS>_...`. Each file is available from its
 * own time stamp to the next file's, the last one for a fixed span after
 * its own.
 */
module Availability {
  import opened Wrappers
  import opened Seqs
  import opened Strings
  import opened FileNames
  import opened IntText

  // -------------------------------------------------------------------
  // NEXRAD: grouping a listing by day
  // -------------------------------------------------------------------

  /** `itertools.groupby` on (item, key) pairs: maximal runs of equal keys. */
  function GroupRuns(ps: seq<(string, string)>): (gs: seq<seq<(string, string)>>)
    ensures Flatten(gs) == ps
    ensures forall g :: 0 <= g < |gs| ==> |gs[g]| > 0
    ensures forall g, j :: 0 <= g < |gs| && 0 <= j < |gs[g]| ==> gs[g][j].1 == gs[g][0].1
    ensures forall g :: 0 <= g < |gs| - 1 ==> gs[g][0].1 != gs[g + 1][0].1
    ensures |ps| > 0 ==> |gs| > 0 && gs[0][0] == ps[0]
  {
    if |ps| == 0 then []
    else
      var rest := GroupRuns(ps[1..]);
      assert ps == [ps[0]] + ps[1..];
      if |rest| > 0 && rest[0][0].1 == ps[0].1 then
        var gs := [[ps[0]] + rest[0]] + rest[1..];
        assert gs[1..] == rest[1..];
        assert Flatten(rest) == rest[0] + Flatten(rest[1..]);
        gs
      else
        var gs := [[ps[0]]] + rest;
        assert gs[1..] == rest;
        gs
  }

  function Names(ps: seq<(string, string)>): (r: seq<string>)
    ensures |r| == |ps| && forall i :: 0 <= i < |ps| ==> r[i] == ps[i].0
  {
    seq(|ps|, i requires 0 <= i < |ps| => ps[i].0)
  }

  lemma {:induction false} FlattenNames(gs: seq<seq<(string, string)>>)
    ensures Flatten(seq(|gs|, g requires 0 <= g < |gs| => Names(gs[g]))) == Names(Flatten(gs))
    decreases |gs|
  {
    if |gs| > 0 {
      var ns := seq(|gs|, g requires 0 <= g < |gs| => Names(gs[g]));
      var tail := seq(|gs| - 1, g requires 0 <= g < |gs| - 1 => Names(gs[1..][g]));
      assert ns[1..] == tail;
      FlattenNames(gs[1..]);
      assert Names(gs[0] + Flatten(gs[1..])) == Names(gs[0]) + Names(Flatten(gs[1..]));
    }
  }

  /** The NEXRAD day key: the fourth `_`-field, the field the GOES-R CRS date is read from. */
  function DayKey(name: string): (r: Result<string>)
    ensures r.Ok? <==> |Split(name, "_")| >= 4
  {
    CrsGoesrDate(name)
  }

  /** Every name has a day key. */
  predicate AllKeyed(names: seq<string>) {
    forall i :: 0 <= i < |names| ==> |Split(names[i], "_")| >= 4
  }

  /** Sorting neither adds nor loses a name, so it keeps `AllKeyed`. */
  lemma SortKeepsKeyed(names: seq<string>)
    ensures AllKeyed(SortStrings(names)) <==> AllKeyed(names)
  {
    var sorted := SortStrings(names);
    if AllKeyed(names) {
      forall j | 0 <= j < |sorted| ensures |Split(sorted[j], "_")| >= 4 {
        assert sorted[j] in multiset(sorted);
        var i :| 0 <= i < |names| && names[i] == sorted[j];
      }
    }
    if AllKeyed(sorted) {
      forall i | 0 <= i < |names| ensures |Split(names[i], "_")| >= 4 {
        assert names[i] in multiset(names);
        var j :| 0 <= j < |sorted| && sorted[j] == names[i];
      }
    }
  }

  /** Each pair holds a name and that name's day key. */
  predicate KeyedPairs(ps: seq<(string, string)>) {
    forall k :: 0 <= k < |ps| ==> DayKey(ps[k].0) == Ok(ps[k].1)
  }

  /**
   * The names of the runs of a keyed listing: they concatenate to the
   * listing's names, no group is empty, a group shares one day key and
   * neighbouring groups differ in it.
   */
  lemma NamedRuns(ps: seq<(string, string)>)
    requires KeyedPairs(ps)
    ensures var runs := GroupRuns(ps);
            var gs := seq(|runs|, g requires 0 <= g < |runs| => Names(runs[g]));
            Flatten(gs) == Names(ps)
            && (forall g :: 0 <= g < |gs| ==> |gs[g]| > 0)
            && (forall g, j :: 0 <= g < |gs| && 0 <= j < |gs[g]| ==> DayKey(gs[g][j]) == DayKey(gs[g][0]))
            && (forall g :: 0 <= g < |gs| - 1 ==> DayKey(gs[g][0]) != DayKey(gs[g + 1][0]))
  {
    var runs := GroupRuns(ps);
    FlattenNames(runs);
    forall g, j | 0 <= g < |runs| && 0 <= j < |runs[g]| ensures DayKey(runs[g][j].0) == Ok(runs[g][j].1) {
      RunMember(ps, runs, g, j);
    }
  }

  /**
   * `group_by_unique_dates`: sort the names, then cut them into maximal
   * runs sharing a day key. It fails exactly when some name has no fourth
   * `_`-field; otherwise the groups concatenate to the sorted listing, no
   * group is empty, the names of a group share their day key and
   * neighbouring groups differ in it.
   */
  function GroupByUniqueDates(names: seq<string>): (r: Result<seq<seq<string>>>)
    ensures r.Ok? <==> AllKeyed(names)
    ensures r.Ok? ==>
              var gs := r.value;
              Flatten(gs) == SortStrings(names)
              && (forall g :: 0 <= g < |gs| ==> |gs[g]| > 0)
              && (forall g, j :: 0 <= g < |gs| && 0 <= j < |gs[g]| ==> DayKey(gs[g][j]) == DayKey(gs[g][0]))
              && (forall g :: 0 <= g < |gs| - 1 ==> DayKey(gs[g][0]) != DayKey(gs[g + 1][0]))
  {
    var sorted := SortStrings(names);
    SortKeepsKeyed(names);
    var ps :- KeyPairs(sorted);
    NamedRuns(ps);
    var runs := GroupRuns(ps);
    Ok(seq(|runs|, g requires 0 <= g < |runs| => Names(runs[g])))
  }

  /** Each name paired with its day key; fails on the first name without one. */
  function KeyPairs(names: seq<string>): (r: Result<seq<(string, string)>>)
    ensures r.Ok? <==> AllKeyed(names)
    ensures r.Ok? ==> Names(r.value) == names && KeyedPairs(r.value)
  {
    var keys := AllOk(seq(|names|, i requires 0 <= i < |names| => DayKey(names[i])));
    if keys.Err? then Err(keys.error)
    else
      var ps := seq(|names|, i requires 0 <= i < |names| => (names[i], keys.value[i]));
      assert Names(ps) == names;
      Ok(ps)
  }

  /** Each grouped pair is one of the listing's (name, key) pairs. */
  lemma RunMember(ps: seq<(string, string)>, runs: seq<seq<(string, string)>>, g: nat, j: nat)
    requires Flatten(runs) == ps
    requires g < |runs| && j < |runs[g]|
    ensures runs[g][j] in ps
  {
    FlattenMember(runs, g, j);
  }

  lemma {:induction false} FlattenMember<T>(gs: seq<seq<T>>, g: nat, j: nat)
    requires g < |gs| && j < |gs[g]|
    ensures gs[g][j] in Flatten(gs)
    decreases g
  {
    if g == 0 {
      assert Flatten(gs) == gs[0] + Flatten(gs[1..]);
      assert Flatten(gs)[j] == gs[0][j];
    } else {
      FlattenMember(gs[1..], g - 1, j);
      assert Flatten(gs) == gs[0] + Flatten(gs[1..]);
    }
  }

  // -------------------------------------------------------------------
  // Clock strings
  // -------------------------------------------------------------------

  /** A four-digit `HHMM` clock time. */
  predicate ValidHHMM(t: string) {
    |t| == 4 && AllDigits(t) && DigitsValue(t[..2]) < 24 && DigitsValue(t[2..]) < 60
  }

  /** A six-digit `HHMMSS` clock time. */
  predicate ValidHHMMSS(t: string) {
    |t| == 6 && AllDigits(t)
    && DigitsValue(t[..2]) < 24 && DigitsValue(t[2..4]) < 60 && DigitsValue(t[4..]) < 60
  }

  function MinutesOf(t: string): nat
    requires ValidHHMM(t)
  {
    DigitsValue(t[..2]) * 60 + DigitsValue(t[2..])
  }

  function SecondsOf(t: string): nat
    requires ValidHHMMSS(t)
  {
    DigitsValue(t[..2]) * 3600 + DigitsValue(t[2..4]) * 60 + DigitsValue(t[4..])
  }

  /** `"%02d"` of a number below 100. */
  function TwoDigits(n: nat): (s: string)
    requires n < 100
    ensures |s| == 2 && AllDigits(s) && DigitsValue(s) == n
  {
    if n < 10 then ZeroPad(n, 2)
    else
      assert |NatToString(n / 10)| == 1;
      ZeroPad(n, 2)
  }

  /** A clock string `HHMM` for a minute of the day. */
  function HHMM(m: nat): (t: string)
    requires m < 24 * 60
    ensures ValidHHMM(t) && MinutesOf(t) == m
  {
    var t := TwoDigits(m / 60) + TwoDigits(m % 60);
    assert t[..2] == TwoDigits(m / 60) && t[2..] == TwoDigits(m % 60);
    t
  }

  /** A clock string `HHMMSS` for a second of the day. */
  function HHMMSS(s: nat): (t: string)
    requires s < 24 * 3600
    ensures ValidHHMMSS(t) && SecondsOf(t) == s
  {
    var t := TwoDigits(s / 3600) + TwoDigits(s % 3600 / 60) + TwoDigits(s % 60);
    assert t[..2] == TwoDigits(s / 3600) && t[2..4] == TwoDigits(s % 3600 / 60) && t[4..] == TwoDigits(s % 60);
    t
  }

  // -------------------------------------------------------------------
  // collectDateTimeRange (NEXRAD) and collectAvailabilityDateTimeRange (NPOL)
  // -------------------------------------------------------------------

  /** The two radars differ in the clock layout of their names and stamps. */
  datatype Radar = Nexrad | Npol

  /** `f"{date}T{t[:2]}:{t[2:]}:00Z"`. */
  function NexradStamp(date: string, t: string): string {
    IsoDate(date) + "T" + Take(t, 2) + ":" + Drop(t, 2) + ":00Z"
  }

  /** `f"{date}T{t[:2]}:{t[2:4]}:{t[4:]}Z"`. */
  function NpolStamp(date: string, t: string): string {
    IsoDate(date) + "T" + Take(t, 2) + ":" + Slice(t, 2, 4) + ":" + Drop(t, 4) + "Z"
  }

  function Stamp(radar: Radar, date: string, t: string): string {
    match radar
    case Nexrad => NexradStamp(date, t)
    case Npol => NpolStamp(date, t)
  }

  /** A stamp of a four-digit time shows that time, so one date never gives two times one stamp. */
  lemma NexradStampShowsTime(date: string, t: string)
    requires |t| == 4
    ensures var s := NexradStamp(date, t); var n := |IsoDate(date)|;
            |s| == n + 10 && s[n + 1..n + 3] + s[n + 4..n + 6] == t
  {
    assert Take(t, 2) == t[..2] && Drop(t, 2) == t[2..];
    MinuteShown(IsoDate(date), t[..2], t[2..]);
    assert t == t[..2] + t[2..];
  }

  /** The two two-character fields of `pT hh:mm:00Z`. */
  lemma MinuteShown(p: string, h: string, m: string)
    requires |h| == 2 && |m| == 2
    ensures var x := p + "T" + h + ":" + m + ":00Z"; var n := |p|;
            |x| == n + 10 && x[n + 1..n + 3] == h && x[n + 4..n + 6] == m
  {
    var x := p + "T" + h + ":" + m + ":00Z";
    assert x[|p| + 1..|p| + 3] == h;
  }

  lemma NexradStampInjective(date: string, t: string, u: string)
    requires |t| == 4 && |u| == 4 && NexradStamp(date, t) == NexradStamp(date, u)
    ensures t == u
  {
    NexradStampShowsTime(date, t);
    NexradStampShowsTime(date, u);
  }

  /** A stamp of a six-digit time shows that time. */
  lemma NpolStampShowsTime(date: string, t: string)
    requires |t| == 6
    ensures var s := NpolStamp(date, t); var n := |IsoDate(date)|;
            |s| == n + 10 && s[n + 1] == t[0] && s[n + 2] == t[1] && s[n + 4] == t[2]
            && s[n + 5] == t[3] && s[n + 7] == t[4] && s[n + 8] == t[5]
  {
    assert Take(t, 2) == t[..2] && Slice(t, 2, 4) == t[2..4] && Drop(t, 4) == t[4..];
    ClockShown(IsoDate(date), t[..2], t[2..4], t[4..]);
  }

  /** The characters of three two-character fields in `pT hh:mm:ssZ`. */
  lemma ClockShown(p: string, h: string, m: string, s: string)
    requires |h| == 2 && |m| == 2 && |s| == 2
    ensures var x := p + "T" + h + ":" + m + ":" + s + "Z"; var n := |p|;
            |x| == n + 10 && x[n + 1] == h[0] && x[n + 2] == h[1] && x[n + 4] == m[0]
            && x[n + 5] == m[1] && x[n + 7] == s[0] && x[n + 8] == s[1]
  {
  }

  lemma NpolStampInjective(date: string, t: string, u: string)
    requires |t| == 6 && |u| == 6 && NpolStamp(date, t) == NpolStamp(date, u)
    ensures t == u
  {
    NpolStampShowsTime(date, t);
    NpolStampShowsTime(date, u);
    assert forall k :: 0 <= k < 6 ==> t[k] == u[k];
  }

  /**
   * The last NEXRAD image as written: `str(int(t) + 10)`, capped at 2359.
   * `int` raises on text it cannot read, and reads signs, surrounding
   * spaces and underscores between digits.
   */
  function NexradLastEndAsWritten(t: string): (r: Result<string>)
    ensures r.Ok? <==> ParseInt(t, 10).Ok?
    ensures r.Ok? ==> ParseInt(r.value, 10) == Ok(if ParseInt(t, 10).value + 10 < 2359 then ParseInt(t, 10).value + 10 else 2359)
  {
    var v :- ParseInt(t, 10);
    var e := if v + 10 < 2359 then v + 10 else 2359;
    ParseIntToString(e);
    Ok(IntToString(e))
  }

  /**
   * Once `int` has read the start as `v`, the end is `str` of the capped
   * sum: its shortest decimal text, with a leading `-` when negative.
   */
  lemma NexradLastEndAsWrittenRead(t: string, v: int)
    requires ParseInt(t, 10) == Ok(v)
    ensures NexradLastEndAsWritten(t) == Ok(IntToString(if v + 10 < 2359 then v + 10 else 2359))
  {
  }

  /** The last NEXRAD image, ten minutes on the clock after its start, at most 23:59. */
  function NexradLastEnd(t: string): (r: Result<string>)
    ensures r.Ok? <==> ValidHHMM(t)
    ensures r.Ok? ==> ValidHHMM(r.value) && MinutesOf(r.value) == if MinutesOf(t) + 10 < 1439 then MinutesOf(t) + 10 else 1439
  {
    if ValidHHMM(t) then
      var m := MinutesOf(t) + 10;
      Ok(HHMM(if m < 1439 then m else 1439))
    else Err(BadDigits)
  }

  /** The last NPOL scan as written: `str(int(t) + 2000)`, capped at 235900, with `int` as above. */
  function NpolLastEndAsWritten(t: string): (r: Result<string>)
    ensures r.Ok? <==> ParseInt(t, 10).Ok?
    ensures r.Ok? ==> ParseInt(r.value, 10) == Ok(if ParseInt(t, 10).value + 2000 < 235900 then ParseInt(t, 10).value + 2000 else 235900)
  {
    var v :- ParseInt(t, 10);
    var e := if v + 2000 < 235900 then v + 2000 else 235900;
    ParseIntToString(e);
    Ok(IntToString(e))
  }

  /** As for NEXRAD: once `int` has read the start as `v`, the end is `str` of the capped sum. */
  lemma NpolLastEndAsWrittenRead(t: string, v: int)
    requires ParseInt(t, 10) == Ok(v)
    ensures NpolLastEndAsWritten(t) == Ok(IntToString(if v + 2000 < 235900 then v + 2000 else 235900))
  {
  }

  /** The last NPOL scan, twenty minutes on the clock after its start, at most 23:59:00. */
  function NpolLastEnd(t: string): (r: Result<string>)
    ensures r.Ok? <==> ValidHHMMSS(t)
    ensures r.Ok? ==> ValidHHMMSS(r.value)
                      && SecondsOf(r.value) == if SecondsOf(t) + 1200 < 86340 then SecondsOf(t) + 1200 else 86340
  {
    if ValidHHMMSS(t) then
      var s := SecondsOf(t) + 1200;
      Ok(HHMMSS(if s < 86340 then s else 86340))
    else Err(BadDigits)
  }

  /** The end given to the last file: as written, or on the clock. */
  function LastEnd(radar: Radar, onClock: bool, t: string): Result<string> {
    if onClock then ClockEnd(radar, t) else WrittenEnd(radar, t)
  }

  function ClockEnd(radar: Radar, t: string): Result<string> {
    match radar
    case Nexrad => NexradLastEnd(t)
    case Npol => NpolLastEnd(t)
  }

  function WrittenEnd(radar: Radar, t: string): Result<string> {
    match radar
    case Nexrad => NexradLastEndAsWritten(t)
    case Npol => NpolLastEndAsWritten(t)
  }

  function StartStamps(names: seq<string>, field: nat): (r: Result<seq<string>>)
    ensures r.Ok? <==> forall i :: 0 <= i < |names| ==> |Split(names[i], "_")| > field
    ensures r.Ok? ==> |r.value| == |names| && forall i :: 0 <= i < |names| ==> r.value[i] == Split(names[i], "_")[field]
  {
    var rs := seq(|names|, i requires 0 <= i < |names| => Field(names[i], "_", field));
    assert forall i :: 0 <= i < |names| ==> (rs[i].Ok? <==> |Split(names[i], "_")| > field);
    AllOk(rs)
  }

  /** Pair each start with the next one, the last with `last`. */
  function Chain(starts: seq<string>, last: string): (r: seq<(string, string)>)
    ensures |r| == |starts|
    ensures forall i :: 0 <= i < |r| ==> r[i].0 == starts[i]
    ensures forall i :: 0 <= i < |r| - 1 ==> r[i].1 == r[i + 1].0
    ensures |r| > 0 ==> r[|r| - 1].1 == last
  {
    var ext := starts + [last];
    seq(|starts|, i requires 0 <= i < |starts| => (ext[i], ext[i + 1]))
  }

  function Stamped(radar: Radar, date: string, chain: seq<(string, string)>): (r: seq<(string, string)>)
    ensures |r| == |chain|
    ensures forall i :: 0 <= i < |r| ==> r[i] == (Stamp(radar, date, chain[i].0), Stamp(radar, date, chain[i].1))
  {
    seq(|chain|, i requires 0 <= i < |chain| => (Stamp(radar, date, chain[i].0), Stamp(radar, date, chain[i].1)))
  }

  /** The time field of the last name. */
  function LastTime(names: seq<string>, timeField: nat): string
    requires |names| > 0 && |Split(names[|names| - 1], "_")| > timeField
  {
    Split(names[|names| - 1], "_")[timeField]
  }

  /** Every field the loop reads is there and the last time converts. */
  predicate RangesDefined(radar: Radar, onClock: bool, names: seq<string>, dateField: nat, timeField: nat) {
    |names| > 0 && |Split(names[0], "_")| > dateField
    && (forall i :: 0 <= i < |names| ==> |Split(names[i], "_")| > timeField)
    && LastEnd(radar, onClock, LastTime(names, timeField)).Ok?
  }

  /**
   * The loop shared by both helpers. It fails exactly when a field is
   * missing or the last time does not convert. Otherwise there is one
   * interval per name, in order: each starts at the name's own
   * `timeField`-th `_`-field, on the date in the first name's
   * `dateField`-th, and ends where the next begins; the last ends at
   * `LastEnd` of its own time.
   */
  function Ranges(radar: Radar, onClock: bool, names: seq<string>, dateField: nat, timeField: nat): (r: Result<seq<(string, string)>>)
    ensures r.Ok? <==> RangesDefined(radar, onClock, names, dateField, timeField)
    ensures r.Ok? ==>
              var date := Split(names[0], "_")[dateField];
              |r.value| == |names|
              && (forall i :: 0 <= i < |names| ==> r.value[i].0 == Stamp(radar, date, Split(names[i], "_")[timeField]))
              && (forall i :: 0 <= i < |names| - 1 ==> r.value[i].1 == r.value[i + 1].0)
              && r.value[|names| - 1].1 == Stamp(radar, date, LastEnd(radar, onClock, LastTime(names, timeField)).value)
  {
    if |names| == 0 then Err(IndexOutOfRange)
    else
      var date :- Field(names[0], "_", dateField);
      var starts :- StartStamps(names, timeField);
      assert starts[|names| - 1] == LastTime(names, timeField);
      var last :- LastEnd(radar, onClock, starts[|names| - 1]);
      Ok(StampedChain(radar, date, starts, last))
  }

  /** The chained intervals with every clock time stamped on `date`. */
  function StampedChain(radar: Radar, date: string, starts: seq<string>, last: string): (r: seq<(string, string)>)
    ensures |r| == |starts|
    ensures forall i :: 0 <= i < |r| ==> r[i].0 == Stamp(radar, date, starts[i])
    ensures forall i :: 0 <= i < |r| - 1 ==> r[i].1 == r[i + 1].0
    ensures |r| > 0 ==> r[|r| - 1].1 == Stamp(radar, date, last)
  {
    Stamped(radar, date, Chain(starts, last))
  }

  /**
   * `collectDateTimeRange`, with the last image's end as written or on
   * the clock: date in the fourth `_`-field, time in the fifth.
   */
  function NexradRangesWith(files: seq<string>, onClock: bool): Result<seq<(string, string)>> {
    Ranges(Nexrad, onClock, files, 3, 4)
  }

  function NexradRangesAsWritten(files: seq<string>): Result<seq<(string, string)>> {
    NexradRangesWith(files, false)
  }

  function NexradRanges(files: seq<string>): Result<seq<(string, string)>> {
    NexradRangesWith(files, true)
  }

  function BaseNames(files: seq<string>): (r: seq<string>)
    ensures |r| == |files| && forall i :: 0 <= i < |files| ==> !Contains(r[i], "/")
  {
    seq(|files|, i requires 0 <= i < |files| => LastField(files[i], "/"))
  }

  /**
   * `collectAvailabilityDateTimeRange`, with the last scan's end as
   * written or on the clock, over the base names of the paths: date in
   * the third `_`-field, time in the fourth.
   */
  function NpolRangesWith(files: seq<string>, onClock: bool): Result<seq<(string, string)>> {
    Ranges(Npol, onClock, BaseNames(files), 2, 3)
  }

  function NpolRangesAsWritten(files: seq<string>): Result<seq<(string, string)>> {
    NpolRangesWith(files, false)
  }

  function NpolRanges(files: seq<string>): Result<seq<(string, string)>> {
    NpolRangesWith(files, true)
  }

  /**
   * Corrected NEXRAD availability is defined exactly when every name has
   * a time field, the first a date and the last time is a clock time.
   */
  lemma NexradRangesSpec(files: seq<string>)
    ensures NexradRanges(files).Ok? <==>
              |files| > 0 && |Split(files[0], "_")| > 3
              && (forall i :: 0 <= i < |files| ==> |Split(files[i], "_")| > 4)
              && ValidHHMM(LastTime(files, 4))
  {
    assert NexradRanges(files) == Ranges(Nexrad, true, files, 3, 4);
    if |files| > 0 && |Split(files[0], "_")| > 3 && forall i :: 0 <= i < |files| ==> |Split(files[i], "_")| > 4 {
      assert LastEnd(Nexrad, true, LastTime(files, 4)) == NexradLastEnd(LastTime(files, 4));
    }
  }

  /**
   * On success the intervals chain from image to image on the first
   * image's date; the last lasts ten minutes on the clock.
   */
  lemma NexradRangesShape(files: seq<string>)
    requires NexradRanges(files).Ok?
    ensures var r := NexradRanges(files).value;
            var date := Split(files[0], "_")[3];
            var t := LastTime(files, 4);
            |r| == |files|
            && (forall i :: 0 <= i < |files| ==> r[i].0 == NexradStamp(date, Split(files[i], "_")[4]))
            && (forall i :: 0 <= i < |files| - 1 ==> r[i].1 == r[i + 1].0)
            && exists e :: ValidHHMM(e) && r[|r| - 1].1 == NexradStamp(date, e)
                           && MinutesOf(e) == if MinutesOf(t) + 10 < 1439 then MinutesOf(t) + 10 else 1439
  {
    var r := Ranges(Nexrad, true, files, 3, 4).value;
    var date := Split(files[0], "_")[3];
    var t := LastTime(files, 4);
    var e := NexradLastEnd(t).value;
    assert r[|r| - 1].1 == NexradStamp(date, e);
  }

  /**
   * Corrected NPOL availability is defined exactly when every base name
   * has a time field, the first a date and the last time is a clock time.
   */
  lemma NpolRangesSpec(files: seq<string>)
    ensures var bs := BaseNames(files);
            NpolRanges(files).Ok? <==>
              |files| > 0 && |Split(bs[0], "_")| > 2
              && (forall i :: 0 <= i < |files| ==> |Split(bs[i], "_")| > 3)
              && ValidHHMMSS(LastTime(bs, 3))
  {
    var bs := BaseNames(files);
    assert NpolRanges(files) == Ranges(Npol, true, bs, 2, 3);
    if |bs| > 0 && |Split(bs[0], "_")| > 2 && forall i :: 0 <= i < |bs| ==> |Split(bs[i], "_")| > 3 {
      assert LastEnd(Npol, true, LastTime(bs, 3)) == ClockEnd(Npol, LastTime(bs, 3)) == NpolLastEnd(LastTime(bs, 3));
    }
  }

  /** On success the intervals chain from scan to scan; the last lasts twenty minutes. */
  lemma NpolRangesShape(files: seq<string>)
    requires NpolRanges(files).Ok?
    ensures var bs := BaseNames(files);
            var r := NpolRanges(files).value;
            var date := Split(bs[0], "_")[2];
            var t := LastTime(bs, 3);
            |r| == |files|
            && (forall i :: 0 <= i < |files| ==> r[i].0 == NpolStamp(date, Split(bs[i], "_")[3]))
            && (forall i :: 0 <= i < |files| - 1 ==> r[i].1 == r[i + 1].0)
            && ValidHHMMSS(t)
            && exists e :: ValidHHMMSS(e) && r[|r| - 1].1 == NpolStamp(date, e)
                           && SecondsOf(e) == if SecondsOf(t) + 1200 < 86340 then SecondsOf(t) + 1200 else 86340
  {
    var e := NpolLastInterval(files);
  }

  /** The end of the last NPOL interval, `e`, is twenty minutes after its start, at most 23:59:00. */
  lemma NpolLastInterval(files: seq<string>) returns (e: string)
    requires NpolRanges(files).Ok?
    ensures var bs := BaseNames(files);
            var r := NpolRanges(files).value;
            var t := LastTime(bs, 3);
            |r| == |files| && ValidHHMMSS(e) && r[|r| - 1].1 == NpolStamp(Split(bs[0], "_")[2], e)
            && ValidHHMMSS(t) && SecondsOf(e) == if SecondsOf(t) + 1200 < 86340 then SecondsOf(t) + 1200 else 86340
  {
    var bs := BaseNames(files);
    var t := LastTime(bs, 3);
    assert NpolLastEnd(t).Ok?;
    e := NpolLastEnd(t).value;
  }

  // -------------------------------------------------------------------
  // Worked values of the as-written last end
  // -------------------------------------------------------------------

  lemma Value0304()
    ensures AllDigits("0304") && DigitsValue("0304") == 304
  {
    Digits4("0304");
    Digits2("0304"[..2]);
    Digits2("0304"[2..]);
  }

  lemma Value314()
    ensures AllDigits("314") && DigitsValue("314") == 314
  {
    Digits3("314");
  }

  lemma StampOf314()
    ensures NexradStamp("20160429", "314") == "2016-04-29T31:4:00Z"
  {
    assert Take("20160429", 4) == "2016" && Drop(Take("20160429", 6), 4) == "04" && Drop("20160429", 6) == "29";
    assert IsoDate("20160429") == "2016-04-29";
    assert Take("314", 2) == "31" && Drop("314", 2) == "4";
  }

  /**
   * Finding: `0304` as written ends at `314`, shown as `31:4` — not a
   * clock time — where ten minutes on the clock give `0314`.
   */
  lemma NexradLastEndDropsZero()
    ensures NexradLastEndAsWritten("0304") == Ok("314")
    ensures NexradStamp("20160429", "314") == "2016-04-29T31:4:00Z"
    ensures !ValidHHMM("314")
  {
    Value0304();
    ParseIntDecimal("0304");
    NexradLastEndAsWrittenRead("0304", 304);
    Value314();
    CanonicalDigitsUnique("314");
    StampOf314();
  }

  lemma ReadMinus20()
    ensures ParseInt("-20", 10) == Ok(-20)
  {
    assert "-20" == "-" + "20";
    assert AllDigits("20") by { assert IsDigit('2') && IsDigit('0'); }
    Digits2("20");
    PlainDecimal("20");
    ParseIntSigned("20", 10);
  }

  lemma TextOf10()
    ensures NatToString(10) == "10"
  {
    assert AllDigits("10") by { assert IsDigit('1') && IsDigit('0'); }
    Digits2("10");
    CanonicalDigitsUnique("10");
  }

  /** A negative start is read with its sign: `-20` as written ends at `-10`. */
  lemma NexradLastEndNegativeStart()
    ensures NexradLastEndAsWritten("-20") == Ok("-10")
  {
    ReadMinus20();
    NexradLastEndAsWrittenRead("-20", -20);
    TextOf10();
    assert IntToString(-10) == "-" + NatToString(10);
    assert "-" + "10" == "-10";
  }

  lemma Value1255()
    ensures AllDigits("1255") && DigitsValue("1255") == 1255
    ensures ValidHHMM("1255") && MinutesOf("1255") == 775
  {
    Digits4("1255");
    Digits2("1255"[..2]);
    Digits2("1255"[2..]);
  }

  lemma Value1305()
    ensures ValidHHMM("1305") && MinutesOf("1305") == 785
  {
    Digits2("1305"[..2]);
    Digits2("1305"[2..]);
  }

  lemma Value1265()
    ensures AllDigits("1265") && DigitsValue("1265") == 1265 && DigitsValue("1265"[2..]) == 65
  {
    Digits4("1265");
    Digits2("1265"[..2]);
    Digits2("1265"[2..]);
  }

  /** A valid clock string is fixed by its minute of the day. */
  lemma ClockUnique(t: string, u: string)
    requires ValidHHMM(t) && ValidHHMM(u) && MinutesOf(t) == MinutesOf(u)
    ensures t == u
  {
    DigitsInjective(t[..2], u[..2]);
    DigitsInjective(t[2..], u[2..]);
    assert t == t[..2] + t[2..] && u == u[..2] + u[2..];
  }

  /** Finding: `1255` as written ends at `1265`, minute 65; on the clock it is `1305`. */
  lemma NexradLastEndMinuteOverflow()
    ensures NexradLastEndAsWritten("1255") == Ok("1265")
    ensures !ValidHHMM("1265")
    ensures NexradLastEnd("1255") == Ok("1305")
  {
    Value1255();
    ParseIntDecimal("1255");
    NexradLastEndAsWrittenRead("1255", 1255);
    Value1265();
    CanonicalDigitsUnique("1265");
    Value1305();
    ClockUnique(NexradLastEnd("1255").value, "1305");
  }

  lemma Value170127()
    ensures AllDigits("170127") && DigitsValue("170127") == 170127
  {
    Digits6("170127");
    Digits3("170127"[..3]);
    Digits3("170127"[3..]);
  }

  lemma Value172127()
    ensures AllDigits("172127") && DigitsValue("172127") == 172127
  {
    Digits6("172127");
    Digits3("172127"[..3]);
    Digits3("172127"[3..]);
  }

  /** The documented example: 17:01:27 ends at 17:21:27. */
  lemma NpolLastEndExample()
    ensures NpolLastEndAsWritten("170127") == Ok("172127")
  {
    Value170127();
    ParseIntDecimal("170127");
    NpolLastEndAsWrittenRead("170127", 170127);
    Value172127();
    CanonicalDigitsUnique("172127");
  }

  lemma Value164848()
    ensures AllDigits("164848") && DigitsValue("164848") == 164848
  {
    Digits6("164848");
    Digits3("164848"[..3]);
    Digits3("164848"[3..]);
  }

  lemma Value166848()
    ensures AllDigits("166848") && DigitsValue("166848") == 166848 && DigitsValue("166848"[2..4]) == 68
  {
    Digits6("166848");
    Digits3("166848"[..3]);
    Digits3("166848"[3..]);
    Digits2("166848"[2..4]);
  }

  /** Finding: `164848` as written ends at `166848`, minute 68. */
  lemma NpolLastEndMinuteOverflow()
    ensures NpolLastEndAsWritten("164848") == Ok("166848")
    ensures !ValidHHMMSS("166848")
  {
    Value164848();
    ParseIntDecimal("164848");
    NpolLastEndAsWrittenRead("164848", 164848);
    Value166848();
    CanonicalDigitsUnique("166848");
  }
}

/**
 * The search and filter helpers of `utils/ingest_utils.py` (and their
 * copies in `hs3/CPL/cpl_utils/ingest_utils.py`): the midnight wrap of a
 * time column, the pattern search that hands back the rest of the file
 * list, the GLM file scan built on it, the LMA header search, the
 * station-mask popcount filter of `get_LMA`, and the LMA file listing.
 * Time stamps are produced by `strftime`, which the model takes as given
 * strings.
 */
module IngestUtils {
  import opened Wrappers
  import opened Seqs
  import opened Strings
  import opened IntText

  // -------------------------------------------------------------------
  // Midnight wrap
  // -------------------------------------------------------------------

  /**
   * `hr[hr < hr[0]] += period`: samples earlier than the first one are
   * taken to belong to the next day. `add24hr` uses a period of 24 hours,
   * IMPACTS `ER2CPL` one of 86400 seconds. Reading `hr[0]` of an empty
   * array raises.
   */
  function Unwrap(xs: seq<real>, period: real): (r: Result<seq<real>>)
    ensures r.Ok? <==> |xs| > 0
    ensures r.Ok? ==> |r.value| == |xs| && r.value[0] == xs[0]
    ensures r.Ok? ==> forall i :: 0 <= i < |xs| && xs[i] >= xs[0] ==> r.value[i] == xs[i]
    ensures r.Ok? ==> forall i :: 0 <= i < |xs| && xs[i] < xs[0] ==> r.value[i] == xs[i] + period
  {
    if |xs| == 0 then Err(IndexOutOfRange)
    else Ok(seq(|xs|, i requires 0 <= i < |xs| => if xs[i] < xs[0] then xs[i] + period else xs[i]))
  }

  function Add24hr(hr: seq<real>): Result<seq<real>> {
    Unwrap(hr, 24.0)
  }

  /**
   * For clock readings within one period, every unwrapped sample lies in
   * the period that starts at the first sample, and differs from its
   * reading by zero or one whole period.
   */
  lemma UnwrapWithinPeriod(xs: seq<real>, period: real)
    requires |xs| > 0
    requires forall i :: 0 <= i < |xs| ==> 0.0 <= xs[i] < period
    ensures var r := Unwrap(xs, period).value;
            forall i :: 0 <= i < |xs| ==>
              xs[0] <= r[i] < xs[0] + period && (r[i] == xs[i] || r[i] == xs[i] + period)
  {
  }

  /**
   * Unwrapping twice is unwrapping once when the samples span less than
   * a period below the first: nothing is left below the first sample.
   */
  lemma UnwrapIdempotent(xs: seq<real>, period: real)
    requires |xs| > 0 && period >= 0.0
    requires forall i :: 0 <= i < |xs| ==> xs[i] >= xs[0] - period
    ensures Unwrap(Unwrap(xs, period).value, period) == Unwrap(xs, period)
  {
    var r := Unwrap(xs, period).value;
    assert forall i :: 0 <= i < |r| ==> r[i] >= r[0];
    assert Unwrap(r, period).value == r;
  }

  /** A day whose times never fall below the first one is left alone, and only such a day. */
  lemma UnwrapNoCrossing(xs: seq<real>, period: real)
    requires |xs| > 0 && period > 0.0
    ensures (Unwrap(xs, period) == Ok(xs)) <==> forall i :: 0 <= i < |xs| ==> xs[i] >= xs[0]
  {
    if forall i :: 0 <= i < |xs| ==> xs[i] >= xs[0] {
      assert Unwrap(xs, period).value == xs;
    } else {
      var i :| 0 <= i < |xs| && xs[i] < xs[0];
      assert Unwrap(xs, period).value[i] != xs[i];
    }
  }

  // -------------------------------------------------------------------
  // Pattern search
  // -------------------------------------------------------------------

  /** `a` is `b[k:]` for some k. */
  predicate IsSuffix<T(==)>(a: seq<T>, b: seq<T>) {
    |a| <= |b| && a == b[|b| - |a|..]
  }

  lemma SuffixTrans<T>(a: seq<T>, b: seq<T>, c: seq<T>)
    requires IsSuffix(a, b) && IsSuffix(b, c)
    ensures IsSuffix(a, c)
  {
    assert c[|c| - |b|..][|b| - |a|..] == c[|c| - |a|..];
  }

  /** The index of the last line containing `pattern`. */
  function LastWith(lines: seq<string>, pattern: string): (r: Option<nat>)
    ensures r.None? <==> forall i :: 0 <= i < |lines| ==> !Contains(lines[i], pattern)
    ensures r.Some? ==> r.value < |lines| && Contains(lines[r.value], pattern)
                        && forall i :: r.value < i < |lines| ==> !Contains(lines[i], pattern)
  {
    if |lines| == 0 then None
    else if Contains(lines[|lines| - 1], pattern) then Some(|lines| - 1)
    else LastWith(lines[..|lines| - 1], pattern)
  }

  /** The names containing `pattern`, in list order. */
  function Matches(files: seq<string>, pattern: string): (r: seq<string>)
    ensures forall x :: x in r ==> Contains(x, pattern) && x in files
    ensures forall i :: 0 <= i < |files| && Contains(files[i], pattern) ==> files[i] in r
  {
    var mask := MaskWhere(files, f => Contains(f, pattern));
    SelectMembers(files, mask);
    Select(files, mask)
  }

  /** `matchPatt` returns one name when `nfile == 1`, else a list of names. */
  datatype Matched = First(name: string) | All(names: seq<string>)

  /**
   * `matchPatt(Pattern, files, nfile)`. With `nfile == 1` it stops at the
   * first name containing the pattern and also returns the list from that
   * name on. Otherwise it collects every such name and returns the list
   * from the last one on. Without a match, `files[None:]` is the whole list.
   */
  function MatchPatt(pattern: string, files: seq<string>, nfile: int): (r: (Matched, seq<string>))
    ensures IsSuffix(r.1, files)
    ensures nfile == 1 ==> (r.0.First? <==> exists i :: 0 <= i < |files| && Contains(files[i], pattern))
    ensures nfile == 1 && r.0.First? ==>
              |r.1| > 0 && r.1[0] == r.0.name && Contains(r.0.name, pattern)
              && forall i :: 0 <= i < |files| - |r.1| ==> !Contains(files[i], pattern)
    ensures nfile == 1 && r.0.All? ==> r.0.names == [] && r.1 == files
    ensures nfile != 1 ==> r.0.All? && r.0.names == Matches(files, pattern)
    ensures nfile != 1 && |r.0.names| > 0 ==>
              |r.1| > 0 && Contains(r.1[0], pattern) && forall i :: 1 <= i < |r.1| ==> !Contains(r.1[i], pattern)
    ensures nfile != 1 && |r.0.names| == 0 ==> r.1 == files
  {
    if nfile == 1 then
      match FirstWith(files, pattern)
      case Some(i) => (First(files[i]), files[i..])
      case None => (All([]), files)
    else
      var names := Matches(files, pattern);
      match LastWith(files, pattern)
      case Some(i) =>
        assert files[i] in names;
        (All(names), files[i..])
      case None =>
        assert |names| > 0 ==> names[0] in files && Contains(names[0], pattern);
        (All(names), files)
  }

  /** `found` takes names of `files` left to right; a name may be taken again at once. */
  ghost predicate PicksInOrder(found: seq<string>, files: seq<string>)
    decreases |found|
  {
    |found| == 0 || exists i :: 0 <= i < |files| && files[i] == found[0] && PicksInOrder(found[1..], files[i..])
  }

  /** `matchPatt(pattern, files, 1)`, the form `GLMfiles` calls. */
  function FirstMatch(pattern: string, files: seq<string>): (r: (Matched, seq<string>))
    ensures IsSuffix(r.1, files)
    ensures r.0.First? ==> |r.1| > 0 && r.1[0] == r.0.name && Contains(r.0.name, pattern)
    ensures r.0.All? ==> r.1 == files
  {
    MatchPatt(pattern, files, 1)
  }

  /**
   * `GLMfiles` with its file list given: for each time stamp in turn, the
   * first remaining name containing it is taken and the search list is cut
   * to start at that name; a stamp with no match leaves the list alone.
   */
  function GlmFiles(stamps: seq<string>, files: seq<string>): (r: (seq<string>, seq<string>))
    ensures |r.0| <= |stamps|
    ensures IsSuffix(r.1, files)
    decreases |stamps|
  {
    if |stamps| == 0 then ([], files)
    else
      var m := FirstMatch(stamps[0], files);
      if m.0.First? then
        var sub := GlmFiles(stamps[1..], m.1);
        SuffixTrans(sub.1, m.1, files);
        ([m.0.name] + sub.0, sub.1)
      else GlmFiles(stamps[1..], files)
  }

  /**
   * The search list after collecting `found` from `files`: the whole
   * listing when nothing was collected, else a list starting at the last
   * name collected.
   */
  predicate StartsAtLast(found: seq<string>, left: seq<string>, files: seq<string>) {
    && (|found| == 0 ==> left == files)
    && (|found| > 0 ==> |left| > 0 && left[0] == found[|found| - 1])
  }

  lemma ShapeTaken(stamps: seq<string>, files: seq<string>)
    requires |stamps| > 0 && FirstMatch(stamps[0], files).0.First?
    requires var m := FirstMatch(stamps[0], files);
             StartsAtLast(GlmFiles(stamps[1..], m.1).0, GlmFiles(stamps[1..], m.1).1, m.1)
    ensures StartsAtLast(GlmFiles(stamps, files).0, GlmFiles(stamps, files).1, files)
  {
    var m := FirstMatch(stamps[0], files);
    var q := GlmFiles(stamps[1..], m.1);
    var r := GlmFiles(stamps, files);
    assert r.0 == [m.0.name] + q.0 && r.1 == q.1;
    assert r.0[|r.0| - 1] == if |q.0| == 0 then m.0.name else q.0[|q.0| - 1];
  }

  lemma ShapeSkipped(stamps: seq<string>, files: seq<string>)
    requires |stamps| > 0 && FirstMatch(stamps[0], files).0.All?
    requires StartsAtLast(GlmFiles(stamps[1..], files).0, GlmFiles(stamps[1..], files).1, files)
    ensures StartsAtLast(GlmFiles(stamps, files).0, GlmFiles(stamps, files).1, files)
  {
    var q := GlmFiles(stamps[1..], files);
    var r := GlmFiles(stamps, files);
    assert r.0 == q.0 && r.1 == q.1;
  }

  /**
   * The search list `GLMfiles` returns is the whole listing when nothing
   * was collected, and otherwise starts at the last name collected.
   */
  lemma {:induction false} GlmFilesShape(stamps: seq<string>, files: seq<string>)
    ensures StartsAtLast(GlmFiles(stamps, files).0, GlmFiles(stamps, files).1, files)
    decreases |stamps|
  {
    if |stamps| > 0 {
      var m := FirstMatch(stamps[0], files);
      if m.0.First? {
        GlmFilesShape(stamps[1..], m.1);
        ShapeTaken(stamps, files);
      } else {
        GlmFilesShape(stamps[1..], files);
        ShapeSkipped(stamps, files);
      }
    }
  }

  /** The names `GLMfiles` collects appear in the listing in the order collected. */
  lemma {:induction false} GlmFilesInOrder(stamps: seq<string>, files: seq<string>)
    ensures PicksInOrder(GlmFiles(stamps, files).0, files)
    decreases |stamps|
  {
    if |stamps| > 0 {
      var m := FirstMatch(stamps[0], files);
      if m.0.First? {
        var rest := m.1;
        GlmFilesInOrder(stamps[1..], rest);
        var found := GlmFiles(stamps, files).0;
        assert found[1..] == GlmFiles(stamps[1..], rest).0;
        var i := |files| - |rest|;
        assert files[i] == found[0] && files[i..] == rest;
      } else {
        GlmFilesInOrder(stamps[1..], files);
      }
    }
  }

  /** `name` holds one of the time stamps. */
  predicate HasStamp(name: string, stamps: seq<string>) {
    exists k :: 0 <= k < |stamps| && Contains(name, stamps[k])
  }

  /** Every name in `found` holds one of the time stamps. */
  predicate AllStamped(found: seq<string>, stamps: seq<string>) {
    forall j :: 0 <= j < |found| ==> HasStamp(found[j], stamps)
  }

  lemma StampedTail(found: seq<string>, stamps: seq<string>)
    requires |stamps| > 0 && AllStamped(found, stamps[1..])
    ensures AllStamped(found, stamps)
  {
    forall j | 0 <= j < |found| ensures HasStamp(found[j], stamps) {
      var k :| 0 <= k < |stamps[1..]| && Contains(found[j], stamps[1..][k]);
      assert Contains(found[j], stamps[k + 1]);
    }
  }

  lemma StampedCons(name: string, found: seq<string>, stamps: seq<string>)
    requires |stamps| > 0 && Contains(name, stamps[0]) && AllStamped(found, stamps)
    ensures AllStamped([name] + found, stamps)
  {
    var all := [name] + found;
    forall j | 0 <= j < |all| ensures HasStamp(all[j], stamps) {
      if j == 0 {
        assert Contains(all[j], stamps[0]);
      } else {
        assert all[j] == found[j - 1];
      }
    }
  }

  /** Every name `GLMfiles` collects holds one of the searched time stamps. */
  lemma {:induction false} GlmFilesStamped(stamps: seq<string>, files: seq<string>)
    ensures AllStamped(GlmFiles(stamps, files).0, stamps)
    decreases |stamps|
  {
    if |stamps| > 0 {
      var m := FirstMatch(stamps[0], files);
      if m.0.First? {
        var sub := GlmFiles(stamps[1..], m.1).0;
        GlmFilesStamped(stamps[1..], m.1);
        StampedTail(sub, stamps);
        StampedCons(m.0.name, sub, stamps);
      } else {
        GlmFilesStamped(stamps[1..], files);
        StampedTail(GlmFiles(stamps[1..], files).0, stamps);
      }
    }
  }

  // -------------------------------------------------------------------
  // LMA header
  // -------------------------------------------------------------------

  const DATA_LABEL: string := "*** data ***"

  /**
   * `get_LMAheader`: the 1-based number of the first line that contains
   * the label (the rows to skip before the data), or -1 when none does.
   */
  function LmaHeader(lines: seq<string>, slabel: string): (n: int)
    ensures n == -1 <==> forall i :: 0 <= i < |lines| ==> !Contains(lines[i], slabel)
    ensures n != -1 ==> 1 <= n <= |lines| && Contains(lines[n - 1], slabel)
                        && forall i :: 0 <= i < n - 1 ==> !Contains(lines[i], slabel)
  {
    match FirstWith(lines, slabel)
    case Some(i) => i + 1
    case None => -1
  }

  // -------------------------------------------------------------------
  // Station mask
  // -------------------------------------------------------------------

  /** Plain hexadecimal digits, at least one. */
  predicate IsHex(s: string) {
    |s| > 0 && AllDigitsIn(s, 16)
  }

  /** Masks `int(a, 16)` reads as a number of at least zero. */
  predicate Countable(mask: string) {
    ParseInt(mask, 16).Ok? && ParseInt(mask, 16).value >= 0
  }

  function MaskValue(mask: string): nat
    requires Countable(mask)
  {
    ParseInt(mask, 16).value
  }

  /** `bin(n)[2:]` for n at least zero: the binary digits, most significant first, "0" for zero. */
  function Binary(n: nat): (s: string)
    ensures |s| > 0
  {
    if n < 2 then [if n == 0 then '0' else '1'] else Binary(n / 2) + [if n % 2 == 0 then '0' else '1']
  }

  /** `bin(v)[2:]`: for a negative v, `bin` writes `-0b…`, so the cut keeps the `b`. */
  function BinText(v: int): string {
    if v >= 0 then Binary(v) else "b" + Binary(-v)
  }

  /**
   * `sum([int(i) for i in a])`: each character is read on its own by
   * `int`, so any character that is not a decimal digit makes it raise.
   */
  function DigitSum(s: string): (r: Result<nat>)
    ensures r.Ok? <==> AllDigits(s)
    ensures r.Ok? ==> r.value <= 9 * |s|
  {
    if |s| == 0 then Ok(0)
    else
      var init :- DigitSum(s[..|s| - 1]);
      var c := s[|s| - 1];
      if IsDigit(c) then Ok(init + DigitValue(c)) else Err(BadDigits)
  }

  /**
   * One mask's station count: `int(a, 16)`, then the digit sum of
   * `bin(...)[2:]`. Text `int` cannot read raises there; a negative
   * value raises at the `b` that `bin` leaves in the cut.
   */
  function Stations(mask: string): (r: Result<nat>)
    ensures r.Ok? <==> Countable(mask)
    ensures r.Ok? ==> r.value == Bits(MaskValue(mask))
  {
    var v :- ParseInt(mask, 16);
    if v >= 0 then
      BinaryOnes(v);
      DigitSum(BinText(v))
    else
      DigitSumRejects(BinText(v));
      DigitSum(BinText(v))
  }

  /** A text starting with a non-digit has no digit sum. */
  lemma {:induction false} DigitSumRejects(s: string)
    requires |s| > 0 && !IsDigit(s[0])
    ensures DigitSum(s).Err?
    decreases |s|
  {
    if |s| > 1 {
      DigitSumRejects(s[..|s| - 1]);
    }
  }

  /** The number of set bits, by halving. */
  function Bits(n: nat): nat {
    if n == 0 then 0 else n % 2 + Bits(n / 2)
  }

  function Pow2(k: nat): nat {
    if k == 0 then 1 else 2 * Pow2(k - 1)
  }

  /** The set bits of the station flags, one hexadecimal digit (four stations) at a time. */
  function DigitBits(s: string): nat
    requires AllDigitsIn(s, 16)
  {
    if |s| == 0 then 0 else DigitBits(s[..|s| - 1]) + Bits(HexDigit(s[|s| - 1]))
  }

  /** The digit sum of `bin(n)[2:]` is the number of set bits of n. */
  lemma {:induction false} BinaryOnes(n: nat)
    ensures DigitSum(Binary(n)) == Ok(Bits(n))
  {
    if n >= 2 {
      BinaryOnes(n / 2);
      var s := Binary(n);
      assert s[..|s| - 1] == Binary(n / 2);
    }
  }

  /** The bits of `Pow2(k) * a + d` are those of `a` and those of `d`, for `d` below `Pow2(k)`. */
  lemma {:induction false} BitsConcat(a: nat, d: nat, k: nat)
    requires d < Pow2(k)
    ensures Bits(Pow2(k) * a + d) == Bits(a) + Bits(d)
  {
    if k > 0 {
      var n := Pow2(k) * a + d;
      HalveSplit(a, d, k);
      BitsConcat(a, d / 2, k - 1);
      if n == 0 {
        assert d == 0 && Pow2(k - 1) * a + d / 2 == 0;
      }
    }
  }

  /** Halving `Pow2(k) * a + d` halves `d` and keeps its low bit. */
  lemma HalveSplit(a: nat, d: nat, k: nat)
    requires k > 0 && d < Pow2(k)
    ensures (Pow2(k) * a + d) % 2 == d % 2
    ensures (Pow2(k) * a + d) / 2 == Pow2(k - 1) * a + d / 2
    ensures d / 2 < Pow2(k - 1)
  {
    var p := Pow2(k - 1);
    var q := p * a;
    assert Pow2(k) == 2 * p;
    assert Pow2(k) * a == 2 * q;
    var n := 2 * (q + d / 2) + d % 2;
    assert Pow2(k) * a + d == n;
    assert n % 2 == d % 2 && n / 2 == q + d / 2;
  }

  /**
   * For a mask of plain hexadecimal digits, the station count of
   * `get_LMA` counts, digit by digit, the stations flagged: at most four
   * per digit.
   */
  lemma StationsPerDigit(mask: string)
    requires IsHex(mask)
    ensures Stations(mask) == Ok(DigitBits(mask))
    ensures DigitBits(mask) <= 4 * |mask|
  {
    ParseIntPlain(mask, 16);
    DigitsCount(mask);
  }

  /** A `0x` prefix changes nothing. */
  lemma StationsPrefixed(d: string)
    requires IsHex(d)
    ensures Stations("0x" + d) == Ok(DigitBits(d))
  {
    ParseIntHexPrefix(d);
    DigitsCount(d);
  }

  /** A minus sign before a non-zero mask makes the count raise; `-0` counts no station. */
  lemma StationsNegative(d: string)
    requires IsHex(d)
    ensures Stations("-" + d).Ok? <==> PlainValue(d, 16) == 0
  {
    ParseIntSigned(d, 16);
  }

  lemma {:induction false} DigitsCount(s: string)
    requires AllDigitsIn(s, 16)
    ensures Bits(PlainValue(s, 16)) == DigitBits(s)
    ensures DigitBits(s) <= 4 * |s|
    decreases |s|
  {
    if |s| > 0 {
      var init := s[..|s| - 1];
      DigitsCount(init);
      var d := HexDigit(s[|s| - 1]);
      assert Pow2(4) == 16;
      BitsConcat(PlainValue(init, 16), d, 4);
      BitsOfDigit(d);
    }
  }

  lemma BitsOfDigit(d: nat)
    requires d < 16
    ensures Bits(d) <= 4
  {
    assert Bits(d) == d % 2 + Bits(d / 2);
    assert Bits(d / 2) == (d / 2) % 2 + Bits(d / 4);
    assert Bits(d / 4) == (d / 4) % 2 + Bits(d / 8);
    assert Bits(d / 8) == (d / 8) % 2 + Bits(d / 16);
  }

  // -------------------------------------------------------------------
  // get_LMA
  // -------------------------------------------------------------------

  /** One data line of an LMA file: `Time Lat Lon Alt chi^2 dBW mask`. */
  datatype LmaRecord = LmaRecord(time: real, lat: real, lon: real, alt: real, chi2: real, dbw: real, mask: string)

  /** A kept source: the chi^2 and mask columns dropped, the station count added. */
  datatype LmaPoint = LmaPoint(time: real, lat: real, lon: real, alt: real, dbw: real, nstns: nat)

  predicate Passes(chi2: real, nstns: nat, stnsMin: int) {
    chi2 < 1.0 && nstns >= stnsMin
  }

  function PointOf(r: LmaRecord, nstns: nat): LmaPoint {
    LmaPoint(r.time, r.lat, r.lon, r.alt, r.dbw, nstns)
  }

  /** The station count of every row; one bad mask fails the whole column. */
  function StationCounts(records: seq<LmaRecord>): (r: Result<seq<nat>>)
    ensures r.Ok? <==> forall i :: 0 <= i < |records| ==> Countable(records[i].mask)
    ensures r.Ok? ==> |r.value| == |records|
    ensures r.Ok? ==> forall i :: 0 <= i < |records| ==> Countable(records[i].mask) && r.value[i] == Bits(MaskValue(records[i].mask))
  {
    var counts := AllOk(seq(|records|, i requires 0 <= i < |records| => Stations(records[i].mask)));
    if counts.Ok? then
      forall i | 0 <= i < |records| ensures Countable(records[i].mask) && counts.value[i] == Bits(MaskValue(records[i].mask)) {
        assert Stations(records[i].mask) == Ok(counts.value[i]);
      }
      counts
    else counts
  }

  /** The station count of a record whose mask `int(a, 16)` reads as at least zero. */
  function Nstns(r: LmaRecord): nat
    requires Countable(r.mask)
  {
    Bits(MaskValue(r.mask))
  }

  /** Every record as a kept source, with its station count. */
  function LmaPoints(records: seq<LmaRecord>): (ps: seq<LmaPoint>)
    requires forall i :: 0 <= i < |records| ==> Countable(records[i].mask)
    ensures |ps| == |records|
    ensures forall i :: 0 <= i < |records| ==> ps[i] == PointOf(records[i], Nstns(records[i]))
  {
    seq(|records|, i requires 0 <= i < |records| => PointOf(records[i], Nstns(records[i])))
  }

  /** `(chi2 < 1) & (nstns >= stnsMin)` over the records. */
  function LmaMask(records: seq<LmaRecord>, stnsMin: int): (m: seq<bool>)
    requires forall i :: 0 <= i < |records| ==> Countable(records[i].mask)
    ensures |m| == |records|
    ensures forall i :: 0 <= i < |records| ==> m[i] == Passes(records[i].chi2, Nstns(records[i]), stnsMin)
  {
    seq(|records|, i requires 0 <= i < |records| => Passes(records[i].chi2, Nstns(records[i]), stnsMin))
  }

  /** The columns built from the station counts are the named ones. */
  lemma LmaColumns(records: seq<LmaRecord>, n: seq<nat>, stnsMin: int)
    requires |n| == |records|
    requires forall i :: 0 <= i < |records| ==> Countable(records[i].mask) && n[i] == Bits(MaskValue(records[i].mask))
    ensures seq(|records|, i requires 0 <= i < |records| => PointOf(records[i], n[i])) == LmaPoints(records)
    ensures seq(|records|, i requires 0 <= i < |records| => Passes(records[i].chi2, n[i], stnsMin)) == LmaMask(records, stnsMin)
  {
  }

  /**
   * The filter of `get_LMA`: every mask is converted first (one bad mask
   * fails the call), then rows with chi^2 < 1 and at least `stnsMin`
   * stations are kept in file order and renumbered.
   */
  function GetLma(records: seq<LmaRecord>, stnsMin: int): (r: Result<seq<LmaPoint>>)
    ensures r.Ok? <==> forall i :: 0 <= i < |records| ==> Countable(records[i].mask)
    ensures r.Ok? ==> forall p :: p in r.value ==>
              exists i :: 0 <= i < |records| && Countable(records[i].mask)
                          && Passes(records[i].chi2, Nstns(records[i]), stnsMin)
                          && p == PointOf(records[i], Nstns(records[i]))
    ensures r.Ok? ==> forall i :: 0 <= i < |records| && Countable(records[i].mask)
                                  && Passes(records[i].chi2, Nstns(records[i]), stnsMin) ==>
              PointOf(records[i], Nstns(records[i])) in r.value
    ensures r.Ok? ==>
              var idx := Kept(LmaMask(records, stnsMin));
              && |r.value| == |idx|
              && Ascending(idx)
              && (forall j :: 0 <= j < |idx| ==> idx[j] < |records| && r.value[j] == PointOf(records[idx[j]], Nstns(records[idx[j]])))
              && (forall i :: 0 <= i < |records| ==> (i in idx <==> Passes(records[i].chi2, Nstns(records[i]), stnsMin)))
  {
    match StationCounts(records)
    case Err(e) => Err(e)
    case Ok(n) =>
      var points := seq(|records|, i requires 0 <= i < |records| => PointOf(records[i], n[i]));
      var mask := seq(|records|, i requires 0 <= i < |records| => Passes(records[i].chi2, n[i], stnsMin));
      LmaColumns(records, n, stnsMin);
      SelectMembers(points, mask);
      SelectInOrder(points, mask);
      Ok(Select(points, mask))
  }

  /** With plain hexadecimal masks, `get_LMA` succeeds and counts the flagged stations digit by digit. */
  lemma GetLmaHex(records: seq<LmaRecord>, stnsMin: int)
    requires forall i :: 0 <= i < |records| ==> IsHex(records[i].mask)
    ensures forall i :: 0 <= i < |records| ==> IsHex(records[i].mask) && Countable(records[i].mask) && Nstns(records[i]) == DigitBits(records[i].mask)
    ensures GetLma(records, stnsMin).Ok?
  {
    forall i | 0 <= i < |records| ensures IsHex(records[i].mask) && Countable(records[i].mask) && Nstns(records[i]) == DigitBits(records[i].mask) {
      StationsPerDigit(records[i].mask);
    }
  }

  // -------------------------------------------------------------------
  // LMAfiles
  // -------------------------------------------------------------------

  /** `name` holds one of the first `t` time stamps. */
  predicate StampedBy(name: string, stamps: seq<string>, t: nat)
    requires t <= |stamps|
  {
    exists k :: 0 <= k < t && Contains(name, stamps[k])
  }

  predicate NoDuplicates(s: seq<string>) {
    forall a, b :: 0 <= a < b < |s| ==> s[a] != s[b]
  }

  /**
   * `LMAfiles` over a given listing: for each 10-minute stamp, every
   * `.dat` name holding it that is not yet listed is appended. The
   * result lists each such name once; an empty listing gives an empty
   * result.
   */
  method LmaFiles(stamps: seq<string>, files: seq<string>) returns (found: seq<string>)
    ensures NoDuplicates(found)
    ensures forall e :: e in found <==> e in files && Contains(e, ".dat") && StampedBy(e, stamps, |stamps|)
    ensures |files| == 0 ==> found == []
  {
    found := [];
    if |files| == 0 {
      return;
    }
    for t := 0 to |stamps|
      invariant NoDuplicates(found)
      invariant forall e :: e in found <==> e in files && Contains(e, ".dat") && StampedBy(e, stamps, t)
    {
      for i := 0 to |files|
        invariant NoDuplicates(found)
        invariant forall e :: e in found <==>
                    (e in files && Contains(e, ".dat") && StampedBy(e, stamps, t))
                    || (e in files[..i] && Contains(e, ".dat") && Contains(e, stamps[t]))
      {
        var f := files[i];
        assert files[..i + 1] == files[..i] + [f];
        if Contains(f, stamps[t]) && Contains(f, ".dat") && f !in found {
          found := found + [f];
        }
      }
      assert files[..|files|] == files;
      forall e ensures StampedBy(e, stamps, t + 1) <==> StampedBy(e, stamps, t) || Contains(e, stamps[t]) {
        if Contains(e, stamps[t]) {
          assert 0 <= t < t + 1;
        }
      }
    }
  }
}

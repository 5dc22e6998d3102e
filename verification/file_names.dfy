/**
 * What the ingest and track scripts read out of S3 keys and local paths:
 * the flight date (an `_`-separated field, differently placed per
 * instrument), the archive folder, download destinations, the NPOL file
 * selection, the CPL key filter, the IMPACTS header line and output path.
 */
module FileNames {
  import opened Wrappers
  import opened Strings

  // -------------------------------------------------------------------
  // Fields of composed names
  // -------------------------------------------------------------------

  /** Field k of a name composed from separator-free parts is part k. */
  lemma FieldOfJoin(parts: seq<string>, c: char, k: nat)
    requires |parts| >= 1 && k < |parts|
    requires forall j :: 0 <= j < |parts| ==> c !in parts[j]
    ensures Field(Join(parts, [c]), [c], k) == Ok(parts[k])
  {
    SplitJoin(parts, c);
  }

  lemma {:induction false} LastFieldOfJoin(parts: seq<string>, c: char)
    requires |parts| >= 1
    requires forall j :: 0 <= j < |parts| ==> c !in parts[j]
    ensures LastField(Join(parts, [c]), [c]) == parts[|parts| - 1]
  {
    SplitJoin(parts, c);
  }

  /** The text before the first `c` of `a + c + rest` is `a`. */
  lemma FirstFieldOf(a: string, c: char, rest: string)
    requires c !in a
    ensures FirstField(a + [c] + rest, [c]) == a
  {
    FindAfter(a, c, rest, 0);
    var s := a + [c] + rest;
    SplitUnfold(s, [c], |a|);
    assert s[..|a|] == a;
  }

  /** A part free of `c` is its own first field. */
  lemma FirstFieldWhole(a: string, c: char)
    requires c !in a
    ensures FirstField(a, [c]) == a
  {
    SplitJoin([a], c);
  }

  // -------------------------------------------------------------------
  // Dates
  // -------------------------------------------------------------------

  /** `'{}-{}-{}'.format(d[:4], d[4:6], d[6:])`: YYYYMMDD to YYYY-MM-DD. */
  function IsoDate(d: string): (r: string)
    ensures |d| >= 6 ==> |r| == |d| + 2 && r[4] == '-' && r[7] == '-'
                         && r[..4] == d[..4] && r[5..7] == d[4..6] && r[8..] == d[6..]
    ensures |d| >= 6 ==> r[..4] + r[5..7] + r[8..] == d
  {
    var r := Take(d, 4) + "-" + Slice(d, 4, 6) + "-" + Drop(d, 6);
    if |d| >= 6 then
      assert r[8..] == d[6..];
      assert d == d[..4] + d[4..6] + d[6..];
      r
    else r
  }

  /** `'{}{}{}'.format(d[:4], d[4:6], d[6:])` rebuilds `d` whatever its length. */
  function PlainDate(d: string): (r: string)
    ensures r == d
  {
    var r := Take(d, 4) + Slice(d, 4, 6) + Drop(d, 6);
    assert Take(Take(d, 6), 4) == Take(d, 4);
    assert Take(d, 6) + Drop(d, 6) == d;
    r
  }

  /** OLYMPEX CRS: the date is the third `_`-field of the key. */
  function CrsOlympexDate(key: string): (r: Result<string>)
    ensures r.Ok? <==> |Split(key, "_")| >= 3
  {
    Field(key, "_", 2)
  }

  /** GOES-R CRS: the date is the fourth `_`-field of the file name. */
  function CrsGoesrDate(file: string): (r: Result<string>)
    ensures r.Ok? <==> |Split(file, "_")| >= 4
  {
    Field(file, "_", 3)
  }

  /** HS3 CPL: the text after the last `_`, up to the first `.` after it. */
  function Hs3CplDate(key: string): (r: string)
    ensures !Contains(r, "_") && !Contains(r, ".")
  {
    var last := LastField(key, "_");
    var r := FirstField(last, ".");
    assert !Contains(r, "_") by {
      forall i: nat | OccursAt(r, "_", i) ensures false {
        assert last[i..i + 1] == r[i..i + 1];
        assert OccursAt(last, "_", i);
      }
    }
    r
  }

  /** OLYMPEX CPL: the sixth `_`-field, up to its first `.`. */
  function OlympexCplDate(key: string): (r: Result<string>)
    ensures r.Ok? <==> |Split(key, "_")| >= 6
    ensures r.Ok? ==> !Contains(r.value, ".")
  {
    var f :- Field(key, "_", 5);
    Ok(FirstField(f, "."))
  }

  /** HIWRAP: the text after `HS3_HIWRAP_`, up to the next `_`. */
  function HiwrapDate(url: string): (r: Result<string>)
    ensures r.Ok? <==> Contains(url, "HS3_HIWRAP_")
    ensures r.Ok? ==> !Contains(r.value, "_")
  {
    FindContains(url, "HS3_HIWRAP_");
    SplitMany(url, "HS3_HIWRAP_");
    var rest :- Field(url, "HS3_HIWRAP_", 1);
    Ok(FirstField(rest, "_"))
  }

  lemma AppendFree(parts: seq<string>, x: string, c: char)
    requires forall j :: 0 <= j < |parts| ==> c !in parts[j]
    requires c !in x
    ensures forall j :: 0 <= j < |parts + [x]| ==> c !in (parts + [x])[j]
  {
    var ps := parts + [x];
    forall j | 0 <= j < |ps| ensures c !in ps[j] {
      if j < |parts| { assert ps[j] == parts[j]; }
    }
  }

  /** `<a>_<b>_<date>...` (OLYMPEX CRS) and `<a>_<b>_<c>_<date>...` (GOES-R CRS) yield the date. */
  lemma {:induction false} CrsDatesFromKeys(parts: seq<string>, date: string)
    requires forall j :: 0 <= j < |parts| ==> '_' !in parts[j]
    requires '_' !in date
    ensures |parts| == 2 ==> CrsOlympexDate(Join(parts + [date], "_")) == Ok(date)
    ensures |parts| == 3 ==> CrsGoesrDate(Join(parts + [date], "_")) == Ok(date)
  {
    AppendFree(parts, date, '_');
    if |parts| == 2 { FieldOfJoin(parts + [date], '_', 2); }
    if |parts| == 3 { FieldOfJoin(parts + [date], '_', 3); }
  }

  /** `..._<date>.<ext>` (HS3 CPL) yields the date. */
  lemma {:induction false} Hs3CplDateFromKey(parts: seq<string>, date: string, ext: string)
    requires forall j :: 0 <= j < |parts| ==> '_' !in parts[j]
    requires '_' !in date && '.' !in date && '_' !in ext
    ensures Hs3CplDate(Join(parts + [date + "." + ext], "_")) == date
  {
    var file := date + "." + ext;
    assert file == date + ['.'] + ext;
    FirstFieldOf(date, '.', ext);
    AppendFree(parts, file, '_');
    LastFieldOfJoin(parts + [file], '_');
  }

  /** `<a>_<b>_<c>_<d>_<e>_<date>.<ext>` (OLYMPEX CPL) yields the date. */
  lemma {:induction false} OlympexCplDateFromKey(parts: seq<string>, date: string, ext: string)
    requires |parts| == 5
    requires forall j :: 0 <= j < |parts| ==> '_' !in parts[j]
    requires '_' !in date && '.' !in date && '_' !in ext
    ensures OlympexCplDate(Join(parts + [date + "." + ext], "_")) == Ok(date)
  {
    var file := date + "." + ext;
    assert file == date + ['.'] + ext;
    FirstFieldOf(date, '.', ext);
    AppendFree(parts, file, '_');
    FieldOfJoin(parts + [file], '_', 5);
  }

  // -------------------------------------------------------------------
  // HS3 CPL key filter
  // -------------------------------------------------------------------

  /**
   * Only `ATB` files of an `a` sortie are processed: the third `_`-field
   * is `ATB` and the fourth contains `a`. The fourth field is looked at
   * only when the third is `ATB`, and a missing field raises.
   */
  function CplKeySelected(key: string): (r: Result<bool>)
    ensures var f := Split(key, "_");
            (r == Ok(true) <==> |f| >= 4 && f[2] == "ATB" && Contains(f[3], "a"))
            && (r.Err? <==> |f| < 3 || (|f| == 3 && f[2] == "ATB"))
  {
    var third :- Field(key, "_", 2);
    if third != "ATB" then Ok(false)
    else
      var fourth :- Field(key, "_", 3);
      Ok(Contains(fourth, "a"))
  }

  // -------------------------------------------------------------------
  // Paths
  // -------------------------------------------------------------------

  datatype Archive = Gzip | Plain

  /**
   * `untarr`: the folder is `raw_file_dir` plus the file name up to its
   * first `.`; `tar.gz` opens in gzip mode, `tar` in plain mode, and any
   * other path is not extracted.
   */
  function Untarr(rawDir: string, rawPath: string, filename: string): (r: (string, Option<Archive>))
    ensures |rawDir| <= |r.0| && r.0[..|rawDir|] == rawDir && !Contains(r.0[|rawDir|..], ".")
    ensures r.1 == Some(Gzip) <==> EndsWith(rawPath, "tar.gz")
    ensures r.1 == Some(Plain) <==> EndsWith(rawPath, "tar") && !EndsWith(rawPath, "tar.gz")
  {
    var folder := rawDir + FirstField(filename, ".");
    assert folder[|rawDir|..] == FirstField(filename, ".");
    (folder,
     if EndsWith(rawPath, "tar.gz") then Some(Gzip)
     else if EndsWith(rawPath, "tar") then Some(Plain)
     else None)
  }

  /** NPOL `downloadFromS3`: the argument directory is overwritten by a fixed one. */
  const NPOL_RAW_DIR: string := "/tmp/npol_olympex/raw/"

  function NpolDownloadDest(destDir: string, key: string): (r: Result<string>)
    ensures r.Ok? <==> |Split(key, "/")| >= 4
  {
    var name :- Field(key, "/", 3);
    Ok(NPOL_RAW_DIR + name)
  }

  /** HS3 CPL `downloadFromS3`: `dest_dir/<fourth '/'-field of the key>`. */
  function Hs3DownloadDest(destDir: string, key: string): (r: Result<string>)
    ensures r.Ok? <==> |Split(key, "/")| >= 4
  {
    var name :- Field(key, "/", 3);
    Ok(destDir + "/" + name)
  }

  /**
   * For a key `<campaign>/<dir>/<instrument>/<name>`, the NPOL download lands
   * in the fixed raw directory whatever directory is passed, and the HS3
   * download in the given one, both under the key's file name.
   */
  lemma DownloadDests(parts: seq<string>, d1: string, d2: string)
    requires |parts| >= 4
    requires forall j :: 0 <= j < |parts| ==> '/' !in parts[j]
    ensures NpolDownloadDest(d1, Join(parts, "/")) == NpolDownloadDest(d2, Join(parts, "/")) == Ok(NPOL_RAW_DIR + parts[3])
    ensures Hs3DownloadDest(d1, Join(parts, "/")) == Ok(d1 + "/" + parts[3])
  {
    FieldOfJoin(parts, '/', 3);
  }

  // -------------------------------------------------------------------
  // NPOL file selection
  // -------------------------------------------------------------------

  function WithoutOceanScans(paths: seq<string>): (r: seq<string>)
    ensures forall p :: p in r <==> p in paths && !Contains(p, "rhi_20-40")
    ensures forall p :: p in r ==> multiset(r)[p] == multiset(paths)[p]
  {
    if |paths| == 0 then []
    else
      var rest := WithoutOceanScans(paths[1..]);
      assert paths == [paths[0]] + paths[1..];
      if Contains(paths[0], "rhi_20-40") then rest else [paths[0]] + rest
  }

  /**
   * The NPOL scans of a day: paths without `rhi_20-40`, sorted. Every
   * other path is kept as often as it was listed.
   */
  function NpolScans(paths: seq<string>): (r: seq<string>)
    ensures StrSorted(r)
    ensures forall p :: p in r <==> p in paths && !Contains(p, "rhi_20-40")
    ensures forall p :: p in r ==> multiset(r)[p] == multiset(paths)[p]
  {
    var kept := WithoutOceanScans(paths);
    var r := SortStrings(kept);
    assert forall p :: p in r <==> p in multiset(r);
    assert forall p :: p in kept <==> p in multiset(kept);
    r
  }

  /** NPOL `sdate`: the third `_`-field of the base name. */
  function NpolDate(path: string): (r: Result<string>)
    ensures r.Ok? <==> |Split(LastField(path, "/"), "_")| >= 3
  {
    Field(LastField(path, "/"), "_", 2)
  }

  /** NPOL `tileFolder`: the base name up to its first `.`. */
  function NpolTileFolder(path: string): (r: string)
    ensures !Contains(r, ".") && !Contains(r, "/")
  {
    var base := LastField(path, "/");
    var r := FirstField(base, ".");
    assert !Contains(r, "/") by {
      forall i: nat | OccursAt(r, "/", i) ensures false {
        assert base[i..i + 1] == r[i..i + 1];
        assert OccursAt(base, "/", i);
      }
    }
    r
  }

  // -------------------------------------------------------------------
  // IMPACTS flight track files
  // -------------------------------------------------------------------

  const NAV_HEADER: string := "Time_Start,Day_Of_Year,"

  /**
   * `hlines`: the 0-based index of the first line holding the column
   * header. When no line holds it the loop variable is left on the last
   * line; an empty file leaves it unbound.
   */
  function HeaderLines(lines: seq<string>): (r: Result<nat>)
    ensures r.Ok? <==> |lines| > 0
    ensures r.Err? ==> r.error == Unbound
    ensures r.Ok? ==> r.value < |lines|
    ensures r.Ok? && (exists i :: 0 <= i < |lines| && Contains(lines[i], NAV_HEADER)) ==>
              Contains(lines[r.value], NAV_HEADER) && forall i :: 0 <= i < r.value ==> !Contains(lines[i], NAV_HEADER)
    ensures r.Ok? && (forall i :: 0 <= i < |lines| ==> !Contains(lines[i], NAV_HEADER)) ==> r.value == |lines| - 1
  {
    if |lines| == 0 then Err(Unbound)
    else
      match FirstWith(lines, NAV_HEADER)
      case Some(i) => Ok(i)
      case None => Ok(|lines| - 1)
  }

  /**
   * `getOutputFile`: P3B tracks go under `p3/`, ER2 tracks under `er2/`
   * as `FCX_<name>.czml` except on 2020-02-25, which keeps the bare name;
   * any other plane gets no path.
   */
  function OutputFile(fdate: string, plane: string, name: string): (r: Option<string>)
    ensures r.Some? <==> plane == "P3B" || plane == "ER2"
    ensures r.Some? ==> var dir := "fieldcampaign/impacts/" + fdate + (if plane == "P3B" then "/p3/" else "/er2/");
                        |dir| <= |r.value| && r.value[..|dir|] == dir
    ensures plane == "ER2" && fdate != "2020-02-25" ==> r.Some? && EndsWith(r.value, ".czml")
    ensures plane == "P3B" || fdate == "2020-02-25" ==> r.Some? ==> EndsWith(r.value, name)
    ensures r.Some? ==> var dir := "fieldcampaign/impacts/" + fdate + (if plane == "P3B" then "/p3/" else "/er2/");
                        r.value[|dir|..] == (if plane == "ER2" && fdate != "2020-02-25" then "FCX_" + name + ".czml" else name)
  {
    if plane == "P3B" then Some("fieldcampaign/impacts/" + fdate + "/p3/" + name)
    else if plane == "ER2" then
      if fdate == "2020-02-25" then Some("fieldcampaign/impacts/" + fdate + "/er2/" + name)
      else Some("fieldcampaign/impacts/" + fdate + "/er2/FCX_" + name + ".czml")
    else None
  }

  /** For one date and plane, distinct track names never share an output path. */
  lemma OutputFileInjective(fdate: string, plane: string, a: string, b: string)
    requires OutputFile(fdate, plane, a).Some? && OutputFile(fdate, plane, a) == OutputFile(fdate, plane, b)
    ensures a == b
  {
    var dir := "fieldcampaign/impacts/" + fdate + (if plane == "P3B" then "/p3/" else "/er2/");
    var ra := OutputFile(fdate, plane, a).value[|dir|..];
    if plane == "ER2" && fdate != "2020-02-25" {
      assert ra == "FCX_" + a + ".czml" == "FCX_" + b + ".czml";
      assert a == ra[4..|ra| - 5];
    }
  }
}

/**
 * The four point-cloud tile writers: `PointCloud.generate` (CRS radar,
 * per-point value and time), `make_pcloudTile` (IMPACTS radar and lidar,
 * per-point RGBA), and the two `MK_cloud_czml` lightning writers (LMA with
 * per-point RGBA, GLM with one constant colour). Each builds the feature
 * and batch JSON tables, the binary columns, and hands them to the shared
 * `.pnts` layout.
 *
 * `json.dumps` is a parameter: the model only needs that it produces some
 * byte string for each table.
 */
module TileEncoders {
  import opened Wrappers
  import opened Bytes
  import opened Arith
  import opened Seqs
  import opened Geo
  import opened Pnts
  import Strings

  /** The JSON documents a writer serialises, as records. */
  datatype JsonTable =
    | FeatureTable(pointsLength: nat, batchLength: nat, batchIdOffset: nat, positionOffset: nat,
                   rgbaOffset: Option<nat>, constantRgba: Option<seq<int>>,
                   volumeOffset: Vec3, volumeScale: Vec3)
    | BatchTable(entries: seq<(string, nat, ComponentType, nat)>)

  /** A tile as written: file name, the tables and their binary columns. */
  datatype PntsTile = PntsTile(
    filename: string, featureTable: JsonTable, batchTable: JsonTable,
    featureProps: seq<Property>, batchProps: seq<Property>, input: TileInput)

  /** `"{}_{}.pnts".format(tile, step)`. */
  function TileFileName(tile: nat, step: nat): string {
    Strings.NatToString(tile) + "_" + Strings.NatToString(step) + ".pnts"
  }

  /** Reads the tile number and step back out of a tile file name. */
  function ParseTileFileName(name: string): (r: Option<(nat, nat)>)
    ensures r.Some? ==> |name| > 5 && name[|name| - 5..] == ".pnts"
  {
    if |name| <= 5 || name[|name| - 5..] != ".pnts" then None
    else
      var fields := Strings.Split(name[..|name| - 5], "_");
      if |fields| != 2 then None
      else match (Strings.ParseNat(fields[0]), Strings.ParseNat(fields[1]))
        case (Ok(t), Ok(s)) => Some((t, s))
        case _ => None
  }

  /** Distinct (tile, step) pairs never share a file name. */
  lemma TileFileNameRoundTrip(tile: nat, step: nat)
    ensures ParseTileFileName(TileFileName(tile, step)) == Some((tile, step))
  {
    var a := Strings.NatToString(tile);
    var b := Strings.NatToString(step);
    var name := TileFileName(tile, step);
    assert name[..|name| - 5] == Strings.Join([a, b], "_");
    assert name[|name| - 5..] == ".pnts";
    Strings.SplitJoin([a, b], '_');
    Strings.ParseNatToString(tile);
    Strings.ParseNatToString(step);
  }

  /** The `entries` a batch table's JSON names, read from its properties. */
  function BatchEntries(ps: seq<Property>): seq<(string, nat, ComponentType, nat)> {
    seq(|ps|, i requires 0 <= i < |ps| => (ps[i].name, ps[i].byteOffset, ps[i].ctype, ps[i].arity))
  }

  /** A row-major `(n, 3)` array as its flat sequence of components. */
  function Flatten3(ts: seq<Triple>): (r: seq<int>)
    ensures |r| == 3 * |ts|
  {
    if |ts| == 0 then [] else [ts[0].a, ts[0].b, ts[0].c] + Flatten3(ts[1..])
  }

  /** A row-major `(n, w)` array as its flat sequence of components. */
  function FlattenRows(rows: seq<seq<int>>, w: nat): (r: seq<int>)
    requires forall i :: 0 <= i < |rows| ==> |rows[i]| == w
    ensures |r| == w * |rows|
  {
    if |rows| == 0 then [] else rows[0] + FlattenRows(rows[1..], w)
  }

  /**
   * A tile is well formed when every JSON byteOffset is where its column
   * starts, every column holds `count` points, the binary bodies are those
   * columns, and their lengths are the lengths the header declares.
   */
  ghost predicate WellFormed(t: PntsTile, count: nat) {
    Placed(t.featureProps, count) && Placed(t.batchProps, count)
    && t.input.featureBinary == EncodeBody(t.featureProps)
    && t.input.batchBinary == EncodeBody(t.batchProps)
    && Consistent(t.input)
  }

  /** Reading a property out of a padded section written from its table. */
  lemma SectionReadsBack(ps: seq<Property>, count: nat, pad: nat)
    requires Placed(ps, count)
    ensures ReadsBack(ps, EncodeBody(ps) + Spaces(pad))
  {
    var sec := EncodeBody(ps) + Spaces(pad);
    forall j | 0 <= j < |ps|
      ensures ps[j].byteOffset + PropertyBytes(ps[j]) <= |sec|
              && DecodeColumn(ps[j].ctype, sec[ps[j].byteOffset .. ps[j].byteOffset + PropertyBytes(ps[j])])
                 == WrapAll(ps[j].ctype, ps[j].values)
    {
      PlacedReadsBack(ps, count, j);
      assert sec[ps[j].byteOffset .. ps[j].byteOffset + PropertyBytes(ps[j])]
          == EncodeBody(ps)[ps[j].byteOffset .. ps[j].byteOffset + PropertyBytes(ps[j])];
    }
  }

  /** A property read at its byteOffset out of a parsed section gives back its column. */
  ghost predicate ReadsBack(ps: seq<Property>, sec: seq<byte>) {
    forall j :: 0 <= j < |ps| ==>
      ps[j].byteOffset + PropertyBytes(ps[j]) <= |sec|
      && DecodeColumn(ps[j].ctype, sec[ps[j].byteOffset .. ps[j].byteOffset + PropertyBytes(ps[j])])
         == WrapAll(ps[j].ctype, ps[j].values)
  }

  /**
   * What a viewer sees in a well-formed tile below 4 GiB: the file parses,
   * and every feature and batch property read at its declared byteOffset
   * inside its parsed section is the column the writer meant.
   */
  lemma WellFormedReadsBack(t: PntsTile, count: nat)
    requires WellFormed(t, count)
    requires ComputeLayout(t.input).tileLength < TWO32
    ensures ParseTile(WriteTile(t.input)).Ok?
    ensures ReadsBack(t.featureProps, ParseTile(WriteTile(t.input)).value.featureBinary)
    ensures ReadsBack(t.batchProps, ParseTile(WriteTile(t.input)).value.batchBinary)
  {
    var l := ComputeLayout(t.input);
    WriteThenParse(t.input);
    SectionReadsBack(t.featureProps, count, l.featurePadding);
    SectionReadsBack(t.batchProps, count, l.batchPadding);
  }

  /** Every row of `rows[::k]` is a row of `rows`, so it keeps its width. */
  lemma StrideRows(rows: seq<seq<int>>, k: nat, w: nat)
    requires k > 0
    requires forall i :: 0 <= i < |rows| ==> |rows[i]| == w
    ensures forall i :: 0 <= i < |Stride(rows, k)| ==> |Stride(rows, k)[i]| == w
  {
    StrideIndex(rows, k);
  }

  /** `np.arange(length, dtype=np.uint32)`, the BATCH_ID column. */
  function BatchIds(length: nat): Property {
    Property("BATCH_ID", 0, UnsignedInt, 1, Range(length))
  }

  function Positions(offset: nat, cartesian: seq<Triple>): Property {
    Property("POSITION_QUANTIZED", offset, UnsignedShort, 3, Flatten3(cartesian))
  }

  function Locations(offset: nat, cartographic: seq<Triple>): Property {
    Property("location", offset, Short, 3, Flatten3(cartographic))
  }

  function TileOf(filename: string, ft: JsonTable, bt: JsonTable,
                  fps: seq<Property>, bps: seq<Property>, ftLength: nat, btLength: nat,
                  dumps: JsonTable -> seq<byte>): PntsTile
  {
    PntsTile(filename, ft, bt, fps, bps,
      TileInput(dumps(ft), ftLength, EncodeBody(fps), dumps(bt), btLength, EncodeBody(bps)))
  }

  // -------------------------------------------------------------------
  // PointCloud.generate (CRS): value, time and location per point
  // -------------------------------------------------------------------

  /**
   * One level of `PointCloud.generate`: the rows of one task sampled with
   * `[::step]`. `valueBits` and `timeBits` are the float32 bit patterns of
   * `value` and `time`.
   */
  function CrsTile(tile: nat, step: nat, cartesian: seq<Triple>, cartographic: seq<Triple>,
                   valueBits: seq<int>, timeBits: seq<int>, volumeOffset: Vec3, volumeScale: Vec3,
                   dumps: JsonTable -> seq<byte>): PntsTile
    requires step > 0
    requires |cartesian| == |cartographic| == |valueBits| == |timeBits|
  {
    var length := |Stride(valueBits, step)|;
    var fps := [BatchIds(length), Positions(length * 4, Stride(cartesian, step))];
    var bps := [Property("value", 0, Float, 1, Stride(valueBits, step)),
                Property("time", length * 4, Float, 1, Stride(timeBits, step)),
                Locations(length * 8, Stride(cartographic, step))];
    var ft := FeatureTable(length, length, 0, length * 4, None, None, volumeOffset, volumeScale);
    TileOf(TileFileName(tile, step), ft, BatchTable(BatchEntries(bps)), fps, bps,
           length * 4 + length * 3 * 2, length * 4 * 2 + length * 2 * 3, dumps)
  }

  /**
   * Every CRS level holds `ceil(n / step)` points and is well formed: the
   * batch table's offsets (value 0, time 4L, location 8L) are where the
   * columns are written, and the header lengths match the bytes.
   */
  lemma CrsTileWellFormed(tile: nat, step: nat, cartesian: seq<Triple>, cartographic: seq<Triple>,
                          valueBits: seq<int>, timeBits: seq<int>, volumeOffset: Vec3, volumeScale: Vec3,
                          dumps: JsonTable -> seq<byte>)
    requires step > 0
    requires |cartesian| == |cartographic| == |valueBits| == |timeBits|
    ensures var t := CrsTile(tile, step, cartesian, cartographic, valueBits, timeBits,
                             volumeOffset, volumeScale, dumps);
            t.featureTable.pointsLength == CeilDiv(|valueBits|, step)
            && WellFormed(t, CeilDiv(|valueBits|, step))
  {
    var t := CrsTile(tile, step, cartesian, cartographic, valueBits, timeBits, volumeOffset, volumeScale, dumps);
    var fps := t.featureProps;
    var bps := t.batchProps;
    assert fps[..1] == [fps[0]] && bps[..1] == [bps[0]] && bps[..2] == [bps[0], bps[1]];
    assert Placed(fps, CeilDiv(|valueBits|, step));
    assert Placed(bps, CeilDiv(|valueBits|, step));
  }

  // -------------------------------------------------------------------
  // make_pcloudTile (IMPACTS): RGBA per point, time and location
  // -------------------------------------------------------------------

  /**
   * One level of `make_pcloudTile`; `rgba` holds the colour rows the
   * band encoders produce (width `csize = 4`), `timeBits` the float32
   * pattern of `timeP`.
   */
  function ImpactsTile(tile: nat, step: nat, cartesian: seq<Triple>, cartographic: seq<Triple>,
                       rgba: seq<seq<int>>, timeBits: seq<int>, volumeOffset: Vec3, volumeScale: Vec3,
                       dumps: JsonTable -> seq<byte>): PntsTile
    requires step > 0
    requires |cartesian| == |cartographic| == |rgba| == |timeBits|
    requires forall i :: 0 <= i < |rgba| ==> |rgba[i]| == 4
  {
    var csize := 4;
    var length := |Stride(timeBits, step)|;
    var fps := [BatchIds(length), Positions(length * 4, Stride(cartesian, step)),
                Property("RGBA", length * 4 + length * 3 * 2, UnsignedByte, 4, 
                         (StrideRows(rgba, step, 4); FlattenRows(Stride(rgba, step), 4)))];
    var bps := [Property("time", length * 0, Float, 1, Stride(timeBits, step)),
                Locations(length * 4, Stride(cartographic, step))];
    var ft := FeatureTable(length, length, 0, length * 4, Some(length * 4 + length * 3 * 2), None,
                           volumeOffset, volumeScale);
    TileOf(TileFileName(tile, step), ft, BatchTable(BatchEntries(bps)), fps, bps,
           length * 4 + length * 3 * 2 + length * csize, length * 4 + length * 2 * 3, dumps)
  }

  lemma ImpactsTileWellFormed(tile: nat, step: nat, cartesian: seq<Triple>, cartographic: seq<Triple>,
                              rgba: seq<seq<int>>, timeBits: seq<int>, volumeOffset: Vec3, volumeScale: Vec3,
                              dumps: JsonTable -> seq<byte>)
    requires step > 0
    requires |cartesian| == |cartographic| == |rgba| == |timeBits|
    requires forall i :: 0 <= i < |rgba| ==> |rgba[i]| == 4
    ensures var t := ImpactsTile(tile, step, cartesian, cartographic, rgba, timeBits,
                                 volumeOffset, volumeScale, dumps);
            t.featureTable.pointsLength == CeilDiv(|timeBits|, step)
            && t.featureTable.rgbaOffset == Some(10 * CeilDiv(|timeBits|, step))
            && WellFormed(t, CeilDiv(|timeBits|, step))
  {
    var t := ImpactsTile(tile, step, cartesian, cartographic, rgba, timeBits, volumeOffset, volumeScale, dumps);
    var fps := t.featureProps;
    var bps := t.batchProps;
    var n := CeilDiv(|timeBits|, step);
    assert fps[..1] == [fps[0]] && fps[..2] == [fps[0], fps[1]] && bps[..1] == [bps[0]];
    assert fps[0].byteOffset == TotalBytes(fps[..0]) && |fps[0].values| == n * fps[0].arity;
    assert fps[1].byteOffset == TotalBytes(fps[..1]) && |fps[1].values| == n * fps[1].arity;
    assert fps[2].byteOffset == TotalBytes(fps[..2]);
    assert |fps[2].values| == n * fps[2].arity;
    assert Placed(fps, CeilDiv(|timeBits|, step));
    assert Placed(bps, CeilDiv(|timeBits|, step));
  }

  // -------------------------------------------------------------------
  // MK_cloud_czml (LMA): RGBA per point, location only in the batch table
  // -------------------------------------------------------------------

  /**
   * `MK_cloud_czml` of `lma_subcode.py`. Positions and locations are
   * sampled with `[::skip]` but the colour rows with `[::step]`; the point
   * count is taken from the `skip` sample.
   */
  function LmaTile(tile: nat, step: nat, skip: nat, cartesian: seq<Triple>, cartographic: seq<Triple>,
                   ccode: seq<seq<int>>, csize: nat, volumeOffset: Vec3, volumeScale: Vec3,
                   dumps: JsonTable -> seq<byte>): PntsTile
    requires step > 0 && skip > 0
    requires |cartesian| == |cartographic| == |ccode|
    requires forall i :: 0 <= i < |ccode| ==> |ccode[i]| == csize
  {
    var length := |Stride(cartesian, skip)|;
    var fps := [BatchIds(length), Positions(length * 4, Stride(cartesian, skip)),
                Property("RGBA", length * 4 + length * 3 * 2, UnsignedByte, csize, 
                         (StrideRows(ccode, step, csize); FlattenRows(Stride(ccode, step), csize)))];
    var bps := [Locations(0, Stride(cartographic, skip))];
    var ft := FeatureTable(length, length, 0, length * 4, Some(length * 4 + length * 3 * 2), None,
                           volumeOffset, volumeScale);
    TileOf(TileFileName(tile, step), ft, BatchTable(BatchEntries(bps)), fps, bps,
           length * 4 + length * 3 * 2 + length * csize, length * 0 + length * 2 * 3, dumps)
  }

  /**
   * The LMA header's lengths match the bytes written exactly when the two
   * strides give the same number of rows (or there is no colour at all);
   * when they do, the tile is well formed.
   */
  lemma LmaTileConsistentIff(tile: nat, step: nat, skip: nat, cartesian: seq<Triple>, cartographic: seq<Triple>,
                             ccode: seq<seq<int>>, csize: nat, volumeOffset: Vec3, volumeScale: Vec3,
                             dumps: JsonTable -> seq<byte>)
    requires step > 0 && skip > 0
    requires |cartesian| == |cartographic| == |ccode|
    requires forall i :: 0 <= i < |ccode| ==> |ccode[i]| == csize
    ensures var t := LmaTile(tile, step, skip, cartesian, cartographic, ccode, csize, volumeOffset, volumeScale, dumps);
            t.featureTable.pointsLength == CeilDiv(|cartesian|, skip)
            && (Consistent(t.input) <==> csize == 0 || CeilDiv(|ccode|, step) == CeilDiv(|ccode|, skip))
            && (CeilDiv(|ccode|, step) == CeilDiv(|ccode|, skip) ==> WellFormed(t, CeilDiv(|cartesian|, skip)))
  {
    var t := LmaTile(tile, step, skip, cartesian, cartographic, ccode, csize, volumeOffset, volumeScale, dumps);
    var ls := CeilDiv(|cartesian|, skip);
    var lt := CeilDiv(|ccode|, step);
    LmaTileShape(tile, step, skip, cartesian, cartographic, ccode, csize, volumeOffset, volumeScale, dumps);
    LmaFeatureBytes(t.featureProps, ls, lt, csize);
    assert |t.input.featureBinary| == ls * 4 + ls * 3 * 2 + csize * lt;
    assert t.input.featureBinaryLength == ls * 4 + ls * 3 * 2 + csize * ls;
    assert Consistent(t.input) <==> csize * lt == csize * ls;
    MulCancel(csize, lt, ls);
    if lt == ls {
      LmaPlaced(t.featureProps, ls, csize);
    }
  }

  lemma LmaTileShape(tile: nat, step: nat, skip: nat, cartesian: seq<Triple>, cartographic: seq<Triple>,
                     ccode: seq<seq<int>>, csize: nat, volumeOffset: Vec3, volumeScale: Vec3,
                     dumps: JsonTable -> seq<byte>)
    requires step > 0 && skip > 0
    requires |cartesian| == |cartographic| == |ccode|
    requires forall i :: 0 <= i < |ccode| ==> |ccode[i]| == csize
    ensures var t := LmaTile(tile, step, skip, cartesian, cartographic, ccode, csize, volumeOffset, volumeScale, dumps);
            var ls := CeilDiv(|cartesian|, skip);
            t.featureTable.pointsLength == ls
            && LmaColumns(t.featureProps, ls, CeilDiv(|ccode|, step), csize)
            && Placed(t.batchProps, ls)
            && t.input.featureBinary == EncodeBody(t.featureProps)
            && t.input.batchBinary == EncodeBody(t.batchProps)
            && t.input.featureBinaryLength == ls * 4 + ls * 3 * 2 + ls * csize
            && t.input.batchBinaryLength == 6 * ls
            && |t.input.batchBinary| == 6 * ls
  {
  }

  /** The LMA feature table's three columns: ids, positions over `ls` rows, colours over `lt`. */
  ghost predicate LmaColumns(fps: seq<Property>, ls: nat, lt: nat, csize: nat) {
    |fps| == 3
    && fps[0].byteOffset == 0 && fps[0].ctype == UnsignedInt && fps[0].arity == 1 && |fps[0].values| == ls
    && fps[1].byteOffset == ls * 4 && fps[1].ctype == UnsignedShort && fps[1].arity == 3
    && |fps[1].values| == 3 * ls
    && fps[2].byteOffset == ls * 4 + ls * 3 * 2 && fps[2].ctype == UnsignedByte && fps[2].arity == csize
    && |fps[2].values| == csize * lt
  }

  lemma LmaFeatureBytes(fps: seq<Property>, ls: nat, lt: nat, csize: nat)
    requires LmaColumns(fps, ls, lt, csize)
    ensures TotalBytes(fps) == ls * 4 + ls * 3 * 2 + csize * lt
  {
    var f2 := fps[..2];
    assert f2[..1] == fps[..1];
    assert TotalBytes(fps[..1]) == PropertyBytes(fps[0]) == ls * 4;
    assert TotalBytes(f2) == TotalBytes(fps[..1]) + PropertyBytes(fps[1]);
    assert PropertyBytes(fps[1]) == ls * 3 * 2;
    assert PropertyBytes(fps[2]) == csize * lt;
    assert fps[..3] == fps;
  }

  lemma LmaPlaced(fps: seq<Property>, ls: nat, csize: nat)
    requires LmaColumns(fps, ls, ls, csize)
    ensures Placed(fps, ls)
  {
    LmaFeatureBytes(fps, ls, ls, csize);
    var f2 := fps[..2];
    assert f2[..1] == fps[..1];
    assert TotalBytes(fps[..1]) == ls * 4;
    assert TotalBytes(f2) == TotalBytes(fps[..1]) + PropertyBytes(fps[1]);
  }

  // -------------------------------------------------------------------
  // MK_cloud_czml (GLM): one constant colour, location only
  // -------------------------------------------------------------------

  const GLM_RGBA: seq<int> := [255, 255, 100, 255]

  /** `MK_cloud_czml` of `glm_subcode.py`: no colour column, `CONSTANT_RGBA` instead. */
  function GlmTile(tile: nat, step: nat, skip: nat, cartesian: seq<Triple>, cartographic: seq<Triple>,
                   rad: seq<real>, volumeOffset: Vec3, volumeScale: Vec3,
                   dumps: JsonTable -> seq<byte>): PntsTile
    requires skip > 0
    requires |cartesian| == |cartographic| == |rad|
  {
    var length := |Stride(rad, skip)|;
    var fps := [BatchIds(length), Positions(length * 4, Stride(cartesian, skip))];
    var bps := [Locations(0, Stride(cartographic, skip))];
    var ft := FeatureTable(length, length, 0, length * 4, None, Some(GLM_RGBA), volumeOffset, volumeScale);
    TileOf(TileFileName(tile, step), ft, BatchTable(BatchEntries(bps)), fps, bps,
           length * 4 + length * 3 * 2, length * 0 + length * 2 * 3, dumps)
  }

  lemma GlmTileWellFormed(tile: nat, step: nat, skip: nat, cartesian: seq<Triple>, cartographic: seq<Triple>,
                          rad: seq<real>, volumeOffset: Vec3, volumeScale: Vec3,
                          dumps: JsonTable -> seq<byte>)
    requires skip > 0
    requires |cartesian| == |cartographic| == |rad|
    ensures var t := GlmTile(tile, step, skip, cartesian, cartographic, rad, volumeOffset, volumeScale, dumps);
            t.featureTable.pointsLength == CeilDiv(|rad|, skip)
            && t.featureTable.constantRgba == Some(GLM_RGBA) && t.featureTable.rgbaOffset.None?
            && |t.input.featureBinary| == 10 * CeilDiv(|rad|, skip)
            && |t.input.batchBinary| == 6 * CeilDiv(|rad|, skip)
            && WellFormed(t, CeilDiv(|rad|, skip))
  {
    var t := GlmTile(tile, step, skip, cartesian, cartographic, rad, volumeOffset, volumeScale, dumps);
    var fps := t.featureProps;
    assert fps[..1] == [fps[0]];
    assert Placed(fps, CeilDiv(|rad|, skip));
    assert Placed(t.batchProps, CeilDiv(|rad|, skip));
  }
}

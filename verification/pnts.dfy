/**
 * The Point Cloud (`.pnts`) tile layout of OGC 3D Tiles 1.0 as the four
 * tile writers of the repository produce it: a 28-byte header, a feature
 * table (JSON then binary) and a batch table (JSON then binary). Each JSON
 * text is padded with 7 spaces and cut back so that the next section starts
 * on an 8-byte boundary; each binary body is followed by 0-7 spaces that
 * bring the running length to a multiple of 8.
 *
 * The writers compute the binary lengths from the point count, not from the
 * bytes they later write, so the model keeps both: the declared length that
 * goes into the header and the bytes that go into the file.
 */
module Pnts {
  import opened Wrappers
  import opened Bytes
  import opened Arith

  const HEADER_LENGTH: nat := 28
  const VERSION: nat := 1

  // -------------------------------------------------------------------
  // Binary columns
  // -------------------------------------------------------------------

  /** The component types the writers name in their JSON tables. */
  datatype ComponentType = UnsignedByte | Short | UnsignedShort | UnsignedInt | Float

  function ComponentSize(c: ComponentType): (n: nat)
    ensures n in {1, 2, 4}
  {
    match c
    case UnsignedByte => 1
    case Short => 2
    case UnsignedShort => 2
    case UnsignedInt => 4
    case Float => 4
  }

  /**
   * One component as numpy writes it. Integers keep their low bits;
   * a `Float` component is given as its IEEE-754 single-precision bit
   * pattern, because the float32 rounding is not modelled.
   */
  function EncodeComponent(c: ComponentType, v: int): (r: seq<byte>)
    ensures |r| == ComponentSize(c)
  {
    match c
    case UnsignedByte => [(v % 256) as byte]
    case Short => U16Le(v)
    case UnsignedShort => U16Le(v)
    case UnsignedInt => U32Le(v)
    case Float => U32Le(v)
  }

  /** Reads one component back from exactly `ComponentSize(c)` bytes. */
  function DecodeComponent(c: ComponentType, b: seq<byte>): int
    requires |b| == ComponentSize(c)
  {
    match c
    case UnsignedByte => b[0] as int
    case Short => ReadI16(b, 0)
    case UnsignedShort => ReadU16(b, 0)
    case UnsignedInt => ReadU32(b, 0)
    case Float => ReadU32(b, 0)
  }

  /** The value range of a component type, for the wrap-around of numpy casts. */
  function Wrap(c: ComponentType, v: int): int {
    match c
    case UnsignedByte => v % 256
    case Short => if v % TWO16 < 0x8000 then v % TWO16 else v % TWO16 - TWO16
    case UnsignedShort => v % TWO16
    case UnsignedInt => v % TWO32
    case Float => v % TWO32
  }

  lemma DecodeEncodeComponent(c: ComponentType, v: int)
    ensures DecodeComponent(c, EncodeComponent(c, v)) == Wrap(c, v)
  {
  }

  /** `column.tobytes()` for a flattened (row-major) column. */
  function EncodeColumn(c: ComponentType, vs: seq<int>): (r: seq<byte>)
    ensures |r| == |vs| * ComponentSize(c)
  {
    if |vs| == 0 then []
    else
      MulSucc(|vs| - 1, ComponentSize(c));
      EncodeComponent(c, vs[0]) + EncodeColumn(c, vs[1..])
  }

  /** Reads as many whole components as `b` holds. */
  function DecodeColumn(c: ComponentType, b: seq<byte>): seq<int>
    decreases |b|
  {
    var n := ComponentSize(c);
    if |b| < n then [] else [DecodeComponent(c, b[..n])] + DecodeColumn(c, b[n..])
  }

  function WrapAll(c: ComponentType, vs: seq<int>): (r: seq<int>)
    ensures |r| == |vs|
    ensures forall i :: 0 <= i < |vs| ==> r[i] == Wrap(c, vs[i])
  {
    seq(|vs|, i requires 0 <= i < |vs| => Wrap(c, vs[i]))
  }

  /** Reading an encoded column gives back every value, wrapped to its type. */
  lemma {:induction false} DecodeEncodeColumn(c: ComponentType, vs: seq<int>)
    ensures DecodeColumn(c, EncodeColumn(c, vs)) == WrapAll(c, vs)
  {
    if |vs| > 0 {
      var head := EncodeComponent(c, vs[0]);
      var tail := EncodeColumn(c, vs[1..]);
      var e := EncodeColumn(c, vs);
      var n := ComponentSize(c);
      assert e == head + tail;
      assert e[..n] == head && e[n..] == tail;
      assert DecodeColumn(c, e) == [DecodeComponent(c, head)] + DecodeColumn(c, tail);
      DecodeEncodeComponent(c, vs[0]);
      DecodeEncodeColumn(c, vs[1..]);
      assert WrapAll(c, vs) == [Wrap(c, vs[0])] + WrapAll(c, vs[1..]);
    }
  }

  // -------------------------------------------------------------------
  // Property tables: byteOffset entries of the feature / batch JSON
  // -------------------------------------------------------------------

  /**
   * A JSON table entry `{"byteOffset": .., "componentType": .., "type": ..}`
   * together with the column the writer emits for it; `arity` is 1 for
   * SCALAR, 3 for VEC3, 4 for VEC4.
   */
  datatype Property = Property(name: string, byteOffset: nat, ctype: ComponentType, arity: nat, values: seq<int>)

  function PropertyBytes(p: Property): nat {
    |p.values| * ComponentSize(p.ctype)
  }

  function TotalBytes(ps: seq<Property>): nat {
    if |ps| == 0 then 0 else TotalBytes(ps[..|ps| - 1]) + PropertyBytes(ps[|ps| - 1])
  }

  /** The binary body: every property's column, in table order. */
  function EncodeBody(ps: seq<Property>): (r: seq<byte>)
    ensures |r| == TotalBytes(ps)
  {
    if |ps| == 0 then [] else EncodeBody(ps[..|ps| - 1]) + EncodeColumn(ps[|ps| - 1].ctype, ps[|ps| - 1].values)
  }

  /**
   * Every entry's byteOffset is where the writer actually starts its
   * column, and every column holds `count` points of its arity.
   */
  ghost predicate Placed(ps: seq<Property>, count: nat) {
    forall j :: 0 <= j < |ps| ==>
      ps[j].byteOffset == TotalBytes(ps[..j]) && |ps[j].values| == count * ps[j].arity
  }

  /** The body of a table starts with the body of its first entries. */
  lemma BodyPrefix(ps: seq<Property>)
    requires |ps| > 0
    ensures EncodeBody(ps)[..TotalBytes(ps[..|ps| - 1])] == EncodeBody(ps[..|ps| - 1])
  {
  }

  /** Column j of a body starts after the columns before it. */
  lemma {:induction false} BodySlice(ps: seq<Property>, j: nat)
    requires j < |ps|
    ensures TotalBytes(ps[..j]) + PropertyBytes(ps[j]) <= TotalBytes(ps)
    ensures EncodeBody(ps)[TotalBytes(ps[..j]) .. TotalBytes(ps[..j]) + PropertyBytes(ps[j])]
            == EncodeColumn(ps[j].ctype, ps[j].values)
    decreases |ps|
  {
    var last := |ps| - 1;
    var init := ps[..last];
    var body := EncodeBody(ps);
    var a := TotalBytes(ps[..j]);
    var b := a + PropertyBytes(ps[j]);
    BodySliceLast(ps);
    if j == last {
      assert body[a..b] == body[a..];
    } else {
      var n := TotalBytes(init);
      BodySlice(init, j);
      assert init[..j] == ps[..j] && init[j] == ps[j];
      BodyPrefix(ps);
      SliceOfPrefix(body, n, a, b);
      assert body[a..b] == EncodeBody(init)[a..b];
    }
  }

  /** The last column of a body is its tail. */
  lemma BodySliceLast(ps: seq<Property>)
    requires |ps| > 0
    ensures var j := |ps| - 1;
            TotalBytes(ps[..j]) + PropertyBytes(ps[j]) == TotalBytes(ps)
            && EncodeBody(ps)[TotalBytes(ps[..j]) ..] == EncodeColumn(ps[j].ctype, ps[j].values)
  {
    var j := |ps| - 1;
    assert EncodeBody(ps) == EncodeBody(ps[..j]) + EncodeColumn(ps[j].ctype, ps[j].values);
  }

  lemma SliceOfPrefix<T>(s: seq<T>, n: nat, lo: nat, hi: nat)
    requires lo <= hi <= n <= |s|
    ensures s[lo..hi] == s[..n][lo..hi]
  {
  }

  /**
   * When a table is placed, reading entry j at its declared byteOffset
   * recovers the column that was written for it.
   */
  lemma PlacedReadsBack(ps: seq<Property>, count: nat, j: nat)
    requires Placed(ps, count) && j < |ps|
    ensures ps[j].byteOffset + PropertyBytes(ps[j]) <= |EncodeBody(ps)|
    ensures DecodeColumn(ps[j].ctype, EncodeBody(ps)[ps[j].byteOffset .. ps[j].byteOffset + PropertyBytes(ps[j])])
            == WrapAll(ps[j].ctype, ps[j].values)
  {
    BodySlice(ps, j);
    DecodeEncodeColumn(ps[j].ctype, ps[j].values);
  }

  // -------------------------------------------------------------------
  // Section padding
  // -------------------------------------------------------------------

  /**
   * `json.dumps(...) + "       "` cut back by `(at + len) % 8` characters,
   * where `at` is the running tile length before the JSON.
   */
  function TrimJson(json: seq<byte>, at: nat): (r: seq<byte>)
    ensures (at + |r|) % 8 == 0
    ensures |json| <= |r| < |json| + 8
    ensures r[..|json|] == json
    ensures forall i :: |json| <= i < |r| ==> r[i] == SPACE
  {
    var padded := json + Spaces(7);
    var trim := (at + |padded|) % 8;
    if trim != 0 then padded[..|padded| - trim] else padded
  }

  /** `8 - len % 8`, or 0 when already aligned. */
  function Padding(len: nat): (p: nat)
    ensures p < 8
    ensures (len + p) % 8 == 0
    ensures p == 0 || len % 8 != 0
  {
    if len % 8 != 0 then 8 - len % 8 else 0
  }

  // -------------------------------------------------------------------
  // The tile
  // -------------------------------------------------------------------

  /**
   * What a writer hands to the tile layout: the two JSON texts, the
   * declared binary lengths it computes from the point count, and the
   * bytes it actually writes for each binary body.
   */
  datatype TileInput = TileInput(
    featureJson: seq<byte>, featureBinaryLength: nat, featureBinary: seq<byte>,
    batchJson: seq<byte>, batchBinaryLength: nat, batchBinary: seq<byte>)

  /** The lengths the writer computes before writing anything. */
  datatype Layout = Layout(
    featureJson: seq<byte>, featurePadding: nat,
    batchJson: seq<byte>, batchPadding: nat, tileLength: nat)

  function ComputeLayout(t: TileInput): (l: Layout)
    ensures (HEADER_LENGTH + |l.featureJson|) % 8 == 0
    ensures (HEADER_LENGTH + |l.featureJson| + t.featureBinaryLength + l.featurePadding) % 8 == 0
    ensures (HEADER_LENGTH + |l.featureJson| + t.featureBinaryLength + l.featurePadding + |l.batchJson|) % 8 == 0
    ensures l.tileLength % 8 == 0
    ensures l.tileLength == HEADER_LENGTH + |l.featureJson| + t.featureBinaryLength + l.featurePadding
                            + |l.batchJson| + t.batchBinaryLength + l.batchPadding
    ensures l.featurePadding < 8 && l.batchPadding < 8
  {
    var ftJson := TrimJson(t.featureJson, HEADER_LENGTH);
    var afterFtBin := HEADER_LENGTH + |ftJson| + t.featureBinaryLength;
    var ftPad := Padding(afterFtBin);
    var btJson := TrimJson(t.batchJson, afterFtBin + ftPad);
    var afterBtBin := afterFtBin + ftPad + |btJson| + t.batchBinaryLength;
    var btPad := Padding(afterBtBin);
    Layout(ftJson, ftPad, btJson, btPad, afterBtBin + btPad)
  }

  /** Consecutive little-endian uint32 words. */
  function Words(ws: seq<int>): (r: seq<byte>)
    ensures |r| == 4 * |ws|
  {
    if |ws| == 0 then [] else U32Le(ws[0]) + Words(ws[1..])
  }

  lemma {:induction false} WordsRead(ws: seq<int>, i: nat)
    requires i < |ws| && 0 <= ws[i] < TWO32
    ensures ReadU32(Words(ws), 4 * i) == ws[i]
  {
    var w := Words(ws);
    assert w == U32Le(ws[0]) + Words(ws[1..]);
    if i > 0 {
      var r := Words(ws[1..]);
      WordsRead(ws[1..], i - 1);
      var k := 4 * (i - 1);
      assert w[4 * i] == r[k] && w[4 * i + 1] == r[k + 1] && w[4 * i + 2] == r[k + 2] && w[4 * i + 3] == r[k + 3];
    }
  }

  /** The six uint32 fields after the magic: version, then five byte lengths. */
  function HeaderWords(l: Layout, t: TileInput): seq<int> {
    [VERSION, l.tileLength, |l.featureJson|, t.featureBinaryLength + l.featurePadding,
     |l.batchJson|, t.batchBinaryLength + l.batchPadding]
  }

  function Header(l: Layout, t: TileInput): (h: seq<byte>)
    ensures |h| == HEADER_LENGTH
  {
    MAGIC + Words(HeaderWords(l, t))
  }

  /** The file a tile writer produces, byte for byte. */
  function WriteTile(t: TileInput): (bytes: seq<byte>)
    ensures var l := ComputeLayout(t);
            |bytes| == HEADER_LENGTH + |l.featureJson| + |t.featureBinary| + l.featurePadding
                       + |l.batchJson| + |t.batchBinary| + l.batchPadding
  {
    var l := ComputeLayout(t);
    Header(l, t) + l.featureJson + (t.featureBinary + Spaces(l.featurePadding))
    + l.batchJson + (t.batchBinary + Spaces(l.batchPadding))
  }

  /** The binary bodies have the lengths the writer declared. */
  predicate Consistent(t: TileInput) {
    |t.featureBinary| == t.featureBinaryLength && |t.batchBinary| == t.batchBinaryLength
  }

  /** The four sections a reader cuts a tile into. */
  datatype Sections = Sections(featureJson: seq<byte>, featureBinary: seq<byte>,
                               batchJson: seq<byte>, batchBinary: seq<byte>)

  /**
   * A reader in the manner of the 3D Tiles specification: check the magic,
   * the version and the total length, then cut the sections by the header's
   * byte lengths.
   */
  function ParseTile(b: seq<byte>): (r: Result<Sections>)
    ensures r.Ok? ==> HEADER_LENGTH + |r.value.featureJson| + |r.value.featureBinary|
                      + |r.value.batchJson| + |r.value.batchBinary| == |b|
  {
    if |b| < HEADER_LENGTH || b[..4] != MAGIC || ReadU32(b, 4) != VERSION then Err(BadDigits)
    else if ReadU32(b, 8) != |b| then Err(LengthMismatch)
    else
      var fj := ReadU32(b, 12);
      var fb := ReadU32(b, 16);
      var bj := ReadU32(b, 20);
      var bb := ReadU32(b, 24);
      if HEADER_LENGTH + fj + fb + bj + bb != |b| then Err(LengthMismatch)
      else
        var s1 := HEADER_LENGTH + fj;
        var s2 := s1 + fb;
        var s3 := s2 + bj;
        Ok(Sections(b[HEADER_LENGTH..s1], b[s1..s2], b[s2..s3], b[s3..]))
  }

  lemma ReadU32Prefix(b: seq<byte>, h: seq<byte>, at: nat)
    requires |h| <= |b| && b[..|h|] == h && at + 4 <= |h|
    ensures ReadU32(b, at) == ReadU32(h, at)
  {
    assert b[at] == h[at] && b[at + 1] == h[at + 1] && b[at + 2] == h[at + 2] && b[at + 3] == h[at + 3];
  }

  /** The six length words of a tile's header read back as computed. */
  lemma HeaderFields(t: TileInput, k: nat)
    requires ComputeLayout(t).tileLength < TWO32
    requires k < 6
    ensures ReadU32(WriteTile(t), 4 + 4 * k) == HeaderWords(ComputeLayout(t), t)[k]
  {
    var l := ComputeLayout(t);
    var ws := HeaderWords(l, t);
    var h := Header(l, t);
    WordsRead(ws, k);
    assert h[4..] == Words(ws);
    assert ReadU32(h, 4 + 4 * k) == ReadU32(Words(ws), 4 * k);
    assert WriteTile(t)[..HEADER_LENGTH] == h;
    ReadU32Prefix(WriteTile(t), h, 4 + 4 * k);
  }

  /**
   * A consistent tile below 4 GiB reads back into the sections that were
   * written: the header's total is the file length, every section sits at
   * the offset the header gives, and each binary body is followed only by
   * space padding.
   */
  lemma WriteThenParse(t: TileInput)
    requires Consistent(t)
    requires ComputeLayout(t).tileLength < TWO32
    ensures var l := ComputeLayout(t);
            ParseTile(WriteTile(t)) == Ok(Sections(
              l.featureJson, t.featureBinary + Spaces(l.featurePadding),
              l.batchJson, t.batchBinary + Spaces(l.batchPadding)))
  {
    var l := ComputeLayout(t);
    var b := WriteTile(t);
    var fj, fb := |l.featureJson|, t.featureBinaryLength + l.featurePadding;
    var bj, bb := |l.batchJson|, t.batchBinaryLength + l.batchPadding;
    HeaderReads(t);
    ParseTileOk(b, fj, fb, bj, bb);
    WriteTileSections(t);
  }

  /** The written header carries the magic, the version, the file length and the four section lengths. */
  lemma HeaderReads(t: TileInput)
    requires Consistent(t)
    requires ComputeLayout(t).tileLength < TWO32
    ensures var l := ComputeLayout(t);
            var b := WriteTile(t);
            |b| >= HEADER_LENGTH && b[..4] == MAGIC
            && ReadU32(b, 4) == VERSION && ReadU32(b, 8) == |b|
            && ReadU32(b, 12) == |l.featureJson| && ReadU32(b, 16) == t.featureBinaryLength + l.featurePadding
            && ReadU32(b, 20) == |l.batchJson| && ReadU32(b, 24) == t.batchBinaryLength + l.batchPadding
  {
    var l := ComputeLayout(t);
    var b := WriteTile(t);
    assert b[..HEADER_LENGTH] == Header(l, t);
    HeaderFields(t, 0);
    HeaderFields(t, 1);
    HeaderFields(t, 2);
    HeaderFields(t, 3);
    HeaderFields(t, 4);
    HeaderFields(t, 5);
  }

  /** The written file is the header followed by the four sections, back to back. */
  lemma WriteTileSections(t: TileInput)
    requires Consistent(t)
    ensures var l := ComputeLayout(t);
            var b := WriteTile(t);
            var s1 := HEADER_LENGTH + |l.featureJson|;
            var s2 := s1 + t.featureBinaryLength + l.featurePadding;
            var s3 := s2 + |l.batchJson|;
            b[HEADER_LENGTH..s1] == l.featureJson
            && b[s1..s2] == t.featureBinary + Spaces(l.featurePadding)
            && b[s2..s3] == l.batchJson
            && b[s3..] == t.batchBinary + Spaces(l.batchPadding)
  {
    var l := ComputeLayout(t);
    Concat5(Header(l, t), l.featureJson, t.featureBinary + Spaces(l.featurePadding),
            l.batchJson, t.batchBinary + Spaces(l.batchPadding));
  }

  lemma ParseTileOk(b: seq<byte>, fj: nat, fb: nat, bj: nat, bb: nat)
    requires |b| >= HEADER_LENGTH && b[..4] == MAGIC
    requires ReadU32(b, 4) == VERSION && ReadU32(b, 8) == |b|
    requires ReadU32(b, 12) == fj && ReadU32(b, 16) == fb && ReadU32(b, 20) == bj && ReadU32(b, 24) == bb
    requires HEADER_LENGTH + fj + fb + bj + bb == |b|
    ensures ParseTile(b) == Ok(Sections(b[HEADER_LENGTH .. HEADER_LENGTH + fj],
                                        b[HEADER_LENGTH + fj .. HEADER_LENGTH + fj + fb],
                                        b[HEADER_LENGTH + fj + fb .. HEADER_LENGTH + fj + fb + bj],
                                        b[HEADER_LENGTH + fj + fb + bj ..]))
  {
  }

  lemma Concat5<T>(a: seq<T>, b: seq<T>, c: seq<T>, d: seq<T>, e: seq<T>)
    ensures var x := a + b + c + d + e;
            var s1 := |a| + |b|;
            var s2 := s1 + |c|;
            var s3 := s2 + |d|;
            x[|a|..s1] == b && x[s1..s2] == c && x[s2..s3] == d && x[s3..] == e
  {
  }

  /**
   * The header's `byteLength` equals the bytes written exactly when the
   * binary bodies written add up to the declared lengths.
   */
  lemma TotalMatchesIff(t: TileInput)
    requires ComputeLayout(t).tileLength < TWO32
    ensures ReadU32(WriteTile(t), 8) == |WriteTile(t)| <==>
            |t.featureBinary| + |t.batchBinary| == t.featureBinaryLength + t.batchBinaryLength
  {
    HeaderFields(t, 1);
  }
}

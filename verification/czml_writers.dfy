/**
 * The NEXRAD and NPOL CZML writers: a document head followed by one packet
 * per image or tileset, each a copy of the template packet with its own
 * id, availability interval and link. The list only grows; the template
 * and every earlier packet stay as they were.
 */
module CzmlWriters {
  import opened Wrappers
  import opened Strings

  /** The `image` of a rectangle's material: the template's `{"uri": ...}` or the bare URL a writer stores. */
  datatype Image = ImageUri(uri: string) | ImageLink(url: string)

  datatype Rectangle = Rectangle(wsenDegrees: seq<real>, height: real, fill: bool, image: Image, rgba: seq<int>)

  /** One CZML packet; absent keys are `None`. */
  datatype Packet = Packet(
    id: string, name: string, version: Option<string>, availability: Option<string>,
    rectangle: Option<Rectangle>, tilesetUri: Option<string>)

  const NEXRAD_HEAD: Packet := Packet("document", "CZML NEXRAD", Some("1.0"), None, None, None)

  /** The second packet of the NEXRAD sample document, which every image packet copies. */
  const NEXRAD_TEMPLATE: Packet := Packet(
    "textureRectangle1", "Rectangle area with nexrad image, above surface", None,
    Some("2015-09-22T22:29:00Z/2015-09-22T22:38:00Z"),
    Some(Rectangle([-123.197, 48.735, -121.812, 49.653], 0.0, true,
                   ImageUri("https://ghrc-fcx-field-campaigns-szg.s3.amazonaws.com/Olympex/instrument-raw-data/nexrad/katx/2015-09-22/olympex_Level2_KATX_20150922_2229_ELEV_01.png"),
                   [255, 255, 255, 128])),
    None)

  const NPOL_HEAD: Packet := Packet("document", "CZML NPOL", Some("1.0"), None, None, None)

  /** The second packet of the NPOL sample document, which every tileset packet copies. */
  const NPOL_TEMPLATE: Packet := Packet(
    "BatchedColors1", "npol_RADAR", None, Some("2015-12-03T00:05:00Z/2015-12-03T00:20:08Z"), None,
    Some("https://ghrc-fcx-field-campaigns-szg.s3.amazonaws.com/Olympex/instrument-processed-data/npol/20151203/freq-0/tileset.json"))

  /** The `__init__` defaults of the NEXRAD writer. */
  const DEFAULT_HEIGHT: real := 0.0
  const DEFAULT_RGBA: seq<int> := [255, 255, 255, 128]

  /** `f"{start}/{end}"`. */
  function Interval(start: string, end: string): string {
    start + "/" + end
  }

  /** An interval whose ends hold no `/` splits back into its two ends. */
  lemma IntervalSplits(start: string, end: string)
    requires '/' !in start && '/' !in end
    ensures Split(Interval(start, end), "/") == [start, end]
  {
    assert Join([start, end], ['/']) == Interval(start, end) by {
      JoinCons(start, [end], ['/']);
    }
    SplitJoin([start, end], '/');
  }

  /** `f"{prefix}{id}"`: different indices give different ids. */
  lemma TaggedInjective(prefix: string, a: nat, b: nat)
    requires prefix + NatToString(a) == prefix + NatToString(b)
    ensures a == b
  {
    var sa, sb := prefix + NatToString(a), prefix + NatToString(b);
    assert sa[|prefix|..] == NatToString(a);
    assert sb[|prefix|..] == NatToString(b);
  }

  // -------------------------------------------------------------------
  // NEXRAD
  // -------------------------------------------------------------------

  datatype NexradWriter = NexradWriter(model: Packet, czml: seq<Packet>)

  /** The shape every NEXRAD writer keeps: a rectangle template and the head first. */
  predicate NexradShaped(w: NexradWriter) {
    w.model.rectangle.Some? && |w.czml| >= 1 && w.czml[0] == NEXRAD_HEAD
  }

  /**
   * `NexradCzmlWriter(location, image_height, background_rgba_color)`:
   * the template with the station's corners, height and background
   * colour, and a document holding only the head.
   */
  function NewNexradWriter(location: seq<real>, height: real, rgba: seq<int>): (w: NexradWriter)
    ensures NexradShaped(w) && w.czml == [NEXRAD_HEAD]
    ensures var r := w.model.rectangle.value;
            r.wsenDegrees == location && r.height == height && r.rgba == rgba
            && r.fill && r.image == NEXRAD_TEMPLATE.rectangle.value.image
    ensures w.model.(rectangle := None) == NEXRAD_TEMPLATE.(rectangle := None)
  {
    var t := NEXRAD_TEMPLATE.rectangle.value;
    NexradWriter(NEXRAD_TEMPLATE.(rectangle := Some(t.(wsenDegrees := location, height := height, rgba := rgba))),
                 [NEXRAD_HEAD])
  }

  /** What `addTemporalImagery` appends: the template with id, availability and image replaced. */
  predicate ImageryPacket(model: Packet, p: Packet, id: nat, url: string, start: string, end: string)
    requires model.rectangle.Some?
  {
    p.id == "nexrad-imagery-" + NatToString(id)
    && p.availability == Some(Interval(start, end))
    && p.rectangle == Some(model.rectangle.value.(image := ImageLink(url)))
    && p.name == model.name && p.version == model.version && p.tilesetUri == model.tilesetUri
  }

  /** `addTemporalImagery(id, imagery_url, start, end)`: appends one packet, changes nothing else. */
  function AddTemporalImagery(w: NexradWriter, id: nat, url: string, start: string, end: string): (r: NexradWriter)
    requires NexradShaped(w)
    ensures NexradShaped(r) && r.model == w.model
    ensures |r.czml| == |w.czml| + 1 && r.czml[..|w.czml|] == w.czml
    ensures ImageryPacket(w.model, r.czml[|w.czml|], id, url, start, end)
  {
    var node := w.model.(id := "nexrad-imagery-" + NatToString(id),
                         availability := Some(Interval(start, end)),
                         rectangle := Some(w.model.rectangle.value.(image := ImageLink(url))));
    w.(czml := w.czml + [node])
  }

  /** One image of a day: its URL and availability interval. */
  datatype Imagery = Imagery(url: string, start: string, end: string)

  /** The driver's loop: image `k` of the day is added with id `k`. */
  function AddAllImagery(w: NexradWriter, items: seq<Imagery>, first: nat): (r: NexradWriter)
    requires NexradShaped(w)
    ensures NexradShaped(r) && r.model == w.model
    ensures |r.czml| == |w.czml| + |items| && r.czml[..|w.czml|] == w.czml
    ensures forall k :: 0 <= k < |items| ==>
              ImageryPacket(w.model, r.czml[|w.czml| + k], first + k, items[k].url, items[k].start, items[k].end)
    decreases |items|
  {
    if |items| == 0 then w
    else
      var w1 := AddTemporalImagery(w, first, items[0].url, items[0].start, items[0].end);
      var r := AddAllImagery(w1, items[1..], first + 1);
      assert r.czml[..|w.czml|] == r.czml[..|w1.czml|][..|w.czml|];
      r
  }

  /** A day's document has distinct packet ids: the head and one id per image. */
  lemma ImageryIdsDistinct(location: seq<real>, height: real, rgba: seq<int>, items: seq<Imagery>)
    ensures var d := AddAllImagery(NewNexradWriter(location, height, rgba), items, 0).czml;
            forall a, b :: 0 <= a < b < |d| ==> d[a].id != d[b].id
  {
    var w := NewNexradWriter(location, height, rgba);
    var d := AddAllImagery(w, items, 0).czml;
    forall a, b | 0 <= a < b < |d| ensures d[a].id != d[b].id {
      assert ImageryPacket(w.model, d[b], b - 1, items[b - 1].url, items[b - 1].start, items[b - 1].end);
      if a == 0 {
        assert d[b].id[0] == 'n';
      } else {
        assert ImageryPacket(w.model, d[a], a - 1, items[a - 1].url, items[a - 1].start, items[a - 1].end);
        if d[a].id == d[b].id {
          TaggedInjective("nexrad-imagery-", a - 1, b - 1);
        }
      }
    }
  }

  // -------------------------------------------------------------------
  // NPOL
  // -------------------------------------------------------------------

  datatype NpolWriter = NpolWriter(model: Packet, czml: seq<Packet>)

  predicate NpolShaped(w: NpolWriter) {
    |w.czml| >= 1 && w.czml[0] == NPOL_HEAD
  }

  /** `NpolCzmlWriter()`: the template and a document holding only the head. */
  function NewNpolWriter(): (w: NpolWriter)
    ensures NpolShaped(w) && w.czml == [NPOL_HEAD] && w.model == NPOL_TEMPLATE
  {
    NpolWriter(NPOL_TEMPLATE, [NPOL_HEAD])
  }

  /** What `add3dTiles` appends: the template with id, availability and tileset URI replaced. */
  predicate TilesetPacket(model: Packet, p: Packet, id: nat, url: string, start: string, end: string) {
    p.id == "npol-3dtile-" + NatToString(id)
    && p.availability == Some(Interval(start, end))
    && p.tilesetUri == Some(url)
    && p.name == model.name && p.version == model.version && p.rectangle == model.rectangle
  }

  /** `add3dTiles(id, tileset_url, start, end)`: appends one packet, changes nothing else. */
  function Add3dTiles(w: NpolWriter, id: nat, url: string, start: string, end: string): (r: NpolWriter)
    requires NpolShaped(w)
    ensures NpolShaped(r) && r.model == w.model
    ensures |r.czml| == |w.czml| + 1 && r.czml[..|w.czml|] == w.czml
    ensures TilesetPacket(w.model, r.czml[|w.czml|], id, url, start, end)
  {
    var node := w.model.(id := "npol-3dtile-" + NatToString(id),
                         availability := Some(Interval(start, end)),
                         tilesetUri := Some(url));
    w.(czml := w.czml + [node])
  }

  /** The driver's loop: tileset `k` of the day is added with id `k`. */
  function AddAllTiles(w: NpolWriter, items: seq<Imagery>, first: nat): (r: NpolWriter)
    requires NpolShaped(w)
    ensures NpolShaped(r) && r.model == w.model
    ensures |r.czml| == |w.czml| + |items| && r.czml[..|w.czml|] == w.czml
    ensures forall k :: 0 <= k < |items| ==>
              TilesetPacket(w.model, r.czml[|w.czml| + k], first + k, items[k].url, items[k].start, items[k].end)
    decreases |items|
  {
    if |items| == 0 then w
    else
      var w1 := Add3dTiles(w, first, items[0].url, items[0].start, items[0].end);
      var r := AddAllTiles(w1, items[1..], first + 1);
      assert r.czml[..|w.czml|] == r.czml[..|w1.czml|][..|w.czml|];
      r
  }

  /** A day's NPOL document has distinct packet ids. */
  lemma TilesetIdsDistinct(items: seq<Imagery>)
    ensures var d := AddAllTiles(NewNpolWriter(), items, 0).czml;
            forall a, b :: 0 <= a < b < |d| ==> d[a].id != d[b].id
  {
    var w := NewNpolWriter();
    var d := AddAllTiles(w, items, 0).czml;
    forall a, b | 0 <= a < b < |d| ensures d[a].id != d[b].id {
      assert TilesetPacket(w.model, d[b], b - 1, items[b - 1].url, items[b - 1].start, items[b - 1].end);
      if a == 0 {
        assert d[b].id[0] == 'n';
      } else {
        assert TilesetPacket(w.model, d[a], a - 1, items[a - 1].url, items[a - 1].start, items[a - 1].end);
        if d[a].id == d[b].id {
          TaggedInjective("npol-3dtile-", a - 1, b - 1);
        }
      }
    }
  }
}

/**
 * The flight-track CZML writer the HS3, GOES-R, CPEX-AW and IMPACTS
 * scripts share: one packet whose `position.cartographicDegrees` holds
 * `[t, lon, lat, alt]` per sample and whose `roll`, `pitch` and `heading`
 * properties hold `[t, angle]` per sample. The arrays are preallocated
 * with zeros and filled by extended-slice assignment `a[start::k] = v`,
 * which raises `ValueError` unless `v` has exactly as many entries as
 * the slice.
 */
module FlightWriter {
  import opened Wrappers
  import opened Arith
  import opened Seqs
  import opened Floats

  /** The number of entries of `a[start::k]` for an array of `n` entries. */
  function SliceCount(n: nat, start: nat, k: nat): nat
    requires k > 0
  {
    if start < n then CeilDiv(n - start, k) else 0
  }

  lemma ExactDiv(j: nat, k: nat)
    requires k > 0
    ensures (j * k) % k == 0 && (j * k) / k == j
  {
    DivUnique(j * k, k, j);
  }

  /** Entry `j` of `a[start::k]` is inside the array exactly when `j` is below the slice's count. */
  lemma SliceEntry(n: nat, start: nat, k: nat, j: nat)
    requires k > 0
    ensures j < SliceCount(n, start, k) <==> start + j * k < n
  {
    if start < n {
      CeilDivLeast(n - start, k);
      var c := CeilDiv(n - start, k);
      if j < c {
        MulMono(k, j, c - 1);
      } else {
        MulMono(k, c, j);
      }
    }
  }

  /** `a[start::k] = vals` once the lengths agree. */
  function Assigned(a: seq<F64>, start: nat, k: nat, vals: seq<F64>): (r: seq<F64>)
    requires k > 0 && |vals| == SliceCount(|a|, start, k)
    ensures |r| == |a|
    ensures forall i :: 0 <= i < |a| ==>
              r[i] == if start <= i && (i - start) % k == 0 then vals[(i - start) / k] else a[i]
  {
    seq(|a|, i requires 0 <= i < |a| =>
      if start <= i && (i - start) % k == 0 then
        DivBounds(i - start, k);
        SliceEntry(|a|, start, k, (i - start) / k);
        vals[(i - start) / k]
      else a[i])
  }

  /** `a[start::k] = vals`: `ValueError` unless `vals` has one entry per slot. */
  function AssignStride(a: seq<F64>, start: nat, k: nat, vals: seq<F64>): (r: Result<seq<F64>>)
    requires k > 0
    ensures r.Ok? <==> |vals| == SliceCount(|a|, start, k)
    ensures r.Err? ==> r.error == LengthMismatch
    ensures r.Ok? ==> r.value == Assigned(a, start, k, vals)
  {
    if |vals| != SliceCount(|a|, start, k) then Err(LengthMismatch)
    else Ok(Assigned(a, start, k, vals))
  }

  /** Entry `j` of the slice sits at `start + j * k` after the assignment. */
  lemma AssignedAt(a: seq<F64>, start: nat, k: nat, vals: seq<F64>, j: nat)
    requires k > 0 && |vals| == SliceCount(|a|, start, k) && j < |vals|
    ensures start + j * k < |a| && Assigned(a, start, k, vals)[start + j * k] == vals[j]
  {
    SliceEntry(|a|, start, k, j);
    ExactDiv(j, k);
    assert start + j * k - start == j * k;
  }

  /** Every entry outside the slice keeps its value. */
  lemma AssignedElsewhere(a: seq<F64>, start: nat, k: nat, vals: seq<F64>, i: nat)
    requires k > 0 && |vals| == SliceCount(|a|, start, k) && i < |a|
    requires i < start || (i - start) % k != 0
    ensures Assigned(a, start, k, vals)[i] == a[i]
  {
  }

  /** Reading back the assigned slice gives the assigned values. */
  lemma AssignStrideRead(a: seq<F64>, start: nat, k: nat, vals: seq<F64>)
    requires k > 0 && start <= |a| && AssignStride(a, start, k, vals).Ok?
    ensures Stride(AssignStride(a, start, k, vals).value[start..], k) == vals
  {
    var r := Assigned(a, start, k, vals);
    var s := Stride(r[start..], k);
    StrideIndex(r[start..], k);
    if start == |a| {
      CeilDivZero(k);
    }
    assert |s| == |vals|;
    forall j | 0 <= j < |s| ensures s[j] == vals[j] {
      AssignedAt(a, start, k, vals, j);
    }
  }

  /** The `model` entry of the packet. */
  datatype Model = Model(gltf: string, scale: real, minimumPixelSize: Option<int>, maximumScale: real)

  /**
   * The track packet. `epoch` stands for the position's and the three
   * angle properties' `epoch` keys, which `set_time` sets together and
   * which are absent before.
   */
  datatype Track = Track(
    name: string, model: Model, rgba: seq<int>, availability: string, epoch: Option<string>,
    degrees: seq<F64>, roll: seq<F64>, pitch: seq<F64>, heading: seq<F64>, length: nat)

  /** The scripts that carry this writer, each with its own template. */
  datatype Script = Hs3 | GoesR | CpexAw

  const S3_ER2_GLTF: string := "https://s3.amazonaws.com/visage-czml/iphex_HIWRAP/img/er2.gltf"
  const TRACK_RGBA: seq<int> := [0, 255, 128, 255]

  /** The template packet's name and model. */
  function Template(script: Script): (string, Model) {
    match script
    case Hs3 => ("ER2", Model("/iphex_HIWRAP/img/er2.gltf", 100.0, Some(32), 150.0))
    case GoesR => ("ER2", Model(S3_ER2_GLTF, 100.0, Some(32), 150.0))
    case CpexAw => ("DC8", Model(S3_ER2_GLTF, 100.0, Some(32), 150.0))
  }

  function Zeros(n: nat): (z: seq<F64>)
    ensures |z| == n && forall i :: 0 <= i < n ==> z[i] == Num(0.0)
  {
    seq(n, _ => Num(0.0))
  }

  /** `FlightTrackCzmlWriter(length)`: zeroed `4 * length` and `2 * length` arrays. */
  function NewWriter(script: Script, length: nat): (w: Track)
    ensures |w.degrees| == 4 * length && |w.roll| == 2 * length
    ensures |w.pitch| == 2 * length && |w.heading| == 2 * length && w.length == length
    ensures w.availability == "{}/{}" && w.epoch.None? && w.rgba == TRACK_RGBA
    ensures w.name == Template(script).0 && w.model == Template(script).1
    ensures forall i :: 0 <= i < 4 * length ==> w.degrees[i] == Num(0.0)
  {
    var (name, model) := Template(script);
    Track(name, model, TRACK_RGBA, "{}/{}", None, Zeros(4 * length), Zeros(2 * length),
          Zeros(2 * length), Zeros(2 * length), length)
  }

  /** The IMPACTS aircraft models (`modelP3B`, `modelER2`). */
  const P3B_MODEL: Model := Model("https://fcx-czml.s3.amazonaws.com/img/p3.gltf", 5.0, None, 1000.0)
  const ER2_MODEL: Model := Model("https://fcx-czml.s3.amazonaws.com/img/er2.gltf", 900.0, Some(500), 1000.0)

  /** `TrackColor`: the path colour per IMPACTS aircraft. */
  function TrackColor(plane: string): Option<seq<int>> {
    if plane == "P3B" then Some([0, 255, 128, 255])
    else if plane == "ER2" then Some([0, 255, 255, 128])
    else None
  }

  /**
   * The IMPACTS `FlightTrackCzmlWriter(length, plane)`: the model of the
   * plane, the plane as the name, its track colour, and zeroed arrays; a
   * plane with no track colour raises `KeyError`.
   */
  function ImpactsWriter(length: nat, plane: string): (r: Result<Track>)
    ensures r.Ok? <==> plane == "P3B" || plane == "ER2"
    ensures r.Err? ==> r.error == MissingKey
    ensures r.Ok? ==> Shaped(r.value) && r.value.length == length && r.value.name == plane
    ensures r.Ok? ==> r.value.model == (if plane == "P3B" then P3B_MODEL else ER2_MODEL)
    ensures r.Ok? ==> r.value.rgba == TrackColor(plane).value && r.value.availability == "{}/{}"
    ensures r.Ok? ==> forall i :: 0 <= i < 4 * length ==> r.value.degrees[i] == Num(0.0)
  {
    match TrackColor(plane)
    case None => Err(MissingKey)
    case Some(rgba) =>
      var model := if plane == "P3B" then P3B_MODEL else ER2_MODEL;
      Ok(Track(plane, model, rgba, "{}/{}", None, Zeros(4 * length), Zeros(2 * length),
               Zeros(2 * length), Zeros(2 * length), length))
  }

  /** The shape every writer keeps: four position slots and two slots per angle per sample. */
  predicate Shaped(w: Track) {
    |w.degrees| == 4 * w.length && |w.roll| == 2 * w.length
    && |w.pitch| == 2 * w.length && |w.heading| == 2 * w.length
  }

  /** Each residue class of a `4 * n` array has `n` entries, and each half of a `2 * n` array. */
  lemma SlotCounts(n: nat)
    ensures forall r :: 0 <= r < 4 ==> SliceCount(4 * n, r, 4) == n
    ensures forall r :: 0 <= r < 2 ==> SliceCount(2 * n, r, 2) == n
  {
    if n > 0 {
      DivUnique(4 * n + 3, 4, n);
      DivUnique(4 * n + 2, 4, n);
      DivUnique(4 * n + 1, 4, n);
      DivUnique(4 * n, 4, n);
      DivUnique(2 * n + 1, 2, n);
      DivUnique(2 * n, 2, n);
    }
  }

  /**
   * `set_time(time_window, time_steps)`: availability `"epoch/end"`, the
   * epochs, and the time slots (every 4th position entry, every even angle
   * entry). `IndexError` for a window with fewer than two entries.
   */
  function SetTime(w: Track, window: seq<string>, steps: seq<F64>): (r: Result<Track>)
    requires Shaped(w)
    ensures r.Ok? <==> |window| >= 2 && |steps| == w.length
    ensures r.Err? ==> r.error == (if |window| < 2 then IndexOutOfRange else LengthMismatch)
    ensures r.Ok? ==> Shaped(r.value) && r.value.length == w.length
    ensures r.Ok? ==> r.value.availability == window[0] + "/" + window[1] && r.value.epoch == Some(window[0])
    ensures r.Ok? ==> r.value.name == w.name && r.value.model == w.model && r.value.rgba == w.rgba
  {
    SlotCounts(w.length);
    if |window| < 2 then Err(IndexOutOfRange)
    else if |steps| != w.length then Err(LengthMismatch)
    else
      Ok(w.(availability := window[0] + "/" + window[1], epoch := Some(window[0]),
            degrees := Assigned(w.degrees, 0, 4, steps), roll := Assigned(w.roll, 0, 2, steps),
            pitch := Assigned(w.pitch, 0, 2, steps), heading := Assigned(w.heading, 0, 2, steps)))
  }

  /** `set_position(longitude, latitude, altitude)`: entries 1, 2 and 3 of every four. */
  function SetPosition(w: Track, lon: seq<F64>, lat: seq<F64>, alt: seq<F64>): (r: Result<Track>)
    requires Shaped(w)
    ensures r.Ok? <==> |lon| == w.length && |lat| == w.length && |alt| == w.length
    ensures r.Err? ==> r.error == LengthMismatch
    ensures r.Ok? ==> Shaped(r.value)
    ensures r.Ok? ==> r.value == w.(degrees := r.value.degrees)
  {
    SlotCounts(w.length);
    if |lon| != w.length || |lat| != w.length || |alt| != w.length then Err(LengthMismatch)
    else
      var d1 := Assigned(w.degrees, 1, 4, lon);
      var d2 := Assigned(d1, 2, 4, lat);
      Ok(w.(degrees := Assigned(d2, 3, 4, alt)))
  }

  /** `set_orientation(roll, pitch, heading)`: the odd entry of every pair. */
  function SetOrientation(w: Track, roll: seq<F64>, pitch: seq<F64>, heading: seq<F64>): (r: Result<Track>)
    requires Shaped(w)
    ensures r.Ok? <==> |roll| == w.length && |pitch| == w.length && |heading| == w.length
    ensures r.Err? ==> r.error == LengthMismatch
    ensures r.Ok? ==> Shaped(r.value)
    ensures r.Ok? ==> r.value == w.(roll := r.value.roll, pitch := r.value.pitch, heading := r.value.heading)
  {
    SlotCounts(w.length);
    if |roll| != w.length || |pitch| != w.length || |heading| != w.length then Err(LengthMismatch)
    else
      Ok(w.(roll := Assigned(w.roll, 1, 2, roll), pitch := Assigned(w.pitch, 1, 2, pitch),
            heading := Assigned(w.heading, 1, 2, heading)))
  }

  /** The samples one track holds, in the order the readers produce them. */
  datatype Samples = Samples(
    window: seq<string>, steps: seq<F64>, lon: seq<F64>, lat: seq<F64>, alt: seq<F64>,
    roll: seq<F64>, pitch: seq<F64>, heading: seq<F64>)

  predicate SamplesOf(s: Samples, n: nat) {
    |s.window| >= 2 && |s.steps| == n && |s.lon| == n && |s.lat| == n && |s.alt| == n
    && |s.roll| == n && |s.pitch| == n && |s.heading| == n
  }

  /** `set_time`, then `set_position`, then `set_orientation`, as every driver calls them. */
  function Fill(w: Track, s: Samples): (r: Result<Track>)
    requires Shaped(w)
    ensures r.Ok? <==> SamplesOf(s, w.length)
  {
    var a :- SetTime(w, s.window, s.steps);
    var b :- SetPosition(a, s.lon, s.lat, s.alt);
    SetOrientation(b, s.roll, s.pitch, s.heading)
  }

  /**
   * After the three setters every sample sits in its slots: position
   * entries `4i..4i+3` are `[t, lon, lat, alt]` and angle entries
   * `2i, 2i+1` are `[t, angle]`.
   */
  lemma FillLayout(w: Track, s: Samples, i: nat)
    requires Shaped(w) && Fill(w, s).Ok? && i < w.length
    ensures var t := Fill(w, s).value;
            Shaped(t) && t.length == w.length
            && t.degrees[4 * i] == s.steps[i] && t.degrees[4 * i + 1] == s.lon[i]
            && t.degrees[4 * i + 2] == s.lat[i] && t.degrees[4 * i + 3] == s.alt[i]
            && t.roll[2 * i] == s.steps[i] && t.roll[2 * i + 1] == s.roll[i]
            && t.pitch[2 * i] == s.steps[i] && t.pitch[2 * i + 1] == s.pitch[i]
            && t.heading[2 * i] == s.steps[i] && t.heading[2 * i + 1] == s.heading[i]
            && t.availability == s.window[0] + "/" + s.window[1] && t.epoch == Some(s.window[0])
  {
    SlotCounts(w.length);
    FillDegrees(w, s, i);
    FillAngles(w, s, i);
  }

  lemma FillDegrees(w: Track, s: Samples, i: nat)
    requires Shaped(w) && Fill(w, s).Ok? && i < w.length
    ensures var t := Fill(w, s).value;
            t.degrees[4 * i] == s.steps[i] && t.degrees[4 * i + 1] == s.lon[i]
            && t.degrees[4 * i + 2] == s.lat[i] && t.degrees[4 * i + 3] == s.alt[i]
  {
    SlotCounts(w.length);
    var d0 := Assigned(w.degrees, 0, 4, s.steps);
    var d3 := Assigned(Assigned(Assigned(d0, 1, 4, s.lon), 2, 4, s.lat), 3, 4, s.alt);
    assert Fill(w, s).value.degrees == d3;
    FourSlots(w.degrees, s.steps, s.lon, s.lat, s.alt, i);
  }

  /** Four stride-4 assignments at offsets 0..3 leave sample `i`'s four values in its four slots. */
  lemma FourSlots(a: seq<F64>, v0: seq<F64>, v1: seq<F64>, v2: seq<F64>, v3: seq<F64>, i: nat)
    requires |a| == 4 * |v0| && i < |v0|
    requires |v0| == SliceCount(|a|, 0, 4) && |v1| == SliceCount(|a|, 1, 4)
    requires |v2| == SliceCount(|a|, 2, 4) && |v3| == SliceCount(|a|, 3, 4)
    ensures var d := Assigned(Assigned(Assigned(Assigned(a, 0, 4, v0), 1, 4, v1), 2, 4, v2), 3, 4, v3);
            d[4 * i] == v0[i] && d[4 * i + 1] == v1[i] && d[4 * i + 2] == v2[i] && d[4 * i + 3] == v3[i]
  {
    var d0 := Assigned(a, 0, 4, v0);
    var d1 := Assigned(d0, 1, 4, v1);
    var d2 := Assigned(d1, 2, 4, v2);
    var d3 := Assigned(d2, 3, 4, v3);
    assert d3[4 * i] == v0[i] by {
      AssignedAt(a, 0, 4, v0, i);
      OtherSlot(i, 0, 1);
      AssignedElsewhere(d0, 1, 4, v1, 4 * i);
      OtherSlot(i, 0, 2);
      AssignedElsewhere(d1, 2, 4, v2, 4 * i);
      OtherSlot(i, 0, 3);
      AssignedElsewhere(d2, 3, 4, v3, 4 * i);
    }
    assert d3[4 * i + 1] == v1[i] by {
      AssignedAt(d0, 1, 4, v1, i);
      OtherSlot(i, 1, 2);
      AssignedElsewhere(d1, 2, 4, v2, 4 * i + 1);
      OtherSlot(i, 1, 3);
      AssignedElsewhere(d2, 3, 4, v3, 4 * i + 1);
    }
    assert d3[4 * i + 2] == v2[i] by {
      AssignedAt(d1, 2, 4, v2, i);
      OtherSlot(i, 2, 3);
      AssignedElsewhere(d2, 3, 4, v3, 4 * i + 2);
    }
    AssignedAt(d2, 3, 4, v3, i);
  }

  /** Slot `a` of sample `i` is not in the slice that starts at slot `b`. */
  lemma OtherSlot(i: nat, a: nat, b: nat)
    requires a < 4 && b < 4 && a != b
    ensures 4 * i + a < b || (4 * i + a - b) % 4 != 0
  {
    if 4 * i + a >= b {
      if a > b {
        assert 4 * i + a - b == 4 * i + (a - b);
      } else {
        assert 4 * i + a - b == 4 * (i - 1) + (4 + a - b);
      }
    }
  }

  lemma FillAngles(w: Track, s: Samples, i: nat)
    requires Shaped(w) && Fill(w, s).Ok? && i < w.length
    ensures var t := Fill(w, s).value;
            t.roll[2 * i] == s.steps[i] && t.roll[2 * i + 1] == s.roll[i]
            && t.pitch[2 * i] == s.steps[i] && t.pitch[2 * i + 1] == s.pitch[i]
            && t.heading[2 * i] == s.steps[i] && t.heading[2 * i + 1] == s.heading[i]
  {
    SlotCounts(w.length);
    var t := Fill(w, s).value;
    var a := SetTime(w, s.window, s.steps).value;
    assert t.roll == Assigned(a.roll, 1, 2, s.roll) && a.roll == Assigned(w.roll, 0, 2, s.steps);
    assert t.pitch == Assigned(a.pitch, 1, 2, s.pitch) && a.pitch == Assigned(w.pitch, 0, 2, s.steps);
    assert t.heading == Assigned(a.heading, 1, 2, s.heading) && a.heading == Assigned(w.heading, 0, 2, s.steps);
    TwoSlots(w.roll, s.steps, s.roll, i);
    TwoSlots(w.pitch, s.steps, s.pitch, i);
    TwoSlots(w.heading, s.steps, s.heading, i);
  }

  /** Stride-2 assignments at offsets 0 and 1 leave sample `i`'s time and angle in its two slots. */
  lemma TwoSlots(a: seq<F64>, v0: seq<F64>, v1: seq<F64>, i: nat)
    requires |a| == 2 * |v0| && i < |v0|
    requires |v0| == SliceCount(|a|, 0, 2) && |v1| == SliceCount(|a|, 1, 2)
    ensures var d := Assigned(Assigned(a, 0, 2, v0), 1, 2, v1);
            d[2 * i] == v0[i] && d[2 * i + 1] == v1[i]
  {
    var d0 := Assigned(a, 0, 2, v0);
    assert Assigned(d0, 1, 2, v1)[2 * i] == v0[i] by {
      AssignedAt(a, 0, 2, v0, i);
      assert 2 * i < 1 || (2 * i - 1) % 2 != 0;
      AssignedElsewhere(d0, 1, 2, v1, 2 * i);
    }
    AssignedAt(d0, 1, 2, v1, i);
  }

  /** The position and orientation setters touch different arrays, so their order does not matter. */
  lemma PositionOrientationCommute(w: Track, lon: seq<F64>, lat: seq<F64>, alt: seq<F64>,
                                   roll: seq<F64>, pitch: seq<F64>, heading: seq<F64>)
    requires Shaped(w) && SetPosition(w, lon, lat, alt).Ok? && SetOrientation(w, roll, pitch, heading).Ok?
    ensures SetOrientation(SetPosition(w, lon, lat, alt).value, roll, pitch, heading).Ok?
    ensures SetPosition(SetOrientation(w, roll, pitch, heading).value, lon, lat, alt).Ok?
    ensures SetOrientation(SetPosition(w, lon, lat, alt).value, roll, pitch, heading).value
            == SetPosition(SetOrientation(w, roll, pitch, heading).value, lon, lat, alt).value
  {
  }

  /** Setting the position leaves every time slot as it was. */
  lemma SetPositionKeepsTimes(w: Track, lon: seq<F64>, lat: seq<F64>, alt: seq<F64>, i: nat)
    requires Shaped(w) && SetPosition(w, lon, lat, alt).Ok? && i < w.length
    ensures SetPosition(w, lon, lat, alt).value.degrees[4 * i] == w.degrees[4 * i]
  {
    SlotCounts(w.length);
    assert (4 * i - 1) % 4 != 0 && (4 * i - 2) % 4 != 0 && (4 * i - 3) % 4 != 0;
  }

  /** Setting the orientation leaves every time slot as it was. */
  lemma SetOrientationKeepsTimes(w: Track, roll: seq<F64>, pitch: seq<F64>, heading: seq<F64>, i: nat)
    requires Shaped(w) && SetOrientation(w, roll, pitch, heading).Ok? && i < w.length
    ensures var t := SetOrientation(w, roll, pitch, heading).value;
            t.roll[2 * i] == w.roll[2 * i] && t.pitch[2 * i] == w.pitch[2 * i] && t.heading[2 * i] == w.heading[2 * i]
  {
    SlotCounts(w.length);
    assert (2 * i - 1) % 2 != 0;
  }
}

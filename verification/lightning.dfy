/**
 * The GLM `lightning` accumulator: each granule's events are cut to the
 * open region box and appended, in order, to the arrays collected so far.
 * The altitude of a kept event is a random fraction of the box's upper
 * altitude; the random draws are a parameter.
 */
module Lightning {
  import opened Seqs

  /** `lonW, latS, lonE, latN, altb, altu`. */
  datatype RegionBox = RegionBox(lonW: real, latS: real, lonE: real, latN: real, altb: real, altu: real)

  /** One event as `get_GLM` returns it. */
  datatype Event = Event(lat: real, lon: real, time: real, rad: real)

  /** The arrays a `lightning` object accumulates. */
  datatype Accumulated = Accumulated(time: seq<real>, lat: seq<real>, lon: seq<real>, rad: seq<real>, alt: seq<real>)

  /** All five arrays have one entry per kept event. */
  predicate Consistent(a: Accumulated) {
    |a.lat| == |a.time| && |a.lon| == |a.time| && |a.rad| == |a.time| && |a.alt| == |a.time|
  }

  /** Strictly inside the box in longitude and latitude; altitude is not compared. */
  predicate InBox(e: Event, box: RegionBox) {
    box.lonW < e.lon < box.lonE && box.latS < e.lat < box.latN
  }

  function BoxMask(events: seq<Event>, box: RegionBox): seq<bool> {
    MaskWhere(events, e => InBox(e, box))
  }

  /** Every position the box mask keeps holds an event inside the box. */
  lemma KeptInBox(events: seq<Event>, box: RegionBox)
    ensures forall j :: 0 <= j < |Kept(BoxMask(events, box))| ==>
              Kept(BoxMask(events, box))[j] < |events| && InBox(events[Kept(BoxMask(events, box))[j]], box)
  {
  }

  /** `np.append` of each kept event's fields and its altitude to the arrays. */
  function Append(acc: Accumulated, kept: seq<Event>, alts: seq<real>): (r: Accumulated)
    requires Consistent(acc) && |alts| == |kept|
    ensures Consistent(r) && |r.time| == |acc.time| + |kept|
    ensures forall k :: 0 <= k < |acc.time| ==> EventAt(r, k) == EventAt(acc, k) && r.alt[k] == acc.alt[k]
    ensures forall j :: 0 <= j < |kept| ==> EventAt(r, |acc.time| + j) == kept[j] && r.alt[|acc.time| + j] == alts[j]
  {
    var n := |kept|;
    Accumulated(acc.time + seq(n, j requires 0 <= j < n => kept[j].time),
                acc.lat + seq(n, j requires 0 <= j < n => kept[j].lat),
                acc.lon + seq(n, j requires 0 <= j < n => kept[j].lon),
                acc.rad + seq(n, j requires 0 <= j < n => kept[j].rad),
                acc.alt + alts)
  }

  /**
   * `Ltndata`: an empty granule changes nothing; otherwise the events
   * inside the box are appended in their order, the j-th with altitude
   * `draws(j) * altu`. The points already there stay as they were.
   */
  function Ltndata(acc: Accumulated, events: seq<Event>, box: RegionBox, draws: nat -> real): (r: Accumulated)
    requires Consistent(acc)
    ensures Consistent(r)
    ensures |r.time| == |acc.time| + Count(BoxMask(events, box))
    ensures forall k :: 0 <= k < |acc.time| ==> EventAt(r, k) == EventAt(acc, k) && r.alt[k] == acc.alt[k]
  {
    if |events| == 0 then acc
    else
      var mask := BoxMask(events, box);
      var n := Count(mask);
      Append(acc, Select(events, mask), seq(n, j requires 0 <= j < n => draws(j) * box.altu))
  }

  /** The event stored at position `k` of the accumulated arrays. */
  function EventAt(a: Accumulated, k: nat): Event
    requires Consistent(a) && k < |a.time|
  {
    Event(a.lat[k], a.lon[k], a.time[k], a.rad[k])
  }

  /**
   * Position `k` past the old points holds the `(k - |acc.time|)`-th event
   * inside the box, at altitude `draws(k - |acc.time|) * altu`.
   */
  lemma NewPointAt(acc: Accumulated, events: seq<Event>, box: RegionBox, draws: nat -> real, k: nat)
    requires Consistent(acc)
    requires |acc.time| <= k < |Ltndata(acc, events, box, draws).time|
    ensures var r := Ltndata(acc, events, box, draws);
            var i := Kept(BoxMask(events, box))[k - |acc.time|];
            i < |events| && InBox(events[i], box) && EventAt(r, k) == events[i]
            && r.alt[k] == draws(k - |acc.time|) * box.altu
  {
    SelectIsKept(events, BoxMask(events, box));
    KeptInBox(events, box);
  }

  /** Every accumulated point lies strictly inside the box. */
  ghost predicate AllInBox(a: Accumulated, box: RegionBox)
    requires Consistent(a)
  {
    forall k :: 0 <= k < |a.time| ==> InBox(EventAt(a, k), box)
  }

  /** The accumulated points, one event per index. */
  function Points(a: Accumulated): (ps: seq<Event>)
    requires Consistent(a)
    ensures |ps| == |a.time| && forall k :: 0 <= k < |a.time| ==> ps[k] == EventAt(a, k)
  {
    seq(|a.time|, k requires 0 <= k < |a.time| => EventAt(a, k))
  }

  /** The points after the call are the points before it followed by `events[mask]`. */
  lemma LtndataPoints(acc: Accumulated, events: seq<Event>, box: RegionBox, draws: nat -> real)
    requires Consistent(acc)
    ensures Points(Ltndata(acc, events, box, draws)) == Points(acc) + Select(events, BoxMask(events, box))
  {
    var r := Ltndata(acc, events, box, draws);
    var mask := BoxMask(events, box);
    SelectIsKept(events, mask);
    forall k | 0 <= k < |r.time| ensures Points(r)[k] == (Points(acc) + Select(events, mask))[k] {
      if k >= |acc.time| {
        NewPointAt(acc, events, box, draws, k);
      }
    }
  }

  /**
   * The new points are exactly the granule's events inside the box: each
   * appended point is such an event, and each such event is appended.
   */
  lemma LtndataExact(acc: Accumulated, events: seq<Event>, box: RegionBox, draws: nat -> real)
    requires Consistent(acc)
    ensures var added := Points(Ltndata(acc, events, box, draws))[|acc.time|..];
            forall e :: e in added <==> e in events && InBox(e, box)
  {
    var mask := BoxMask(events, box);
    LtndataPoints(acc, events, box, draws);
    var r := Ltndata(acc, events, box, draws);
    assert Points(r)[|acc.time|..] == Select(events, mask);
    SelectMembers(events, mask);
  }

  /** Appended points keep the granule's order: a later point comes from a later event. */
  lemma LtndataInOrder(acc: Accumulated, events: seq<Event>, box: RegionBox, draws: nat -> real, k1: nat, k2: nat)
    requires Consistent(acc)
    requires |acc.time| <= k1 < k2 < |Ltndata(acc, events, box, draws).time|
    ensures var r := Ltndata(acc, events, box, draws);
            exists i1, i2 :: 0 <= i1 < i2 < |events| && EventAt(r, k1) == events[i1] && EventAt(r, k2) == events[i2]
  {
    var mask := BoxMask(events, box);
    KeptIncreasing(mask);
    NewPointAt(acc, events, box, draws, k1);
    NewPointAt(acc, events, box, draws, k2);
  }

  /** Repeated calls with one box keep every accumulated point inside it. */
  lemma LtndataKeepsInBox(acc: Accumulated, events: seq<Event>, box: RegionBox, draws: nat -> real)
    requires Consistent(acc) && AllInBox(acc, box)
    ensures AllInBox(Ltndata(acc, events, box, draws), box)
  {
    var r := Ltndata(acc, events, box, draws);
    forall k | 0 <= k < |r.time| ensures InBox(EventAt(r, k), box) {
      if k >= |acc.time| {
        NewPointAt(acc, events, box, draws, k);
      }
    }
  }
}

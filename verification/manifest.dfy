/**
 * The `tileset.json` manifest the tile writers grow as they go. The CRS
 * and IMPACTS writers hang, per tile, a chain of six level-of-detail nodes
 * (steps 32 down to 1) below the root; the LMA and GLM writers append each
 * call's node directly to the root, so their levels are siblings. Both
 * register every step-1 file name in `properties.refined`.
 *
 * `PointCloud` of the CRS tileset drives `generate` from a task list that
 * worker threads pop from the end; the model runs the pops one after the
 * other, and `join` writes the manifest once, after the list is empty.
 * The ISO time formatter is a parameter (`fmt`), treated as opaque.
 */
module Manifest {
  import opened Wrappers
  import opened Seqs
  import opened Geo
  import opened TileEncoders

  /** The level-of-detail steps of one tile, coarsest first. */
  const STEPS: seq<nat> := [32, 16, 8, 4, 2, 1]

  const ROOT_GEOMETRIC_ERROR: nat := 1000000

  /** Seconds subtracted from / added to the data's time span in `availability`. */
  const AVAILABILITY_MARGIN: int := 300

  /**
   * A child tile. `hasChildren` is false when the JSON object has no
   * `children` key (the step-1 leaf); `children` is then empty.
   */
  datatype Node = Node(
    availability: string, geometricError: nat, region: seq<real>,
    uri: string, hasChildren: bool, children: seq<Node>)

  datatype Tileset = Tileset(
    assetType: string, geometricError: nat, refine: string, region: seq<real>,
    children: seq<Node>, epoch: string, refined: seq<string>)

  /**
   * `Tileset.__init__` of the IMPACTS, LMA and GLM writers: an empty root
   * whose region is the bounding box converted to radians.
   */
  function NewTileset(assetType: string, bigbox: seq<real>, epoch: string): (t: Tileset)
    ensures t.children == [] && t.refined == []
    ensures t.geometricError == ROOT_GEOMETRIC_ERROR && t.refine == "REPLACE"
    ensures |t.region| == |bigbox| && RegionDeg(t.region) == bigbox
  {
    RegionRadInverse(bigbox);
    Tileset(assetType, ROOT_GEOMETRIC_ERROR, "REPLACE", RegionRad(bigbox), [], epoch, [])
  }

  /**
   * The CRS `PointCloud` root: all six extremes of the whole data set are
   * multiplied by `to_rad`, the two altitudes included.
   */
  function CrsRootRegion(lon: seq<real>, lat: seq<real>, alt: seq<real>): (r: Result<seq<real>>)
    requires |lon| == |lat| == |alt|
    ensures r.Ok? <==> |lon| > 0
    ensures r.Ok? ==> |r.value| == 6
    ensures r.Ok? ==> forall i :: 0 <= i < |lon| ==>
              r.value[0] <= Rad(lon[i]) <= r.value[2]
              && r.value[1] <= Rad(lat[i]) <= r.value[3]
              && r.value[4] <= Rad(alt[i]) <= r.value[5]
    ensures r.Ok? ==> ((exists i :: 0 <= i < |lon| && r.value[0] == Rad(lon[i]))
                       && (exists i :: 0 <= i < |lon| && r.value[1] == Rad(lat[i]))
                       && (exists i :: 0 <= i < |lon| && r.value[2] == Rad(lon[i]))
                       && (exists i :: 0 <= i < |lon| && r.value[3] == Rad(lat[i]))
                       && (exists i :: 0 <= i < |lon| && r.value[4] == Rad(alt[i]))
                       && (exists i :: 0 <= i < |lon| && r.value[5] == Rad(alt[i])))
  {
    if |lon| == 0 then Err(EmptyArray)
    else
      var ext := [MinOf(lon).value, MinOf(lat).value, MaxOf(lon).value, MaxOf(lat).value,
                  MinOf(alt).value, MaxOf(alt).value];
      var r := RegionRad(ext);
      assert forall i :: 0 <= i < |lon| ==>
               r[0] <= Rad(lon[i]) <= r[2] && r[1] <= Rad(lat[i]) <= r[3] && r[4] <= Rad(alt[i]) <= r[5] by {
        forall i | 0 <= i < |lon|
          ensures r[0] <= Rad(lon[i]) <= r[2] && r[1] <= Rad(lat[i]) <= r[3] && r[4] <= Rad(alt[i]) <= r[5]
        {
          RadMono(ext[0], lon[i]); RadMono(lon[i], ext[2]);
          RadMono(ext[1], lat[i]); RadMono(lat[i], ext[3]);
          RadMono(ext[4], alt[i]); RadMono(alt[i], ext[5]);
        }
      }
      Ok(r)
  }

  /** One level: the step-1 node has no `children` key, the others get `below`. */
  function Level(tile: nat, step: nat, availability: string, region: seq<real>, below: seq<Node>): Node {
    Node(availability, step * 500, region, TileFileName(tile, step), step != 1, if step == 1 then [] else below)
  }

  /**
   * The chain `generate` builds: each step's node is the only child of the
   * previous one. Appending to a step-1 node would fail (it has no
   * `children`), so 1 may only come last.
   */
  function Chain(tile: nat, steps: seq<nat>, availability: string, region: seq<real>): Node
    requires |steps| > 0
    requires forall i :: 0 <= i < |steps| - 1 ==> steps[i] != 1
    decreases |steps|
  {
    if |steps| == 1 then Level(tile, steps[0], availability, region, [])
    else Level(tile, steps[0], availability, region, [Chain(tile, steps[1..], availability, region)])
  }

  /** The nodes met walking down from `n` through first children. */
  function Path(n: Node): (p: seq<Node>)
    ensures |p| >= 1 && p[0] == n
    decreases n
  {
    if |n.children| == 0 then [n] else [n] + Path(n.children[0])
  }

  /**
   * Walking down a chain meets one node per step, in order: level k has
   * geometric error `500 * steps[k]` and content `<tile>_<steps[k]>.pnts`,
   * every level but the last has exactly one child (the next level), and
   * only the last has no `children` key.
   */
  lemma {:induction false} ChainPath(tile: nat, steps: seq<nat>, availability: string, region: seq<real>)
    requires |steps| > 0 && steps[|steps| - 1] == 1
    requires forall i :: 0 <= i < |steps| - 1 ==> steps[i] != 1
    ensures var p := Path(Chain(tile, steps, availability, region));
            |p| == |steps|
            && (forall k :: 0 <= k < |p| ==>
                  p[k].geometricError == 500 * steps[k] && p[k].uri == TileFileName(tile, steps[k])
                  && p[k].availability == availability && p[k].region == region)
            && (forall k :: 0 <= k < |p| - 1 ==> p[k].hasChildren && p[k].children == [p[k + 1]])
            && !p[|p| - 1].hasChildren
    decreases |steps|
  {
    if |steps| > 1 {
      ChainPath(tile, steps[1..], availability, region);
    }
  }

  /** The file name of the bottom of a chain, which is what `refined` records. */
  function Leaf(n: Node): string {
    var p := Path(n);
    p[|p| - 1].uri
  }

  // -------------------------------------------------------------------
  // Chained manifests (CRS generate, IMPACTS make_pcloudTile)
  // -------------------------------------------------------------------

  /**
   * Every root child is a chain, and `refined` lists, child by child, the
   * file at the bottom of each chain.
   */
  ghost predicate ChainedInvariant(t: Tileset) {
    |t.refined| == |t.children|
    && forall i :: 0 <= i < |t.children| ==>
         t.refined[i] == Leaf(t.children[i]) && !Path(t.children[i])[|Path(t.children[i])| - 1].hasChildren
  }

  /** The manifest half of one `generate` / `make_pcloudTile` call. */
  function AddChain(t: Tileset, tile: nat, availability: string, region: seq<real>): (r: Tileset)
    ensures |r.children| == |t.children| + 1 && r.children[..|t.children|] == t.children
    ensures r.refined == t.refined + [TileFileName(tile, 1)]
    ensures r.(children := t.children, refined := t.refined) == t
  {
    t.(children := t.children + [Chain(tile, STEPS, availability, region)],
       refined := t.refined + [TileFileName(tile, 1)])
  }

  /** Adding a chain keeps `refined` in step with the bottoms of the chains. */
  lemma AddChainPreserves(t: Tileset, tile: nat, availability: string, region: seq<real>)
    requires ChainedInvariant(t)
    ensures ChainedInvariant(AddChain(t, tile, availability, region))
    ensures var r := AddChain(t, tile, availability, region);
            |Path(r.children[|t.children|])| == 6 && r.refined[|t.refined|] == TileFileName(tile, 1)
  {
    ChainPath(tile, STEPS, availability, region);
  }

  lemma NewTilesetChained(assetType: string, bigbox: seq<real>, epoch: string)
    ensures ChainedInvariant(NewTileset(assetType, bigbox, epoch))
  {
  }

  // -------------------------------------------------------------------
  // Sibling manifests (LMA and GLM MK_cloud_czml)
  // -------------------------------------------------------------------

  /** The file names of the children without a `children` key, in order. */
  function LeafUris(ns: seq<Node>): seq<string> {
    if |ns| == 0 then []
    else LeafUris(ns[..|ns| - 1]) + (if !ns[|ns| - 1].hasChildren then [ns[|ns| - 1].uri] else [])
  }

  /** `refined` lists exactly the step-1 siblings' files, in the order they were added. */
  ghost predicate SiblingInvariant(t: Tileset) {
    t.refined == LeafUris(t.children)
    && forall i :: 0 <= i < |t.children| ==>
         t.children[i].children == []
  }

  /** The manifest half of one `MK_cloud_czml` call. */
  function AddSibling(t: Tileset, tile: nat, step: nat, availability: string, region: seq<real>): (r: Tileset)
    ensures |r.children| == |t.children| + 1 && r.children[..|t.children|] == t.children
    ensures r.children[|t.children|].geometricError == 500 * step
    ensures r.children[|t.children|].uri == TileFileName(tile, step)
    ensures r.refined == if step == 1 then t.refined + [TileFileName(tile, 1)] else t.refined
    ensures r.(children := t.children, refined := t.refined) == t
  {
    t.(children := t.children + [Level(tile, step, availability, region, [])],
       refined := if step == 1 then t.refined + [TileFileName(tile, step)] else t.refined)
  }

  lemma AddSiblingPreserves(t: Tileset, tile: nat, step: nat, availability: string, region: seq<real>)
    requires SiblingInvariant(t)
    ensures SiblingInvariant(AddSibling(t, tile, step, availability, region))
  {
    var r := AddSibling(t, tile, step, availability, region);
    assert r.children[..|r.children| - 1] == t.children;
  }

  lemma NewTilesetSiblings(assetType: string, bigbox: seq<real>, epoch: string)
    ensures SiblingInvariant(NewTileset(assetType, bigbox, epoch))
  {
  }

  // -------------------------------------------------------------------
  // PointCloud: tasks, generate, join (CRS tileset.py)
  // -------------------------------------------------------------------

  /** `(tile, start, end)`: rows `start:end` of the store become tile `tile`. */
  datatype Task = Task(tile: nat, start: nat, end: nat)

  datatype PointCloud = PointCloud(
    key: string, lon: seq<real>, lat: seq<real>, alt: seq<real>, time: seq<real>,
    epoch: int, tasks: seq<Task>, tileset: Tileset)

  predicate ValidColumns(pc: PointCloud) {
    |pc.lon| == |pc.lat| == |pc.alt| == |pc.time|
  }

  /** `schedule_task`: the task goes to the end of the list. */
  function ScheduleTask(pc: PointCloud, task: Task): (r: PointCloud)
    ensures r.tasks == pc.tasks + [task]
    ensures r.(tasks := pc.tasks) == pc
  {
    pc.(tasks := pc.tasks + [task])
  }

  /**
   * The `availability` window of one tile, in absolute seconds:
   * `int(min(time) + epoch - 300)` to `int(max(time) + epoch + 300)`.
   * `np.min` of an empty slice raises.
   */
  function AvailabilityWindow(time: seq<real>, epoch: int): (r: Result<(int, int)>)
    ensures r.Ok? <==> |time| > 0
    ensures r.Ok? ==> forall i :: 0 <= i < |time| ==>
              (r.value.0 - 1) as real < time[i] + epoch as real - AVAILABILITY_MARGIN as real
              && time[i] + epoch as real + AVAILABILITY_MARGIN as real < (r.value.1 + 1) as real
    ensures r.Ok? ==> exists i :: 0 <= i < |time| && r.value.0 == Trunc(time[i] + epoch as real - AVAILABILITY_MARGIN as real)
    ensures r.Ok? ==> exists i :: 0 <= i < |time| && r.value.1 == Trunc(time[i] + epoch as real + AVAILABILITY_MARGIN as real)
  {
    if |time| == 0 then Err(EmptyArray)
    else
      var lo := MinOf(time).value;
      var hi := MaxOf(time).value;
      Ok((Trunc(lo + epoch as real - AVAILABILITY_MARGIN as real), Trunc(hi + epoch as real + AVAILABILITY_MARGIN as real)))
  }

  /** `"{}/{}".format(epoch, end)` with the ISO formatter `fmt`. */
  function Interval(fmt: int -> string, w: (int, int)): string {
    fmt(w.0) + "/" + fmt(w.1)
  }

  /** The slice `[start:end]` of a task is non-empty, so `generate` gets past `np.min`. */
  predicate TaskRuns(pc: PointCloud, task: Task) {
    task.start < task.end && task.start < |pc.time|
  }

  /**
   * The manifest half of `generate(tile, start, end)` applied to the
   * manifest `t`: the slice's region and availability, then the chain.
   * Fails as the source does on an empty slice.
   */
  function Generate(pc: PointCloud, t: Tileset, task: Task, fmt: int -> string): (r: Result<Tileset>)
    requires ValidColumns(pc)
    ensures r.Ok? <==> TaskRuns(pc, task)
    ensures r.Ok? ==> |r.value.children| == |t.children| + 1
    ensures r.Ok? ==> var lon, lat, alt, time := PySlice(pc.lon, task.start, task.end), PySlice(pc.lat, task.start, task.end),
                                               PySlice(pc.alt, task.start, task.end), PySlice(pc.time, task.start, task.end);
                      r.value == AddChain(t, task.tile, Interval(fmt, AvailabilityWindow(time, pc.epoch).value),
                                          Region(lon, lat, alt).value)
  {
    var time := PySlice(pc.time, task.start, task.end);
    if |time| == 0 then Err(EmptyArray)
    else
      var region := Region(PySlice(pc.lon, task.start, task.end), PySlice(pc.lat, task.start, task.end),
                           PySlice(pc.alt, task.start, task.end)).value;
      var window := AvailabilityWindow(time, pc.epoch).value;
      Ok(AddChain(t, task.tile, Interval(fmt, window), region))
  }

  /** Generating the tasks in the given order; the first failure stops the run. */
  function GenerateAll(pc: PointCloud, t: Tileset, order: seq<Task>, fmt: int -> string): (r: Result<Tileset>)
    requires ValidColumns(pc)
    decreases |order|
  {
    if |order| == 0 then Ok(t)
    else
      match Generate(pc, t, order[0], fmt)
      case Err(e) => Err(e)
      case Ok(t') => GenerateAll(pc, t', order[1..], fmt)
  }

  /** `PointCloud.__init__` starts ten worker threads. */
  const WORKERS: nat := 10

  /** The tasks of `order` whose `generate` succeeds, in order. */
  function Succeeding(pc: PointCloud, order: seq<Task>): (r: seq<Task>)
    ensures |r| <= |order|
  {
    if |order| == 0 then []
    else (if TaskRuns(pc, order[0]) then [order[0]] else []) + Succeeding(pc, order[1..])
  }

  /** `Succeeding` keeps exactly the tasks that run, and all of them when all do. */
  lemma {:induction false} SucceedingExact(pc: PointCloud, order: seq<Task>)
    ensures forall task :: task in Succeeding(pc, order) <==> task in order && TaskRuns(pc, task)
    ensures (forall i :: 0 <= i < |order| ==> TaskRuns(pc, order[i])) ==> Succeeding(pc, order) == order
    decreases |order|
  {
    if |order| > 0 {
      SucceedingExact(pc, order[1..]);
      assert order == [order[0]] + order[1..];
    }
  }

  /** `Succeeding` of a non-empty prefix: the first task, if it succeeds, then the rest. */
  lemma SucceedingPrefix(pc: PointCloud, order: seq<Task>, k: nat)
    requires 0 < k <= |order|
    ensures Succeeding(pc, order[..k]) == (if TaskRuns(pc, order[0]) then [order[0]] else []) + Succeeding(pc, order[1..][..k - 1])
  {
    assert order[..k][1..] == order[1..][..k - 1];
  }

  /**
   * The outcome of the workers: the manifest, how many tasks were popped
   * and how many workers an exception ended.
   */
  datatype Run = Run(tileset: Tileset, ran: nat, failed: nat)

  /**
   * The workers popping `order` one task at a time. A task whose
   * `generate` raises ends the worker that popped it and leaves the
   * manifest as it was (the exception comes before the first child is
   * added); the other workers go on popping. Once all ten workers have
   * ended, the tasks left are never generated.
   */
  function RunFrom(pc: PointCloud, t: Tileset, order: seq<Task>, fmt: int -> string, failed: nat): (r: Run)
    requires ValidColumns(pc) && failed <= WORKERS
    ensures failed <= r.failed <= WORKERS && r.ran <= |order|
    ensures r.ran < |order| ==> r.failed == WORKERS
    ensures r.failed == failed + r.ran - |Succeeding(pc, order[..r.ran])|
    decreases |order|
  {
    if |order| == 0 || failed == WORKERS then Run(t, 0, failed)
    else
      var rest := if TaskRuns(pc, order[0]) then RunFrom(pc, Generate(pc, t, order[0], fmt).value, order[1..], fmt, failed)
                  else RunFrom(pc, t, order[1..], fmt, failed + 1);
      SucceedingPrefix(pc, order, rest.ran + 1);
      Run(rest.tileset, rest.ran + 1, rest.failed)
  }

  /** While fewer than ten of the tasks fail, every task is popped. */
  lemma {:induction false} RunFromAllPopped(pc: PointCloud, t: Tileset, order: seq<Task>, fmt: int -> string, failed: nat)
    requires ValidColumns(pc) && failed <= WORKERS
    requires failed + |order| - |Succeeding(pc, order)| < WORKERS
    ensures RunFrom(pc, t, order, fmt, failed).ran == |order|
    decreases |order|
  {
    if |order| > 0 {
      SucceedingPrefix(pc, order, |order|);
      assert order[..|order|] == order && order[1..][..|order| - 1] == order[1..];
      if TaskRuns(pc, order[0]) {
        RunFromAllPopped(pc, Generate(pc, t, order[0], fmt).value, order[1..], fmt, failed);
      } else {
        RunFromAllPopped(pc, t, order[1..], fmt, failed + 1);
      }
    }
  }

  /** When every task succeeds the workers do what the first-failure run does. */
  lemma {:induction false} RunFromAllSucceed(pc: PointCloud, t: Tileset, order: seq<Task>, fmt: int -> string, failed: nat)
    requires ValidColumns(pc) && failed <= WORKERS
    requires forall i :: 0 <= i < |order| ==> TaskRuns(pc, order[i])
    ensures failed < WORKERS ==> GenerateAll(pc, t, order, fmt).Ok?
                                 && RunFrom(pc, t, order, fmt, failed) == Run(GenerateAll(pc, t, order, fmt).value, |order|, failed)
    decreases |order|
  {
    if |order| > 0 && failed < WORKERS {
      assert TaskRuns(pc, order[0]);
      var g := Generate(pc, t, order[0], fmt).value;
      RunFromAllSucceed(pc, g, order[1..], fmt, failed);
      assert GenerateAll(pc, t, order, fmt) == GenerateAll(pc, g, order[1..], fmt);
    }
  }

  /** Whatever fails, the manifest after the workers is still chained. */
  lemma {:induction false} RunKeepsChained(pc: PointCloud, t: Tileset, order: seq<Task>, fmt: int -> string, failed: nat)
    requires ValidColumns(pc) && ChainedInvariant(t) && failed <= WORKERS
    ensures ChainedInvariant(RunFrom(pc, t, order, fmt, failed).tileset)
    decreases |order|
  {
    if |order| == 0 || failed == WORKERS {
      assert RunFrom(pc, t, order, fmt, failed).tileset == t;
    } else if TaskRuns(pc, order[0]) {
      var g := Generate(pc, t, order[0], fmt).value;
      GenerateStep(pc, t, order[0], fmt);
      RunKeepsChained(pc, g, order[1..], fmt, failed);
      assert RunFrom(pc, t, order, fmt, failed).tileset == RunFrom(pc, g, order[1..], fmt, failed).tileset;
    } else {
      RunKeepsChained(pc, t, order[1..], fmt, failed + 1);
      assert RunFrom(pc, t, order, fmt, failed).tileset == RunFrom(pc, t, order[1..], fmt, failed + 1).tileset;
    }
  }

  /**
   * Whatever fails, the manifest after the workers holds, after the old
   * children, one chain per successful popped task in the order popped;
   * `refined` gains their step-1 files in that order.
   */
  lemma {:induction false} RunChains(pc: PointCloud, t: Tileset, order: seq<Task>, fmt: int -> string, failed: nat)
    requires ValidColumns(pc) && failed <= WORKERS
    ensures var r := RunFrom(pc, t, order, fmt, failed);
            ChainsAfter(t, r.tileset, Succeeding(pc, order[..r.ran]))
    decreases |order|
  {
    var r := RunFrom(pc, t, order, fmt, failed);
    if |order| == 0 || failed == WORKERS {
      assert r == Run(t, 0, failed);
      assert t.children[..|t.children|] == t.children && t.refined + [] == t.refined;
    } else {
      SucceedingPrefix(pc, order, r.ran);
      if TaskRuns(pc, order[0]) {
        var g := Generate(pc, t, order[0], fmt).value;
        GenerateAdds(pc, t, order[0], fmt);
        RunChains(pc, g, order[1..], fmt, failed);
        var rest := RunFrom(pc, g, order[1..], fmt, failed);
        assert r.tileset == rest.tileset && r.ran == rest.ran + 1;
        ChainsCompose(t, g, r.tileset, order[0], Succeeding(pc, order[1..][..rest.ran]));
      } else {
        RunChains(pc, t, order[1..], fmt, failed + 1);
        var rest := RunFrom(pc, t, order[1..], fmt, failed + 1);
        assert r.tileset == rest.tileset && r.ran == rest.ran + 1;
        assert Succeeding(pc, order[..r.ran]) == Succeeding(pc, order[1..][..rest.ran]);
      }
    }
  }

  /**
   * `worker_function` run by the ten workers, one pop at a time: pop the
   * last task and generate it, while tasks are left and a worker is.
   */
  method RunWorker(pc: PointCloud, fmt: int -> string) returns (r: Run)
    requires ValidColumns(pc)
    ensures r == RunFrom(pc, pc.tileset, Reverse(pc.tasks), fmt, 0)
  {
    var tasks := pc.tasks;
    var t := pc.tileset;
    var failed := 0;
    while |tasks| > 0 && failed < WORKERS
      invariant |tasks| <= |pc.tasks| && failed <= WORKERS
      invariant var whole, rest := RunFrom(pc, pc.tileset, Reverse(pc.tasks), fmt, 0), RunFrom(pc, t, Reverse(tasks), fmt, failed);
                whole == rest.(ran := |pc.tasks| - |tasks| + rest.ran)
      decreases |tasks|
    {
      var task := tasks[|tasks| - 1];
      ReverseInit(tasks);
      assert Reverse(tasks)[1..] == Reverse(tasks[..|tasks| - 1]);
      var g := Generate(pc, t, task, fmt);
      if g.Err? {
        failed := failed + 1;
      } else {
        t := g.value;
      }
      tasks := tasks[..|tasks| - 1];
    }
    return Run(t, |pc.tasks| - |tasks|, failed);
  }

  /** The step-1 file names of the tasks, in order. */
  function LeafNames(order: seq<Task>): (r: seq<string>)
    ensures |r| == |order|
  {
    seq(|order|, i requires 0 <= i < |order| => TileFileName(order[i].tile, 1))
  }

  /**
   * Every successful run adds one chain per task, in the order run, and
   * `refined` gains the tasks' step-1 files in that order.
   */
  lemma GenerateAllChains(pc: PointCloud, t: Tileset, order: seq<Task>, fmt: int -> string)
    requires ValidColumns(pc) && ChainedInvariant(t)
    ensures var r := GenerateAll(pc, t, order, fmt);
            r.Ok? ==> ChainedInvariant(r.value) && ChainsAfter(t, r.value, order)
  {
    GenerateAllKeepsChained(pc, t, order, fmt);
    GenerateAllAppends(pc, t, order, fmt);
  }

  lemma {:induction false} GenerateAllKeepsChained(pc: PointCloud, t: Tileset, order: seq<Task>, fmt: int -> string)
    requires ValidColumns(pc) && ChainedInvariant(t)
    ensures var r := GenerateAll(pc, t, order, fmt); r.Ok? ==> ChainedInvariant(r.value)
    decreases |order|
  {
    var r := GenerateAll(pc, t, order, fmt);
    if |order| == 0 {
      assert r == Ok(t);
    } else if TaskRuns(pc, order[0]) {
      var g := Generate(pc, t, order[0], fmt).value;
      GenerateStep(pc, t, order[0], fmt);
      GenerateAllKeepsChained(pc, g, order[1..], fmt);
      assert r == GenerateAll(pc, g, order[1..], fmt);
    } else {
      assert r.Err?;
    }
  }

  lemma {:induction false} GenerateAllAppends(pc: PointCloud, t: Tileset, order: seq<Task>, fmt: int -> string)
    requires ValidColumns(pc)
    ensures var r := GenerateAll(pc, t, order, fmt); r.Ok? ==> ChainsAfter(t, r.value, order)
    decreases |order|
  {
    var r := GenerateAll(pc, t, order, fmt);
    if |order| == 0 {
      assert r == Ok(t);
      assert t.children[..|t.children|] == t.children && t.refined + [] == t.refined;
    } else if TaskRuns(pc, order[0]) {
      var g := Generate(pc, t, order[0], fmt).value;
      GenerateAdds(pc, t, order[0], fmt);
      GenerateAllAppends(pc, g, order[1..], fmt);
      assert r == GenerateAll(pc, g, order[1..], fmt);
      if r.Ok? {
        ChainsCompose(t, g, r.value, order[0], order[1..]);
        assert [order[0]] + order[1..] == order;
      }
    } else {
      assert r.Err?;
    }
  }



  /**
   * `r` is `t` with one chain per task of `done` appended, in order, and
   * `refined` extended by their step-1 files in that order.
   */
  predicate ChainsAfter(t: Tileset, r: Tileset, done: seq<Task>) {
    |r.children| == |t.children| + |done| && r.children[..|t.children|] == t.children
    && r.refined == t.refined + LeafNames(done)
  }

  /** One successful `generate` appends one chain and the task's step-1 file. */
  lemma GenerateAdds(pc: PointCloud, t: Tileset, task: Task, fmt: int -> string)
    requires ValidColumns(pc) && TaskRuns(pc, task)
    ensures ChainsAfter(t, Generate(pc, t, task, fmt).value, [task])
  {
    assert LeafNames([task]) == [TileFileName(task.tile, 1)];
  }

  /** One successful `generate` keeps the chained invariant. */
  lemma GenerateStep(pc: PointCloud, t: Tileset, task: Task, fmt: int -> string)
    requires ValidColumns(pc) && ChainedInvariant(t) && TaskRuns(pc, task)
    ensures ChainedInvariant(Generate(pc, t, task, fmt).value)
  {
    var g := Generate(pc, t, task, fmt).value;
    var n := |t.children|;
    AddChainPreserves(t, task.tile, g.children[n].availability, g.children[n].region);
  }

  /** One chain for `first`, then chains for `rest`, make chains for `[first] + rest`. */
  lemma ChainsCompose(t: Tileset, t1: Tileset, t2: Tileset, first: Task, rest: seq<Task>)
    requires ChainsAfter(t, t1, [first]) && ChainsAfter(t1, t2, rest)
    ensures ChainsAfter(t, t2, [first] + rest)
  {
    var n := |t.children|;
    assert t2.children[..n] == t2.children[..n + 1][..n];
    assert LeafNames([first] + rest) == LeafNames([first]) + LeafNames(rest);
  }

  /**
   * `join`: once every worker has ended, `tileset.json` is written, once,
   * to `<key>/tileset.json`, holding the chains of the tasks that
   * succeeded; when no task fails it holds one chain per task.
   */
  method Join(pc: PointCloud, fmt: int -> string) returns (path: string, manifest: Tileset)
    requires ValidColumns(pc) && ChainedInvariant(pc.tileset)
    ensures path == pc.key + "/tileset.json"
    ensures ChainedInvariant(manifest)
    ensures var run := RunFrom(pc, pc.tileset, Reverse(pc.tasks), fmt, 0);
            ChainsAfter(pc.tileset, manifest, Succeeding(pc, Reverse(pc.tasks)[..run.ran]))
    ensures (forall i :: 0 <= i < |pc.tasks| ==> TaskRuns(pc, pc.tasks[i])) ==>
              GenerateAll(pc, pc.tileset, Reverse(pc.tasks), fmt) == Ok(manifest)
              && |manifest.children| == |pc.tileset.children| + |pc.tasks|
  {
    var run := RunWorker(pc, fmt);
    RunKeepsChained(pc, pc.tileset, Reverse(pc.tasks), fmt, 0);
    RunChains(pc, pc.tileset, Reverse(pc.tasks), fmt, 0);
    if forall i :: 0 <= i < |pc.tasks| ==> TaskRuns(pc, pc.tasks[i]) {
      AllTasksRun(pc, fmt);
    }
    return pc.key + "/tileset.json", run.tileset;
  }

  /** When no task fails, the workers' manifest is the first-failure run's, with one chain per task. */
  lemma AllTasksRun(pc: PointCloud, fmt: int -> string)
    requires ValidColumns(pc) && ChainedInvariant(pc.tileset)
    requires forall i :: 0 <= i < |pc.tasks| ==> TaskRuns(pc, pc.tasks[i])
    ensures var run := RunFrom(pc, pc.tileset, Reverse(pc.tasks), fmt, 0);
            GenerateAll(pc, pc.tileset, Reverse(pc.tasks), fmt) == Ok(run.tileset)
            && |run.tileset.children| == |pc.tileset.children| + |pc.tasks|
  {
    var rev := Reverse(pc.tasks);
    assert forall i :: 0 <= i < |rev| ==> TaskRuns(pc, rev[i]);
    RunFromAllSucceed(pc, pc.tileset, rev, fmt, 0);
    GenerateAllChains(pc, pc.tileset, rev, fmt);
  }
}

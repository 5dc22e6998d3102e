# A Dafny model of the GHRC Field Campaign eXplorer core

The Field Campaign eXplorer (FCX) turns the time-stamped samples of NASA
field campaigns into files a 3D globe can play back. It handles radar and
lidar curtains, lightning flashes, aircraft navigation and dropsondes. The
campaign scripts share a small core, and this project models it as pure
Dafny functions with proved contracts:

- **`.pnts` point-cloud tiles** (`Bytes`, `Pnts`, `TileEncoders`). The four
  tile writers (CRS, IMPACTS, LMA, GLM) build a feature table, a batch
  table and little-endian binary columns. All four hand them to one shared
  layout: a 28-byte header, then JSON padded with spaces to 8 bytes and
  binary padded to 8 bytes.
- **The 3D Tiles manifest** (`Manifest`). This is the `tileset.json` tree
  whose nodes are chained step by step or added as siblings, with each
  node's region and refinement.
- **The chunked time store and its query** (`ChunkStore`, `ChunkQuery`).
  A point cloud is sorted by time, masked and cut into chunks of 262144 rows
  with a per-chunk time index. A query looks up the rows of a time window.
- **Windowing and tiling** (`Windows`). These are the fixed-length time
  windows and row tiles of the campaign scripts, and the tile and step
  numbering.
- **Image availability** (`Availability`). The NEXRAD and NPOL helpers
  group file names by day and chain each image's interval to the next.
- **File search and filters** (`IngestUtils`, `FileNames`, `IntText`).
  This covers longitude unwrapping, the LMA and GLM file listings, the
  station mask, and the date fields cut from file names. `IntText` is
  Python's `int(text, base)` for bases 10 and 16, which the station mask
  and the image end times go through.
- **IMPACTS and HS3 HIWRAP curtains** (`ImpactsUtils`, `Hiwrap`). These
  are NaN resetting, dimension syncing, radar and lidar flattening, and
  the sorted, masked and strided curtain.
- **Flight tracks** (`FlightReader`, `FlightWriter`). The CZML path
  packet holds `[t, lon, lat, alt]` position entries and three
  `[t, angle]` arrays (roll, pitch and heading). The navigation files of
  four campaigns are read into them.
- **Imagery and tileset CZML** (`CzmlWriters`). These are the NEXRAD and
  NPOL packet builders.
- **Colour encoders** (`Colors`). The radar, lidar and lightning values
  are mapped to colour bands.
- **Date-times** (`Calendar`). This covers the dropsonde `stringToDateTime`
  and `addDelta` and the navigation readers' `get_iso_datetime`.
- **Lightning accumulation** (`Lightning`). GLM events are cut to the
  region box.

Floating-point values are modelled as `Floats.F64` (a real, NaN or an
infinity) wherever the source tests for NaN or infinity, and as `real`
elsewhere. Errors the source raises (`KeyError`, `IndexError`,
`ValueError`, `OverflowError`) become `Wrappers.Result` failures. The
contracts state which inputs fail. Where the model's failure condition
is narrower or wider than the source's, the difference is listed under
"Left out".

Some things become parameters: calls into libraries whose behaviour is not
part of the core (`json.dumps`, the map projection, the ISO formatter,
text-to-time parsing) and the random altitude draws. The contracts hold
for every choice of these.

## Model

| member | source | states |
|---|---|---|
| Pnts.EncodeColumn | lma_subcode.py:231-233 | `tobytes()` of a column holds exactly count × component-size bytes |
| Pnts.DecodeEncodeComponent | lma_subcode.py:224-233 | one component written little-endian reads back as the value wrapped to its numpy type |
| Pnts.DecodeEncodeColumn | lma_subcode.py:231-237 | a whole column written with `tobytes()` reads back value by value, each wrapped to its type |
| Pnts.EncodeBody | lma_subcode.py:231-233 | the binary body is as long as all its columns together |
| Pnts.PlacedReadsBack | lma_subcode.py:168-188 | when every `byteOffset` is the sum of the columns before it, the bytes at entry j's offset decode to entry j's column |
| Pnts.TrimJson | lma_subcode.py:192-195 | the JSON plus seven spaces cut back by `(at + len) % 8` keeps the JSON as a prefix, adds only spaces (fewer than 8) and ends on an 8-byte boundary |
| Pnts.Padding | lma_subcode.py:201-203 | the binary padding is below 8, brings the length to a multiple of 8, and is zero only when the length was already aligned |
| Pnts.ComputeLayout | lma_subcode.py:190-220 | every section after the header starts on an 8-byte boundary and `tile_length` is the sum of the header, both JSON texts, the declared binary lengths and both paddings |
| Pnts.WriteTile | lma_subcode.py:222-239 | the file is as long as the header, the trimmed JSON texts, the binary bytes actually written and the paddings |
| Pnts.ParseTile | lma_subcode.py:223-229 | a tile that a 3D Tiles reader accepts is cut into four sections that, with the header, make up the whole file |
| Pnts.HeaderFields | lma_subcode.py:224-229 | the six uint32 words after the magic read back as version, total length and the four section lengths |
| Pnts.HeaderReads | lma_subcode.py:223-229 | the written header carries the magic, version 1, the file length and the four section lengths |
| Pnts.WriteTileSections | lma_subcode.py:230-239 | the file is the header then feature JSON, feature binary plus spaces, batch JSON, batch binary plus spaces, back to back |
| Pnts.WriteThenParse | lma_subcode.py:222-239 | a tile whose binary bodies have their declared lengths parses back into exactly the sections written |
| Pnts.TotalMatchesIff | lma_subcode.py:199-229 | the header's `byteLength` equals the file length if and only if the bytes written for the two binary bodies add up to the declared lengths |
| TileEncoders.TileFileNameRoundTrip | lma_subcode.py:147 | the tile number and the step read back out of `"{tile}_{step}.pnts"`, so distinct pairs never share a file name |
| TileEncoders.SectionReadsBack | lma_subcode.py:231-239 | a property read at its `byteOffset` out of a padded binary section gives back the column written for it |
| TileEncoders.WellFormedReadsBack | lma_subcode.py:168-239 | a well-formed tile below 4 GiB parses, and every feature and batch property read at its declared `byteOffset` gives back its column |
| TileEncoders.CrsTileWellFormed | src/campaigns/olympex/CRS/crs_utils/tileset.py:117-202 | each CRS level holds `ceil(n / step)` points, and its batch offsets (value 0, time 4L, location 8L) and header lengths match the bytes written |
| TileEncoders.ImpactsTileWellFormed | src/campaigns/impacts/utils/pcloud_subs.py:78-161 | each IMPACTS level holds `ceil(n / step)` points with RGBA at 10L, and it is well formed |
| TileEncoders.LmaTileConsistentIff | lma_subcode.py:166-239 | the LMA header's lengths match the bytes written if and only if `ccode[::step]` and `[::skip]` give the same number of rows (or there is no colour); when they do, the tile is well formed |
| TileEncoders.LmaTileShape | lma_subcode.py:166-239 | the LMA tile has `ceil(n / skip)` points, its batch table is placed, and the binary bodies are its columns |
| TileEncoders.LmaFeatureBytes | lma_subcode.py:199-233 | the LMA feature columns take `4L + 6L + csize·L'` bytes, with L' the number of colour rows |
| TileEncoders.GlmTileWellFormed | src/campaigns/goesr/glm_subcode.py:147-220 | a GLM tile has `ceil(n / skip)` points, a constant RGBA and no colour column, 10L and 6L binary bytes, and it is well formed |
| Manifest.NewTileset | src/campaigns/impacts/utils/pcloud_subs.py:17-28 | a new manifest has an empty root with geometric error 1000000, `REPLACE` refinement, nothing refined, and a region that converts back to the bounding box |
| Manifest.CrsRootRegion | src/campaigns/olympex/CRS/crs_utils/tileset.py:34-43 | the CRS root region exists exactly when there are points, has six entries, bounds every point's longitude, latitude and altitude (all scaled by `to_rad`), and each entry is attained by some point |
| Manifest.ChainPath | src/campaigns/olympex/CRS/crs_utils/tileset.py:93-115 | walking down a chain meets one node per step, level k has error `500·steps[k]` and content `<tile>_<steps[k]>.pnts`, each level but the last has the next as its only child, and only the last has no `children` |
| Manifest.AddChain | src/campaigns/impacts/utils/pcloud_subs.py:56-76 | one tile call appends exactly one root child, adds `<tile>_1.pnts` to `refined`, and changes nothing else |
| Manifest.AddChainPreserves | src/campaigns/impacts/utils/pcloud_subs.py:56-76 | adding a chain keeps `refined` listing the bottom file of each root chain, and the new chain has six levels |
| Manifest.NewTilesetChained | src/campaigns/impacts/utils/pcloud_subs.py:17-28 | a new manifest satisfies the chained invariant |
| Manifest.AddSibling | lma_subcode.py:145-161 | one `MK_cloud_czml` call appends one root child with error `500·step` and its file name, and only a step-1 tile is added to `refined` |
| Manifest.AddSiblingPreserves | lma_subcode.py:155-160 | `refined` keeps listing exactly the step-1 root children, in the order they were added |
| Manifest.NewTilesetSiblings | lma_subcode.py:91-103 | a new manifest satisfies the sibling invariant |
| Manifest.ScheduleTask | src/campaigns/olympex/CRS/crs_utils/tileset.py:72-73 | scheduling appends the task at the end and changes nothing else |
| Manifest.AvailabilityWindow | src/campaigns/olympex/CRS/crs_utils/tileset.py:84-87 | the window exists if and only if the slice is non-empty, its ends are truncations of some point's time ∓ 300 s, and it covers every point's time ± 300 s |
| Manifest.Generate | src/campaigns/olympex/CRS/crs_utils/tileset.py:76-115 | `generate` succeeds if and only if the slice `[start:end]` is non-empty, and then appends the one chain whose availability is the slice's time window and whose region is the slice's region |
| Manifest.SucceedingExact | src/campaigns/olympex/CRS/crs_utils/tileset.py:76-87 | the tasks that get past `np.min` are exactly those with a non-empty slice, and all of them when every slice is non-empty |
| Manifest.RunFrom | src/campaigns/olympex/CRS/crs_utils/tileset.py:53-57 | the workers pop at most every task, stop early only when all ten have ended, and exactly one worker ends per failed popped task |
| Manifest.RunFromAllPopped | src/campaigns/olympex/CRS/crs_utils/tileset.py:21-24 | with fewer than ten failing tasks every task is popped |
| Manifest.RunFromAllSucceed | src/campaigns/olympex/CRS/crs_utils/tileset.py:53-57 | when every task succeeds, the workers produce what generating the tasks one by one produces, popping them all |
| Manifest.GenerateAdds | src/campaigns/olympex/CRS/crs_utils/tileset.py:93-113 | one successful `generate` appends one chain and its step-1 file to `refined` |
| Manifest.GenerateStep | src/campaigns/olympex/CRS/crs_utils/tileset.py:93-113 | one successful `generate` keeps the chained invariant |
| Manifest.ChainsCompose | src/campaigns/olympex/CRS/crs_utils/tileset.py:93-113 | one chain for the first task followed by chains for the rest are the chains for all of them |
| Manifest.RunKeepsChained | src/campaigns/olympex/CRS/crs_utils/tileset.py:53-57 | whatever fails, the workers leave a chained manifest |
| Manifest.RunChains | src/campaigns/olympex/CRS/crs_utils/tileset.py:53-115 | whatever fails, the workers' manifest is the old one followed by one chain per successful popped task, in the order popped, with `refined` extended in that order |
| Manifest.RunWorker | src/campaigns/olympex/CRS/crs_utils/tileset.py:53-57 | popping the last task while tasks and workers are left produces exactly the workers' outcome over the tasks in reverse scheduling order |
| Manifest.GenerateAllChains | src/campaigns/olympex/CRS/crs_utils/tileset.py:76-115 | generating the tasks one by one, when it succeeds, keeps the chained invariant and adds one chain per task in order |
| Manifest.GenerateAllKeepsChained | src/campaigns/olympex/CRS/crs_utils/tileset.py:76-115 | generating the tasks one by one keeps the chained invariant |
| Manifest.GenerateAllAppends | src/campaigns/olympex/CRS/crs_utils/tileset.py:76-115 | generating the tasks one by one appends one chain per task in order, with `refined` extended in that order |
| Manifest.Join | src/campaigns/olympex/CRS/crs_utils/tileset.py:65-69 | `join` always writes `<key>/tileset.json`; the manifest it writes is chained and holds one chain per successful popped task, and when every task succeeds it is the one-by-one result with one chain per task |
| Manifest.AllTasksRun | src/campaigns/olympex/CRS/crs_utils/tileset.py:53-69 | when every task succeeds, the written manifest is the one-by-one result with one chain per task |
| ChunkStore.Pick | src/campaigns/olympex/CRS/crs_to_json.py:95-99 | fancy indexing every column with one index array gives row i = input row `idx[i]` |
| ChunkStore.SortByTime | src/campaigns/olympex/CRS/crs_to_json.py:93-99 | `argsort` applied to all five columns rearranges the rows by one permutation and leaves time non-decreasing |
| ChunkStore.PermutationHits | src/campaigns/olympex/CRS/crs_to_json.py:93-99 | every input row reappears somewhere in the sorted table |
| ChunkStore.Filter | src/campaigns/olympex/CRS/crs_to_json.py:103-107 | masking every column keeps, in order, exactly the rows whose mask entry is true |
| ChunkStore.FilterKeepsOrder | src/campaigns/olympex/CRS/crs_to_json.py:102-107 | masking a time-sorted table leaves it sorted |
| ChunkStore.MaskOf | src/campaigns/olympex/CRS/crs_to_json.py:102 | a row-wise mask has one entry per row, equal to the row predicate |
| ChunkStore.FilterExact | src/campaigns/olympex/CRS/crs_to_json.py:102-107 | every kept row satisfies the predicate and every row that satisfies it is kept |
| ChunkStore.DropsondeKeepComplete | src/campaigns/cpexaw/DROPSONDE/helper/ingestToZarr.py:74 | the corrected dropsonde mask keeps a row if and only if the mask as written keeps it and its latitude is not -999 |
| ChunkStore.DropsondeLatitudeIgnored | src/campaigns/cpexaw/DROPSONDE/helper/ingestToZarr.py:74 | a row whose latitude is -999 passes the mask as written but not the corrected one |
| ChunkStore.ChunkIndex | src/campaigns/olympex/CRS/crs_to_json.py:114-118 | the index has one entry per started chunk, and entry i holds row `i·chunk` and that row's time |
| ChunkStore.ChunkIndexCovers | src/campaigns/olympex/CRS/crs_to_json.py:114-117 | every row lies in exactly the chunk `k / chunk`, between that entry's offset and the next one's |
| ChunkStore.ChunkIndexSorted | src/campaigns/olympex/CRS/crs_to_json.py:114-117 | on a sorted store the index's times are sorted too |
| ChunkStore.WrapI32 | src/campaigns/olympex/CRS/crs_to_json.py:121 | `astype(np.int32)` gives a value in the int32 range congruent to the input modulo 2^32, unchanged when it already fits |
| ChunkStore.Rebase | src/campaigns/olympex/CRS/crs_to_json.py:120-121 | rebasing fails exactly on an empty column; the epoch is the minimum time and every stored time is `time - epoch` wrapped to int32 |
| ChunkStore.RebaseRecovers | src/campaigns/olympex/CRS/crs_to_json.py:120-121 | when the data spans less than 2^31 s, every stored time is non-negative and adding the epoch back gives the absolute time |
| ChunkStore.RebaseSortedEpoch | src/campaigns/olympex/CRS/crs_to_json.py:120 | on a sorted column the epoch is the first time |
| ChunkStore.Prepare | src/campaigns/olympex/CPL/cpl_to_json.py:91 | only the Olympex CPL script scales its values (by 10000); every other column and script is left unchanged |
| ChunkStore.KeepMask | src/campaigns/olympex/CRS/crs_to_json.py:102 | the script's mask holds the script's keep test, as written, for every row: finite and above ground for CRS and CPL, everything for NPOL, and for the dropsonde script altitude and longitude not -999 with latitude never tested |
| ChunkStore.KeptRowsExact | src/campaigns/olympex/CRS/crs_to_json.py:93-107 | the kept rows are exactly the sorted input rows that pass the script's mask, and their times are non-decreasing |
| ChunkStore.IngestStores | src/campaigns/olympex/CRS/crs_to_json.py:93-132 | an ingest fails exactly when no row is kept; otherwise it stores one index entry per 262144 kept rows with that row's absolute time, the earliest time as `epoch`, and every time rebased and wrapped to int32 |
| ChunkStore.StoreRowsSpec | src/campaigns/olympex/CRS/crs_to_json.py:110-132 | the store written for sorted kept rows is the one `StoresKept` describes |
| ChunkStore.PrepareRows | src/campaigns/olympex/CPL/cpl_to_json.py:86-91 | scaling acts row by row, so it commutes with picking rows |
| ChunkStore.IngestSucceedsIff | src/campaigns/olympex/CRS/crs_to_json.py:102-121 | the ingest succeeds if and only if some input row passes the script's mask |
| ChunkStore.HitIff | src/campaigns/olympex/CRS/crs_to_json.py:93-107 | a filter of a permuted table is non-empty exactly when some row of the original passes the filter |
| ChunkQuery.WindowMask | utils/point_cloud.py:51-53 | the mask has one entry per stored row, true exactly when the row's absolute time lies in `[epoch, end]` |
| ChunkQuery.InWindow | utils/point_cloud.py:53-58 | every row of the reference answer is a stored row whose time lies in the window |
| ChunkQuery.ReadWindow | utils/point_cloud.py:44-58 | reading rows `[a, b)` and masking returns only rows between a and b |
| ChunkQuery.BoundsAsWritten | utils/point_cloud.py:36-41 | the lookup as written finds a row range exactly when the index has an entry |
| ChunkQuery.LastAsWritten | utils/point_cloud.py:40 | `num_chunks - argmax(chunk_id[::-1, 1] < end)` lies in `1..num_chunks`, and is past the last chunk whenever the last chunk starts before `end` |
| ChunkQuery.StartSound | utils/point_cloud.py:38-39 | no row before the corrected start lies in the window |
| ChunkQuery.StopSound | utils/point_cloud.py:40-41 | no row from the corrected stop on lies in the window |
| ChunkQuery.ReadWindowExact | utils/point_cloud.py:44-58 | when no row outside `[a, b)` lies in the window, reading `[a, b)` and masking gives exactly the window's rows |
| ChunkQuery.QueryExact | utils/point_cloud.py:36-58 | on an indexed store the corrected lookup returns exactly the stored rows whose absolute time lies in `[epoch, end]`, in store order |
| ChunkQuery.IngestIndexed | src/campaigns/olympex/CRS/crs_to_json.py:110-132 | an ingest whose kept rows span less than 2^31 s leaves a non-empty indexed store |
| ChunkQuery.StoredIndexed | src/campaigns/olympex/CRS/crs_to_json.py:114-122 | the store of sorted kept rows spanning less than 2^31 s is indexed |
| ChunkQuery.QueryAsWrittenDropsLastRow | utils/point_cloud.py:40-41 | when the last chunk starts before `end`, the lookup as written never returns the last stored row, even when its time lies in the window |
| ChunkQuery.LastRowInWindow | utils/point_cloud.py:40-41 | the corrected lookup returns the last row whenever its time lies in the window |
| ChunkQuery.AsWrittenStopsShort | utils/point_cloud.py:40-41 | past the last chunk's first time, every row the lookup as written returns comes before the last row |
| ChunkQuery.TwoRowStoreLosesLastRow | utils/point_cloud.py:40-41 | on an indexed two-row store whose window holds both rows, the lookup as written returns `[0]` and the corrected one `[0, 1]` |
| ChunkQuery.TieStoreLosesBoundaryRows | utils/point_cloud.py:38-41 | with times 5, 5, 6 in three chunks and window `[5, 6]`, the lookup as written returns `[1]` and the corrected one `[0, 1, 2]` |
| ChunkQuery.TileTasks | utils/point_cloud.py:62-65 | there are `ceil(n / 530000)` tasks, and task t is tile t with `start < end <= n` |
| ChunkQuery.TileTasksPartition | utils/point_cloud.py:62-65 | the tiles cut the rows into consecutive non-empty pieces of at most 530000 rows, from row 0 to row n |
| ChunkQuery.TileOfRow | utils/point_cloud.py:62-65 | every row falls in exactly one tile, tile `i / 530000` |
| Windows.Subset | src/campaigns/goesr/lma_pcloud_czml.py:15-20 | `Subset3` returns only rows whose time lies in `[start, end]` |
| Windows.SubsetExact | src/campaigns/goesr/lma_pcloud_czml.py:15-20 | a row is in the subset if and only if its time lies in `[start, end]`, and the rows keep their order |
| Windows.HalfOpenSubsetExact | src/campaigns/impacts/CPL-pcloud.py:60 | a row is in `(Time >= epoch) & (Time < end)` if and only if its time lies in `[epoch, end)` |
| Windows.LmaFirstMark | src/campaigns/goesr/lma_pcloud_czml.py:36 | the LMA start is a 10-minute mark strictly after the first flight time and at most 600 s later |
| Windows.GlmFirstMark | src/campaigns/goesr/glm_pcloud_czml.py:42 | the GLM start lies five minutes past a 10-minute mark and within five minutes of the first flight time |
| Windows.LastMark | src/campaigns/goesr/lma_pcloud_czml.py:37 | the end is the last 10-minute mark at or before the final flight time |
| Windows.MarksUnique | src/campaigns/goesr/lma_pcloud_czml.py:36-37 | no other multiple of 600 lies in the same range as either mark |
| Windows.LmaTileCount | src/campaigns/goesr/lma_pcloud_czml.py:42 | `nTile = int((secf - sec0) / 60) + 1`, and it is 0 when the range is at least a window negative |
| Windows.LmaWindowsCover | src/campaigns/goesr/lma_pcloud_czml.py:84-87 | the windows tile `[sec0, secf]` with no gaps: the first starts at sec0, each ends where the next starts, the last is `[secf, secf]`, and second t lies in window `(t - sec0) / 60` |
| Windows.LmaLogSound | src/campaigns/goesr/lma_pcloud_czml.py:84-102 | every entry of the LMA log is its own window's entry, and that window has at least two points |
| Windows.LmaLogComplete | src/campaigns/goesr/lma_pcloud_czml.py:89-91 | no window with two or more points is missing from the log |
| Windows.LmaLogOrdered | src/campaigns/goesr/lma_pcloud_czml.py:84-102 | the log is in window order and its `tile<k>` keys are distinct |
| Windows.LmaLogTiles | src/campaigns/goesr/lma_pcloud_czml.py:102 | every log entry is keyed `tile<k>` by its window, and windows increase along the log |
| Windows.StationMinimum | src/campaigns/goesr/lma_pcloud_czml.py:57-60 | OKLMA needs 8 stations and every other network 7 |
| Windows.GlmTileCount | src/campaigns/goesr/glm_pcloud_czml.py:44 | `nTile = int((secf - sec0) / 60)`, 0 when the range is negative |
| Windows.SearchRange | src/campaigns/goesr/glm_pcloud_czml.py:69 | `Trng` is a multiple of 20 strictly above the window width and at most 20 more |
| Windows.GlmSearchRange | src/campaigns/goesr/glm_pcloud_czml.py:68-69 | a 60-second window searches 80 seconds of files |
| Windows.GlmLog | src/campaigns/goesr/glm_pcloud_czml.py:64-105 | the GLM log has one entry per window with files; entry j is `tile<j+1>`, holds the j-th such window, and spans it widened by 10 s on both sides |
| Windows.GlmLogExtend | src/campaigns/goesr/glm_pcloud_czml.py:92-105 | appending the next numbered entry keeps the log in the shape `GlmLogOf` describes |
| Windows.DictKey | src/campaigns/goesr/glm_pcloud_czml.py:6-7 | `dictkey` succeeds if and only if some value equals v, and returns the first key in insertion order whose value is v |
| Windows.DrawnSteps | src/campaigns/goesr/glm_pcloud_czml.py:124-130 | steps 16, 4 and 1 are drawn exactly when flash, group and event data are non-empty, in decreasing order, and each step's type has a `usetype` key |
| Windows.UseTypeKeys | src/campaigns/goesr/glm_pcloud_czml.py:6-47 | `dictkey(usetype, typ)` gives 32 for flash, 8 for group and 2 for event |
| Windows.TypeOfStepMatchesTable | src/campaigns/goesr/glm_pcloud_czml.py:47 | the step-to-type function agrees with the `usetype` table on every step |
| Windows.LisTileCount | src/campaigns/goesr/lis_pcloud_czml.py:70-73 | five slices on 2017-05-17 and two on every other day |
| Windows.LisBounds | src/campaigns/goesr/lis_pcloud_czml.py:89-90 | the n + 1 slice boundaries run from the first to the last event time |
| Windows.LisSlicesCover | src/campaigns/goesr/lis_pcloud_czml.py:88-91 | every time between the first and the last event falls in some slice |
| Windows.LisBoundaryShared | src/campaigns/goesr/lis_pcloud_czml.py:89-91 | a time on an inner boundary lies in both slices that meet there |
| Windows.LisAvailability | src/campaigns/goesr/lis_pcloud_czml.py:96-97 | the display interval exists if and only if the slice has events; it runs from the truncated minimum to the truncated maximum + 10 s |
| Windows.LisTileAt | src/campaigns/goesr/lis_pcloud_czml.py:87-101 | a LIS tile can be made if and only if some event lies in its slice |
| Windows.LisRun | src/campaigns/goesr/lis_pcloud_czml.py:39-101 | no files gives no tiles and no events raises; otherwise there is one tile per slice, each the tile of its slice, and the run succeeds if and only if every slice does |
| Windows.TimeAt | src/campaigns/impacts/CPL-pcloud.py:58-59 | `CPL['Time'][i]` succeeds if and only if i is a row label 0..n-1 |
| Windows.CplTileAsWritten | src/campaigns/impacts/CPL-pcloud.py:55-60 | tile k as written succeeds if and only if there are rows and k is 0 or `k·50000 < n` |
| Windows.CplAsWrittenFailsIff | src/campaigns/impacts/CPL-pcloud.py:50-59 | the run as written fails if and only if the row count is a multiple of 50000, zero included |
| Windows.CplAsWrittenSucceedsOnOneRow | src/campaigns/impacts/CPL-pcloud.py:51-59 | a one-row input gives a run that succeeds |
| Windows.CplAsWrittenFailsOnFullTile | src/campaigns/impacts/CPL-pcloud.py:51-59 | a 50000-row input makes the run as written fail |
| Windows.CplAsWrittenDropsFinalTime | src/campaigns/impacts/CPL-pcloud.py:59-60 | with times in order, no tile as written holds a row at the final time |
| Windows.CplBounds | src/campaigns/impacts/CPL-pcloud.py:55-59 | there is one boundary more than there are tiles, and the first is `SecS` |
| Windows.CplTiles | src/campaigns/impacts/CPL-pcloud.py:53-60 | the corrected tiling has `ceil(n / 50000)` tiles, numbered in order |
| Windows.CplTilesMatchScript | src/campaigns/impacts/CPL-pcloud.py:55-60 | on every corrected tile the script's `epoch` and `end` lookups succeed and give the same bounds; every tile but the last is the script's tile |
| Windows.CplScriptStart | src/campaigns/impacts/CPL-pcloud.py:55-58 | the script's `epoch` for tile k is the corrected tile's start |
| Windows.CplScriptEnd | src/campaigns/impacts/CPL-pcloud.py:59-60 | the script's `end` for tile k is the corrected tile's end, and its rows are `[epoch, end)` |
| Windows.CplTilesCover | src/campaigns/impacts/CPL-pcloud.py:53-60 | with times in order, every row at or after `SecS` lands in some corrected tile, rows at the final time included |
| Availability.GroupRuns | src/campaigns/olympex/NEXRAD/helper/conversion_helper.py:9 | `groupby` cuts the pairs into non-empty maximal runs of one key that concatenate back to the input, with neighbouring runs differing in key |
| Availability.FlattenNames | src/campaigns/olympex/NEXRAD/helper/conversion_helper.py:9 | taking the names of each run and concatenating gives the names of the whole listing |
| Availability.SortKeepsKeyed | src/campaigns/olympex/NEXRAD/helper/conversion_helper.py:5-7 | sorting keeps every name having a fourth `_`-field, and keeps every name lacking one |
| Availability.NamedRuns | src/campaigns/olympex/NEXRAD/helper/conversion_helper.py:7-9 | the name groups of a keyed listing concatenate to its names, are non-empty, share one day key each, and neighbouring groups differ in day key |
| Availability.GroupByUniqueDates | src/campaigns/olympex/NEXRAD/helper/conversion_helper.py:3-10 | `group_by_unique_dates` fails if and only if some name has no fourth `_`-field; otherwise its groups concatenate to the sorted names, are non-empty, share one day key, and neighbouring groups differ in day key |
| Availability.KeyPairs | src/campaigns/olympex/NEXRAD/helper/conversion_helper.py:7 | pairing each name with its day key fails exactly when some name has no key, and otherwise keeps the names in order |
| Availability.RunMember | src/campaigns/olympex/NEXRAD/helper/conversion_helper.py:9 | every grouped pair is one of the listing's pairs |
| Availability.HHMM | src/campaigns/olympex/NEXRAD/helper/conversion_helper.py:37 | the clock text of a minute of the day is a valid `HHMM` that denotes that minute |
| Availability.HHMMSS | src/campaigns/olympex/NPOL/helper/conversion_helper.py:25 | the clock text of a second of the day is a valid `HHMMSS` that denotes that second |
| Availability.NexradStampShowsTime | src/campaigns/olympex/NEXRAD/helper/conversion_helper.py:37-41 | the stamp of a four-character time shows that time in its hour and minute fields |
| Availability.NexradStampInjective | src/campaigns/olympex/NEXRAD/helper/conversion_helper.py:37-41 | one date never gives two four-character times the same stamp |
| Availability.NpolStampShowsTime | src/campaigns/olympex/NPOL/helper/conversion_helper.py:25-29 | the stamp of a six-character time shows that time in its hour, minute and second fields |
| Availability.NpolStampInjective | src/campaigns/olympex/NPOL/helper/conversion_helper.py:25-29 | one date never gives two six-character times the same stamp |
| Availability.NexradLastEndAsWritten | src/campaigns/olympex/NEXRAD/helper/conversion_helper.py:34 | the as-written end exists exactly when `int(t)` reads the start (signs, spaces and underscores included), and `int` reads it back as `min(int(t) + 10, 2359)` |
| Availability.NexradLastEndAsWrittenRead | src/campaigns/olympex/NEXRAD/helper/conversion_helper.py:34 | once `int` reads the start as any integer v, the end is `str(min(v + 10, 2359))`: the shortest decimal text, with a leading `-` when negative |
| Availability.NexradLastEndNegativeStart | src/campaigns/olympex/NEXRAD/helper/conversion_helper.py:34 | a signed start is read with its sign: `-20` ends at `-10` |
| Availability.NexradLastEnd | src/campaigns/olympex/NEXRAD/helper/conversion_helper.py:34 | the corrected end is defined exactly for a valid `HHMM` and is ten minutes later on the clock, at most 23:59 |
| Availability.NpolLastEndAsWritten | src/campaigns/olympex/NPOL/helper/conversion_helper.py:22 | the as-written end exists exactly when `int(t)` reads the start, and `int` reads it back as `min(int(t) + 2000, 235900)` |
| Availability.NpolLastEndAsWrittenRead | src/campaigns/olympex/NPOL/helper/conversion_helper.py:22 | once `int` reads the start as any integer v, the end is `str(min(v + 2000, 235900))`: the shortest decimal text, with a leading `-` when negative |
| Availability.NpolLastEnd | src/campaigns/olympex/NPOL/helper/conversion_helper.py:22 | the corrected end is defined exactly for a valid `HHMMSS` and is twenty minutes later on the clock, at most 23:59:00 |
| Availability.Chain | src/campaigns/olympex/NEXRAD/helper/conversion_helper.py:31-36 | each start is paired with the next start, and the last with the computed end |
| Availability.Ranges | src/campaigns/olympex/NEXRAD/helper/conversion_helper.py:27-43 | the shared loop fails exactly when a field it reads is missing or the last time does not convert; otherwise it gives one stamped interval per name, chained, with the last ending at the computed end |
| Availability.StampedChain | src/campaigns/olympex/NEXRAD/helper/conversion_helper.py:37-42 | stamping a chain on one date keeps one interval per start, chained, ending at the stamped end |
| Availability.NexradRangesSpec | src/campaigns/olympex/NEXRAD/helper/conversion_helper.py:28-36 | corrected NEXRAD availability is defined if and only if there are names, the first has a date field, every name has a time field, and the last time is a valid `HHMM` |
| Availability.NexradRangesShape | src/campaigns/olympex/NEXRAD/helper/conversion_helper.py:27-43 | on success the intervals start at each image, chain from image to image on the first image's date, and the last lasts ten minutes on the clock |
| Availability.NpolRangesSpec | src/campaigns/olympex/NPOL/helper/conversion_helper.py:16-24 | corrected NPOL availability is defined if and only if there are paths, the first base name has a date field, every base name has a time field, and the last time is a valid `HHMMSS` |
| Availability.NpolRangesShape | src/campaigns/olympex/NPOL/helper/conversion_helper.py:15-31 | on success the intervals start at each scan, chain from scan to scan, and the last lasts twenty minutes on the clock |
| Availability.NpolLastInterval | src/campaigns/olympex/NPOL/helper/conversion_helper.py:21-29 | the end of the last NPOL interval is a valid clock time twenty minutes after its start, at most 23:59:00 |
| Availability.NexradLastEndDropsZero | src/campaigns/olympex/NEXRAD/helper/conversion_helper.py:34-38 | as written, `0304` ends at `314`, stamped `T31:4:00Z`, which is not a clock time |
| Availability.ClockUnique | src/campaigns/olympex/NEXRAD/helper/conversion_helper.py:37 | a valid `HHMM` is fixed by the minute of the day it denotes |
| Availability.NexradLastEndMinuteOverflow | src/campaigns/olympex/NEXRAD/helper/conversion_helper.py:34 | as written, `1255` ends at `1265` (minute 65), where the corrected end is `1305` |
| Availability.NpolLastEndExample | src/campaigns/olympex/NPOL/helper/conversion_helper.py:13 | the documented example holds as written: 17:01:27 ends at 17:21:27 |
| Availability.NpolLastEndMinuteOverflow | src/campaigns/olympex/NPOL/helper/conversion_helper.py:22 | as written, `164848` ends at `166848` (minute 68), which is not a clock time |
| CzmlWriters.IntervalSplits | src/campaigns/olympex/NEXRAD/nexrad_czml_writer.py:57 | an availability `start/end` whose ends hold no `/` splits back into exactly its two ends |
| CzmlWriters.TaggedInjective | src/campaigns/olympex/NEXRAD/nexrad_czml_writer.py:56 | two packet ids `nexrad-imagery-{id}` (or `npol-3dtile-{id}`) are equal only for equal numbers |
| CzmlWriters.NewNexradWriter | src/campaigns/olympex/NEXRAD/nexrad_czml_writer.py:26-44 | a fresh writer holds the document head alone, and its rectangle template carries the station's corners, height and background colour with the rest of the template untouched |
| CzmlWriters.AddTemporalImagery | src/campaigns/olympex/NEXRAD/nexrad_czml_writer.py:46-59 | adding imagery appends exactly one packet, with the numbered id, the `start/end` availability and the image url, leaving earlier packets and the template unchanged |
| CzmlWriters.AddAllImagery | src/campaigns/olympex/NEXRAD/img_to_czml.py:36-41 | adding a listing one image at a time with running numbers appends one packet per image, in order, each built from its image |
| CzmlWriters.ImageryIdsDistinct | src/campaigns/olympex/NEXRAD/img_to_czml.py:36-41 | a NEXRAD document built from a fresh writer has pairwise distinct packet ids, the head included |
| CzmlWriters.NewNpolWriter | src/campaigns/olympex/NPOL/npol_czml_writer.py:33-35 | a fresh NPOL writer holds the document head alone over the unchanged template |
| CzmlWriters.Add3dTiles | src/campaigns/olympex/NPOL/npol_czml_writer.py:37-50 | adding a tileset appends exactly one packet, with the numbered id, the `start/end` availability and the tileset url, leaving earlier packets unchanged |
| CzmlWriters.AddAllTiles | src/campaigns/olympex/NPOL/npol_to_json.py:173-201 | adding the minute tilesets one at a time with running numbers appends one packet per tileset, in order |
| CzmlWriters.TilesetIdsDistinct | src/campaigns/olympex/NPOL/npol_to_json.py:173-201 | an NPOL document built from a fresh writer has pairwise distinct packet ids, the head included |
| Colors.UnitBand | src/campaigns/impacts/utils/pcloud_subs.py:281-282 | the band found for a value is one below the level count whose interval `(bot+i, bot+i+1]` holds it, and none is reported only when no band holds it |
| Colors.UnitBandsDisjoint | src/campaigns/impacts/utils/pcloud_subs.py:281-282 | no value lies in two unit bands, so the order the loop overwrites in does not matter |
| Colors.LoopBandIsBand | src/campaigns/impacts/utils/pcloud_subs.py:281-282 | the overwrite-in-turn loop over the bands ends with exactly the band the value lies in, or with none |
| Colors.OthersBand | src/campaigns/impacts/utils/pcloud_subs.py:238-260 | velocity, spectrum width and depolarisation pick their unit band on their own scale; any other variable name is a `KeyError`; a value gets a colour exactly when it lies above the scale's bottom and at or below its top |
| Colors.DbzAsWrittenHidesTop | src/campaigns/impacts/utils/pcloud_subs.py:263 | as written, every reflectivity of 50 dBZ or more is moved to 50.0001, above the last band, and so stays invisible |
| Colors.DbzBandExact | src/campaigns/impacts/utils/pcloud_subs.py:262-284 | with the top clamp corrected, a reflectivity gets a colour exactly when it is above -25 dBZ, 50 and up gets the top band, in-range values get their own band, and below 50 the result agrees with the code as written |
| Colors.DbzBandMonotone | src/campaigns/impacts/utils/pcloud_subs.py:262-284 | a higher reflectivity never gets a lower band |
| Colors.AtbLoop | src/campaigns/impacts/utils/pcloud_subs.py:295-298 | the backscatter loop reports a band among the first ones whose `(level_i, level_i+1]` holds the value, and none only when no such band does |
| Colors.AtbShadeTrunc | src/campaigns/impacts/utils/pcloud_subs.py:296-297 | the integer shade is the float `80 + i*(255-80)/6` cut toward zero by the `uint8` store, the green channel is that shade minus 50, and both fit in a byte |
| Colors.AtbVisibleIff | src/campaigns/impacts/utils/pcloud_subs.py:286-299 | a backscatter value is opaque exactly when it is a number in `(0.005, 5]`; otherwise its colour is all zero |
| Colors.AtbMonotone | src/campaigns/impacts/utils/pcloud_subs.py:286-299 | a stronger visible backscatter never gets a darker red channel |
| Colors.LmaBand | lma_subcode.py:125-127 | the altitude code is clamped to 0..10 |
| Colors.LmaBandIff | lma_subcode.py:125-131 | code 0 is below 3 km, code 10 is 12 km and up, and code b in between is the kilometre interval `[b+2, b+3)` |
| Colors.LmaBandMonotone | lma_subcode.py:125-127 | a higher source never gets a lower altitude code |
| Colors.LmaColor | lma_subcode.py:106-131 | one source's colour is three or four channels, its first three the table row of its altitude code, with the fixed opacity 170 when RGBA is asked |
| Colors.ColorEncode | lma_subcode.py:115-132 | `color_encode` gives one row per source, of three or four channels, each the table row of that source's altitude code |
| Calendar.OrdinalInjective | src/campaigns/cpexaw/DROPSONDE/helper/ingestToZarr.py:115-117 | two valid calendar dates with the same day number are the same date |
| Calendar.FromOrdinalOrdinal | src/campaigns/cpexaw/DROPSONDE/helper/ingestToZarr.py:115-117 | turning a date into its day number and back gives the date itself |
| Calendar.FromOrdinal | src/campaigns/cpexaw/DROPSONDE/helper/ingestToZarr.py:115-117 | every day number from 1 to the end of year 9999 belongs to a valid date whose day number it is |
| Calendar.FromInstantInstant | src/campaigns/cpexaw/DROPSONDE/helper/ingestToZarr.py:115-117 | every valid date-time is recovered from its milliseconds since 0001-01-01 |
| Calendar.InstantInjective | src/campaigns/cpexaw/DROPSONDE/helper/ingestToZarr.py:115-117 | two valid date-times at the same instant are equal |
| Calendar.Shift | src/campaigns/cpexaw/DROPSONDE/helper/ingestToZarr.py:115-116 | adding a `timedelta` succeeds exactly when the result stays within years 1..9999 (else `OverflowError`), and the result lies that many milliseconds later |
| Calendar.ShiftZero | src/campaigns/cpexaw/DROPSONDE/helper/ingestToZarr.py:115-116 | adding a zero `timedelta` returns the date-time unchanged |
| Calendar.ShiftCompose | src/campaigns/cpexaw/DROPSONDE/helper/ingestToZarr.py:115-116 | adding two durations in turn equals adding their sum |
| Calendar.ShiftDays | src/campaigns/cpexaw/NAV/nav_reader_writer.py:194-195 | adding whole days keeps the time of day |
| Calendar.IsoFields | src/campaigns/cpexaw/DROPSONDE/helper/ingestToZarr.py:118 | `isoformat(sep='T', timespec='auto')` is `YYYY-MM-DDTHH:MM:SS`, followed by six fractional digits exactly when the milliseconds are non-zero, and each field reads back as its value |
| Calendar.IsoInjective | src/campaigns/cpexaw/DROPSONDE/helper/ingestToZarr.py:118 | different date-times are rendered as different texts |
| Calendar.StringToDateTime | src/campaigns/cpexaw/DROPSONDE/helper/ingestToZarr.py:110-113 | a parsed date-time is valid, whole-second, and prints back through `%Y%m%d` and `%H%M%S` as the two texts it came from; otherwise the result is a `ValueError` |
| Calendar.StringToDateTimeCompact | src/campaigns/cpexaw/DROPSONDE/helper/ingestToZarr.py:110-113 | every whole-second date-time is read back from its compact date and clock texts |
| Calendar.AddDelta | src/campaigns/cpexaw/DROPSONDE/helper/ingestToZarr.py:115-118 | `addDelta` succeeds exactly when the moved instant stays within years 1..9999, and renders the date-time that many milliseconds later |
| Calendar.AddDeltaZero | src/campaigns/cpexaw/DROPSONDE/helper/ingestToZarr.py:115-118 | moving by nothing renders the date-time itself |
| Calendar.AddDeltaInjective | src/campaigns/cpexaw/DROPSONDE/helper/ingestToZarr.py:115-118 | two offsets from one date-time render the same text exactly when they are the same offset |
| Calendar.GetDateTime | src/campaigns/cpexaw/NAV/nav_reader_writer.py:182-196 | the date-time lies `doy - 1` days plus the given milliseconds after midnight on January 1 of the year, and fails with `ValueError` for a year outside 1..9999 and with `OverflowError` for an instant leaving those years |
| Calendar.DayStartInRange | src/campaigns/cpexaw/NAV/nav_reader_writer.py:194-196 | any day of year from 1 with a non-negative time succeeds when the resulting instant is before year 10000 |
| Calendar.GetDateTimeNextDay | src/campaigns/cpexaw/NAV/nav_reader_writer.py:194-196 | a full day of seconds past midnight is the same as the same time on the next day of the year |
| Calendar.GetDateTimeYearEnd | src/campaigns/cpexaw/NAV/nav_reader_writer.py:194-196 | the day after the last day of a year is January 1 of the next year |
| FileNames.FieldOfJoin | src/campaigns/olympex/NEXRAD/helper/conversion_helper.py:7 | field k of a name built by joining `_`-free parts with `_` is part k |
| FileNames.LastFieldOfJoin | src/campaigns/olympex/NPOL/helper/conversion_helper.py:17 | the last `/`-field of a path joined from `/`-free parts is its last part |
| FileNames.IsoDate | src/campaigns/olympex/CRS/crs_to_json.py:43 | a `YYYYMMDD` text gains a `-` after the year and after the month, and dropping those two dashes gives the text back |
| FileNames.PlainDate | src/campaigns/hs3/HIWRAP/hiwrap_utils/tiles_rad_range.py:100 | slicing the date at 4 and 6 and joining the pieces rebuilds the date, whatever its length |
| FileNames.CrsOlympexDate | src/campaigns/olympex/CRS/crs_to_json.py:42 | the date is found exactly when the key has at least three `_`-fields, else `IndexError` |
| FileNames.CrsGoesrDate | src/campaigns/goesr/crs.py:25 | the date is found exactly when the file name has at least four `_`-fields, else `IndexError` |
| FileNames.Hs3CplDate | src/campaigns/hs3/CPL/cpl_to_json.py:26 | the HS3 CPL date holds neither `_` nor `.` |
| FileNames.OlympexCplDate | src/campaigns/olympex/CPL/cpl_to_json.py:45 | the date is found exactly when the key has at least six `_`-fields, and holds no `.` |
| FileNames.HiwrapDate | src/campaigns/hs3/HIWRAP/hiwrap_utils/tiles_rad_range.py:99 | the date is found exactly when the url holds `HS3_HIWRAP_`, and holds no `_` |
| FileNames.CrsDatesFromKeys | src/campaigns/olympex/CRS/crs_to_json.py:42 | a key built from two (OLYMPEX) or three (GOES-R) `_`-free parts followed by the date gives back that date |
| FileNames.Hs3CplDateFromKey | src/campaigns/hs3/CPL/cpl_to_json.py:26 | a key ending in `_<date>.<ext>` gives back the date |
| FileNames.OlympexCplDateFromKey | src/campaigns/olympex/CPL/cpl_to_json.py:148 | a key of five `_`-free parts then `<date>.<ext>` gives back the date |
| FileNames.CplKeySelected | src/campaigns/hs3/CPL/cpl_to_json.py:150 | a key is processed exactly when its third `_`-field is `ATB` and its fourth contains `a`; the fourth is looked at only after the third matched |
| FileNames.Untarr | src/campaigns/olympex/NPOL/npol_to_json.py:126-134 | the extraction folder is the raw directory plus a `.`-free stem; `tar.gz` paths open in gzip mode, other `tar` paths in plain mode, and nothing else is extracted |
| FileNames.NpolDownloadDest | src/campaigns/olympex/NPOL/npol_to_json.py:111-115 | the NPOL destination is found exactly when the key has at least four `/`-fields |
| FileNames.Hs3DownloadDest | src/campaigns/hs3/CPL/cpl_utils/ingest_utils.py:63-66 | the HS3 destination is found exactly when the key has at least four `/`-fields |
| FileNames.DownloadDests | src/campaigns/olympex/NPOL/npol_to_json.py:111-115 | for a four-part key, the NPOL file lands in the fixed raw directory whatever directory is passed, and the HS3 file in the directory passed, both under the key's fourth part |
| FileNames.WithoutOceanScans | src/campaigns/olympex/NPOL/npol_to_json.py:168 | exactly the paths without `rhi_20-40` survive, each as often as it was listed |
| FileNames.NpolScans | src/campaigns/olympex/NPOL/npol_to_json.py:168-170 | the scans are in sorted order and are exactly the listed paths without `rhi_20-40`, with their multiplicities |
| FileNames.NpolDate | src/campaigns/olympex/NPOL/npol_to_json.py:178 | the date is found exactly when the base name has at least three `_`-fields |
| FileNames.NpolTileFolder | src/campaigns/olympex/NPOL/npol_to_json.py:180 | the tile folder holds neither `.` nor `/` |
| FileNames.HeaderLines | src/campaigns/impacts/Flight-Track.py:114-121 | the header index is the first line holding the column header, or the last line when none does; an empty file leaves it unbound |
| FileNames.OutputFile | src/campaigns/impacts/Flight-Track.py:148-156 | a key is produced exactly for P3B and ER2; it is the date's `p3/` or `er2/` folder followed by `FCX_<name>.czml` for general ER2 tracks, and by the bare name for P3B tracks and the 2020-02-25 ER2 tracks |
| FileNames.OutputFileInjective | src/campaigns/impacts/Flight-Track.py:148-156 | for one date and plane, two track names with the same output key are the same name, so no track overwrites another |
| FlightWriter.SliceEntry | src/campaigns/goesr/flight_track.py:60 | entry j of `a[start::k]` lies inside the array exactly when j is below the slice's count |
| FlightWriter.AssignStride | src/campaigns/goesr/flight_track.py:60 | extended-slice assignment succeeds exactly when the values fill every slot, and otherwise is a `ValueError` |
| FlightWriter.AssignedAt | src/campaigns/goesr/flight_track.py:60 | after the assignment, value j sits at index `start + j*k` |
| FlightWriter.AssignedElsewhere | src/campaigns/goesr/flight_track.py:60 | every index outside the slice keeps its value |
| FlightWriter.AssignStrideRead | src/campaigns/goesr/flight_track.py:60 | reading the slice back gives exactly the assigned values |
| FlightWriter.NewWriter | src/campaigns/goesr/flight_track.py:47-53 | a fresh writer holds `4·length` zero position entries and `2·length` entries per angle, over the script's template |
| FlightWriter.ImpactsWriter | src/campaigns/impacts/Flight-Track.py:69-79 | the IMPACTS writer exists exactly for P3B and ER2 (else `KeyError`), with that plane's model, the plane as its name, its track colour and zeroed arrays |
| FlightWriter.SlotCounts | src/campaigns/goesr/flight_track.py:60-66 | each of the four residue classes of a `4n` array, and each half of a `2n` array, has n entries |
| FlightWriter.SetTime | src/campaigns/goesr/flight_track.py:55-66 | `set_time` succeeds exactly when the window has two ends and there is one step per sample; it sets the availability `epoch/end` and the epoch and keeps the name, model and colour |
| FlightWriter.SetPosition | src/campaigns/goesr/flight_track.py:68-71 | `set_position` succeeds exactly when each column has one entry per sample, and changes only the position array |
| FlightWriter.SetOrientation | src/campaigns/goesr/flight_track.py:73-76 | `set_orientation` succeeds exactly when each angle has one entry per sample, and changes only the three angle arrays |
| FlightWriter.Fill | src/campaigns/impacts/Flight-Track.py:181-184 | the three setters in the drivers' order succeed exactly when the samples have one entry per slot |
| FlightWriter.FillLayout | src/campaigns/goesr/flight_track.py:55-76 | after the three setters, position entries `4i..4i+3` are `[t, lon, lat, alt]` of sample i and angle entries `2i, 2i+1` are `[t, angle]` |
| FlightWriter.FillDegrees | src/campaigns/goesr/flight_track.py:60-71 | each position entry holds the time or coordinate its residue mod 4 selects |
| FlightWriter.FillAngles | src/campaigns/goesr/flight_track.py:64-76 | each angle entry holds the time (even index) or the angle (odd index) of its sample |
| FlightWriter.PositionOrientationCommute | src/campaigns/goesr/flight_track.py:68-76 | the position and orientation setters touch different arrays, so either order gives the same writer |
| FlightWriter.SetPositionKeepsTimes | src/campaigns/goesr/flight_track.py:68-71 | setting the position leaves every time slot as it was |
| FlightWriter.SetOrientationKeepsTimes | src/campaigns/goesr/flight_track.py:73-76 | setting the orientation leaves every time slot as it was |
| FlightReader.KeptNavExact | src/campaigns/goesr/flight_track.py:126-138 | the kept rows are complete, every complete first occurrence is kept, each kept row is a first occurrence, and no two kept rows share a time |
| FlightReader.KeptNavNonEmpty | src/campaigns/goesr/flight_track.py:126-141 | something is kept exactly when some row is a complete first occurrence |
| FlightReader.Finish | src/campaigns/goesr/flight_track.py:140-151 | the read succeeds exactly when some row is kept (else `IndexError` on `time[[0, -1]]`); the window is the first and last kept times with `Z`, and there are ceil(kept/5) samples |
| FlightReader.FinishLayout | src/campaigns/goesr/flight_track.py:144-150 | sample j is kept row 5j, its time counted from the first kept row and its six values unchanged |
| FlightReader.FinishSamplesDistinct | src/campaigns/goesr/flight_track.py:133-144 | no two output samples have the same time step |
| FlightReader.FinishFills | src/campaigns/goesr/flight_track.py:140-151 | a successful read fills a fresh writer of its own length |
| FlightReader.Hs3Cols | src/campaigns/hs3/NAV/nav_reader_writer.py:101-120 | the HS3 columns are found exactly when all seven names are in the index map (else `KeyError`), each of the seven fields at the index the map gives for its name |
| FlightReader.ParseLine | src/campaigns/goesr/flight_track.py:104-124 | a line parses exactly when it reaches every column and its time parses; values go through `string_to_float` and the angles into radians, heading turned a quarter circle |
| FlightReader.UnparsableDropped | src/campaigns/goesr/flight_track.py:153-159 | a value column that is not a number becomes NaN and the mask drops that row |
| FlightReader.ReadNav | src/campaigns/goesr/flight_track.py:116-151 | a successful read is the shared tail applied to one parsed record per line, and a line that fails to parse fails the read |
| FlightReader.RowTime | src/campaigns/cpexaw/NAV/nav_reader_writer.py:134 | a record's date-time, when it exists, is valid; it fails with `ValueError` for a year outside 1..9999 and otherwise with `OverflowError` |
| FlightReader.IctTimes | src/campaigns/cpexaw/NAV/nav_reader_writer.py:134 | the date-times exist exactly when every record's does, one per record |
| FlightReader.IctNavRows | src/campaigns/cpexaw/NAV/nav_reader_writer.py:115-134 | the records convert exactly when every date-time exists, one navigation record per row |
| FlightReader.ReadIct | src/campaigns/cpexaw/NAV/nav_reader_writer.py:115-161 | the CPEX-AW read fails, with the error of `get_iso_datetime`, when a date-time does, and otherwise is the shared tail on the converted records |
| FlightReader.WholeInstant | src/campaigns/cpexaw/NAV/nav_reader_writer.py:182-196 | a date-time a whole number of seconds after year 1 has no milliseconds |
| FlightReader.WholeSeconds | src/campaigns/cpexaw/NAV/nav_reader_writer.py:182-196 | `get_iso_datetime` with whole seconds gives whole-second date-times |
| FlightReader.ImpactsCols | src/campaigns/impacts/Flight-Track.py:113-114 | P3B and ER2 have eight strictly increasing columns starting 0..4; any other plane leaves `cols` unbound |
| FlightReader.OpenImpacts | src/campaigns/impacts/Flight-Track.py:112-124 | opening succeeds exactly for a non-empty file and a known plane, with the header index inside the file and eight columns |
| FlightReader.CampaignDay | src/campaigns/impacts/Flight-Track.py:138 | `strptime('2020' + zfill(jday), '%Y%j')` succeeds exactly for days 1..366, at midnight of that day of 2020 |
| FlightReader.CampaignDayDate | src/campaigns/impacts/Flight-Track.py:138 | the campaign day is in 2020, its month and day add up to the day of year, and it is midnight |
| FlightReader.MetTime | src/campaigns/impacts/Flight-Track.py:139 | a record's date-time exists exactly when its seconds after the campaign day stay in range, and lies that many seconds later |
| FlightReader.MetTimes | src/campaigns/impacts/Flight-Track.py:139 | the date-times exist exactly when every record's does, one per record in order |
| FlightReader.UnwrapRange | src/campaigns/impacts/Flight-Track.py:132 | a compass heading in [0, 360) becomes the same direction in (-180, 180] |
| FlightReader.ImpactsTimes | src/campaigns/impacts/Flight-Track.py:138-139 | the date-times exist exactly when the first record's day is 1..366 and no shift overflows, one per record |
| FlightReader.MetSamples | src/campaigns/impacts/Flight-Track.py:143-144 | sample j holds the j-th record on the step, with its seconds after the first record and its converted navigation |
| FlightReader.ImpactsRead | src/campaigns/impacts/Flight-Track.py:125-146 | an empty table fails; otherwise the read succeeds exactly when the date-times exist; the window is the first and last records' stamps before sampling, and the samples are the records on the step |
| FlightReader.MetNavValues | src/campaigns/impacts/Flight-Track.py:128-135 | heading unwrapped to (-180, 180] and turned a quarter circle, pitch raised a quarter circle on the P3B only, all in radians; NaN stays NaN |
| FlightReader.ImpactsSamplesExact | src/campaigns/impacts/Flight-Track.py:143-144 | every record on the step is sampled, and later samples come from later records |
| FlightReader.StepMaskNoSkip | src/campaigns/impacts/Flight-Track.py:143 | with `nskip = 0` every record is on the step |
| FlightReader.ImpactsNoSkip | src/campaigns/impacts/Flight-Track.py:143-146 | with `nskip = 0` every record is sampled |
| FlightReader.ImpactsWindowIgnoresStep | src/campaigns/impacts/Flight-Track.py:140-143 | the sampling step changes neither whether the read succeeds nor its window |
| FlightReader.ImpactsFills | src/campaigns/impacts/Flight-Track.py:177-184 | a successful read fills the writer the driver builds for the same plane |
| FloatText.StringToFloatInt | src/campaigns/goesr/flight_track.py:153-159 | the text of a whole number, signed or not, reads back as that number |
| FloatText.StringToFloatFixed | src/campaigns/goesr/flight_track.py:153-159 | a number written `whole.frac` reads back as the whole part plus the fraction's digits over ten to their count |
| FloatText.StringToFloatSpaces | src/campaigns/goesr/flight_track.py:153-159 | whitespace around the text does not change the value read |
| FloatText.NoDigitsNoNumber | src/campaigns/goesr/flight_track.py:153-159 | text holding no digit is a number only when it is one of the special words, which read as NaN or an infinity |
| FloatText.StrippedDigit | src/campaigns/goesr/flight_track.py:153-159 | text whose stripped form reads as a finite number has a digit in it |
| FloatText.PlainText | src/campaigns/goesr/flight_track.py:153-159 | unsigned text without spaces, exponent or special word is read as its mantissa, and is no number when the mantissa is malformed |
| FloatText.NegativeText | src/campaigns/goesr/flight_track.py:153-159 | `-digits` is read as the digits negated |
| Geo.RadMono | src/campaigns/impacts/utils/pcloud_subs.py:7-11 | converting degrees to radians keeps their order |
| Geo.MinOf | lma_subcode.py:64 | `np.min` exists exactly for a non-empty array, is one of its entries and is below every entry |
| Geo.MaxOf | lma_subcode.py:71 | `np.max` exists exactly for a non-empty array, is one of its entries and is above every entry |
| Geo.Trunc | lma_subcode.py:23-25 | `astype(int)` cuts toward zero: within one below a non-negative value and within one above a negative value |
| Geo.WrapI16 | lma_subcode.py:23-25 | `astype(np.int16)` gives a signed 16-bit value congruent to the input modulo 2^16, and leaves in-range values unchanged |
| Geo.CartographicRecovers | lma_subcode.py:22-25 | for coordinates on the globe and altitudes under 327 km no component wraps, and scaling the stored integers back recovers each coordinate to within one quantum, toward zero |
| Geo.QuantizeValue | lma_subcode.py:74-76 | a shifted coordinate within the scale becomes a 16-bit code whose interval `[q, q+1)·scale/65535` holds it, the far end mapping to 65535 |
| Geo.QuantizeAxis | lma_subcode.py:64-76 | an axis quantises exactly when it is non-empty; the offset and offset plus scale are its extremes, so every coordinate lies between them and is coded from its distance to the offset |
| Geo.DequantizeBound | lma_subcode.py:64-76 | decoding a code with the axis offset and scale gives the coordinate back to within one step below |
| Geo.QuantizeMonotone | lma_subcode.py:74-76 | the quantiser keeps the order of coordinates on an axis |
| Geo.Quantize | lma_subcode.py:60-76 | the cartesian codes exist exactly for a non-empty tile, one 16-bit triple per point; the offset and scale are each axis's, and each point's triple is its three axis codes |
| Geo.QuantizeDecodes | lma_subcode.py:60-76 | decoding a point's triple with the tile's offset and scale gives each coordinate back to within one step below, on every axis with a non-zero extent |
| Geo.AxisDecodes | lma_subcode.py:64-76 | on one axis, a coordinate's code decodes to within one step below it |
| Geo.DecodeCode | lma_subcode.py:74-76 | a code computed from a coordinate between the offset and offset plus scale decodes to within one step below it |
| Geo.RegionRadInverse | src/campaigns/impacts/utils/pcloud_subs.py:10-11 | converting the region to radians and back restores it exactly |
| Geo.Region | lma_subcode.py:78-85 | the region exists exactly for a non-empty tile, has six entries, bounds every point's longitude and latitude (in radians) and altitude, and each entry is attained by some point |
| ImpactsUtils.ResetNan | src/campaigns/impacts/utils/Utils.py:47-52 | every array keeps its shape and every entry that is not NaN keeps its value |
| ImpactsUtils.ResetNanClears | src/campaigns/impacts/utils/Utils.py:47-52 | afterwards no entry is NaN, each former NaN holds the reset value, and infinities stay |
| ImpactsUtils.ResetNanIdempotent | src/campaigns/impacts/utils/Utils.py:47-52 | resetting twice is the same as resetting once |
| ImpactsUtils.SyncDim | src/campaigns/impacts/utils/Utils.py:146-150 | the result is the prefix of the array as long as the shorter of the two |
| ImpactsUtils.SyncDimKeeps | src/campaigns/impacts/utils/Utils.py:146-150 | an array is left unchanged exactly when it is no longer than the reference |
| ImpactsUtils.SyncDimIdempotent | src/campaigns/impacts/utils/Utils.py:146-150 | syncing an already-synced array changes nothing |
| ImpactsUtils.FitsIff | src/campaigns/impacts/utils/Utils.py:105-112 | a repeated or tiled column fits the frame exactly when there are no gates or it has one entry per beam |
| ImpactsUtils.Er2Radar | src/campaigns/impacts/utils/Utils.py:65-120 | the radar frame exists exactly when the navigation columns fit the frame, with one row per (beam, gate) |
| ImpactsUtils.Er2RadarLayout | src/campaigns/impacts/utils/Utils.py:104-114 | row `i·nrow + j` is beam i at gate j: the beam's time and the projected gate |
| ImpactsUtils.Column | src/campaigns/impacts/utils/Utils.py:132 | a variable column exists exactly when the band holds the name with one value per row; otherwise `KeyError` or a length `ValueError` |
| ImpactsUtils.RadBand | src/campaigns/impacts/utils/Utils.py:136-139 | the cleaned band has no more rows than the frame, and every row is in the 0..18000 m window with one value per variable |
| ImpactsUtils.RadBandExact | src/campaigns/impacts/utils/Utils.py:136-139 | the band is the subsequence of rows with some variable present inside the altitude window: one row per survivor, in file order and renumbered from zero, a row kept exactly when it passes both tests, and no NaN remains |
| ImpactsUtils.BandColumns | src/campaigns/impacts/utils/Utils.py:131-132 | a band's columns exist exactly when the band and every variable are present with the frame's length |
| ImpactsUtils.RadDf | src/campaigns/impacts/utils/Utils.py:122-144 | `RADdf` succeeds exactly when every band's columns exist, and maps each requested band to its cleaned frame |
| ImpactsUtils.SecondsOfDay | src/campaigns/impacts/utils/Utils.py:162-163 | the seconds of day run as long as the shortest clock field, each `h·3600 + m·60 + s` |
| ImpactsUtils.SecondsOfDayBounds | src/campaigns/impacts/utils/Utils.py:162-163 | valid clock fields give seconds in [0, 86400) |
| ImpactsUtils.SyncNav | src/campaigns/impacts/utils/Utils.py:168-171 | the navigation keeps the time axis and no column is longer than it |
| ImpactsUtils.CplFilter | src/campaigns/impacts/utils/Utils.py:191-198 | every surviving point has backscatter at least 0.001 and a positive projected altitude |
| ImpactsUtils.CplFilterExact | src/campaigns/impacts/utils/Utils.py:191-198 | the filtered frame is the subsequence of projected rows at the floor or above with positive projected altitude: one point per surviving row, in frame order and renumbered, a row kept exactly when it passes both filters |
| ImpactsUtils.ProjectSelect | src/campaigns/impacts/utils/Utils.py:193-194 | projecting the gates of the rows the floor keeps gives the same points as keeping the same rows of the projected frame |
| ImpactsUtils.CplFilterInOrder | src/campaigns/impacts/utils/Utils.py:191-198 | the floor filter followed by the altitude filter on the projected survivors equals one pass of both tests over the projected frame |
| ImpactsUtils.Er2Cpl | src/campaigns/impacts/utils/Utils.py:152-202 | `ER2CPL` fails with `IndexOutOfRange` when there are no clock readings (`IndexError` on `Sec1D[0]`), and otherwise with `LengthMismatch` when a column does not fit the `ncol` × `nrow` frame after `syncDim` (the `ValueError` of assigning a column of the wrong length); it succeeds exactly when neither happens, and then all points pass both filters |
| ImpactsUtils.Er2CplExact | src/campaigns/impacts/utils/Utils.py:152-202 | the lidar frame is the subsequence of cells whose finite backscatter reaches the floor and whose projected gate is above ground, in cell order (beam by beam, bin by bin) and renumbered, a cell kept exactly when it passes both filters, on the unwrapped time axis |
| ImpactsUtils.CplFrameInOrder | src/campaigns/impacts/utils/Utils.py:178-198 | over the tiled and repeated frame, the filtered points are the projections of the kept cells in cell order, a cell kept exactly when it passes both filters |
| ImpactsUtils.Er2CplOk | src/campaigns/impacts/utils/Utils.py:152-202 | a successful `ER2CPL` returns the filtered tiled frame over the navigation synchronised to the unwrapped clock, together with those unwrapped seconds |
| ImpactsUtils.CplFrameMembers | src/campaigns/impacts/utils/Utils.py:178-198 | every point of the filtered frame is the projection of a cell that passes both filters, and every such cell's projection is there with its backscatter taken from the file |
| ImpactsUtils.CplLayout | src/campaigns/impacts/utils/Utils.py:178-188 | cell `i·nrow + j` carries bin j's level in metres and beam i's time and position |
| ImpactsUtils.CplFrameTiled | src/campaigns/impacts/utils/Utils.py:178-188 | frame row k holds the k-th cleaned backscatter cell, entry k of the bin levels tiled `ncol` times, and entry k of each beam column repeated `nrow` times |
| ImpactsUtils.Er2CplSecondsWithinDay | src/campaigns/impacts/utils/Utils.py:162-165 | for clock readings of one day, every unwrapped second lands within one day after the first reading |
| Hiwrap.Cleaning | src/campaigns/hs3/HIWRAP/hiwrap_utils/tiles_rad_range.py:10-14 | the selection succeeds exactly when all nine variables are present (else `KeyError`), and holds exactly those nine with their data |
| Hiwrap.CleaningIdempotent | src/campaigns/hs3/HIWRAP/hiwrap_utils/tiles_rad_range.py:10-14 | cleaning a cleaned granule gives it back unchanged |
| Hiwrap.Curtain | src/campaigns/hs3/HIWRAP/hiwrap_utils/tiles_rad_range.py:33-56 | the curtain has one row per (beam, gate), row k built from beam `k / nrow` and gate `k % nrow` |
| Hiwrap.CurtainLayout | src/campaigns/hs3/HIWRAP/hiwrap_utils/tiles_rad_range.py:28-56 | gate j of beam i is row `i·nrow + j`, with the beam's time cut to whole seconds after 2013-09-22 |
| Hiwrap.StrideColumns | src/campaigns/hs3/HIWRAP/hiwrap_utils/tiles_rad_range.py:77-83 | `col[::k]` has ceil(n/k) rows, row j being row `j·k` of the input |
| Hiwrap.Transformation | src/campaigns/hs3/HIWRAP/hiwrap_utils/tiles_rad_range.py:16-84 | the frame is every 20th row of the sorted, masked curtain |
| Hiwrap.KeptCurtainExact | src/campaigns/hs3/HIWRAP/hiwrap_utils/tiles_rad_range.py:58-74 | after sorting and masking, the rows are in non-decreasing time, each is a curtain row with finite reflectivity above ground, and every such curtain row is kept |
| Hiwrap.StrideSorted | src/campaigns/hs3/HIWRAP/hiwrap_utils/tiles_rad_range.py:76-83 | sampling a time-ordered table keeps it time-ordered |
| Hiwrap.TransformationRows | src/campaigns/hs3/HIWRAP/hiwrap_utils/tiles_rad_range.py:16-84 | the output frame is time-ordered and every row is a curtain row with finite reflectivity above ground |
| IngestUtils.Unwrap | utils/ingest_utils.py:38-42 | `add24hr` fails on an empty array; otherwise it keeps the length and the first entry, adds the period to exactly the entries below the first, and leaves the rest unchanged |
| IngestUtils.UnwrapWithinPeriod | src/campaigns/hs3/CPL/cpl_utils/ingest_utils.py:41-45 | for readings within one period, every unwrapped sample lies in the period starting at the first sample and differs from its reading by zero or one period |
| IngestUtils.UnwrapIdempotent | utils/ingest_utils.py:38-42 | when nothing lies more than a period below the first sample, unwrapping twice equals unwrapping once |
| IngestUtils.UnwrapNoCrossing | utils/ingest_utils.py:38-42 | the array is left alone exactly when no entry lies below the first |
| IngestUtils.LastWith | utils/ingest_utils.py:276-284 | the index found is the last line holding the pattern, and none is found only when no line holds it |
| IngestUtils.Matches | utils/ingest_utils.py:276-279 | the names collected are exactly the listed names that hold the pattern |
| IngestUtils.MatchPatt | utils/ingest_utils.py:268-284 | with `nfile == 1`: the first name holding the pattern and the listing from it on, or `[]` and the whole listing; otherwise every match in order and the listing from the last match on; the listing returned is always a suffix |
| IngestUtils.GlmFiles | utils/ingest_utils.py:287-305 | at most one name per time stamp, and the search list left over is always a suffix of the original list |
| IngestUtils.GlmFilesShape | utils/ingest_utils.py:297-305 | the list left over is the whole list when nothing was found, and otherwise starts at the last name collected, because each search resumes at its match |
| IngestUtils.GlmFilesInOrder | utils/ingest_utils.py:297-302 | the names collected appear in the listing in the order collected |
| IngestUtils.GlmFilesStamped | utils/ingest_utils.py:297-302 | every name collected holds one of the searched time stamps |
| IngestUtils.LmaHeader | utils/ingest_utils.py:138-162 | `get_LMAheader` is -1 exactly when no line holds the label, and otherwise the 1-based number of the first line that does |
| IngestUtils.Stations | utils/ingest_utils.py:191-192 | a mask's count exists exactly when `int(a, 16)` reads it as a number of at least zero (a negative one leaves the `b` of `-0b` in the cut, and `int('b')` raises); the count is that number's set bits |
| IngestUtils.DigitSum | utils/ingest_utils.py:192 | the digit sum exists exactly when every character is a decimal digit, and is at most nine per character |
| IngestUtils.DigitSumRejects | utils/ingest_utils.py:191-192 | a text starting with a non-digit, like the `b…` cut of a negative number, has no digit sum |
| IngestUtils.BinaryOnes | utils/ingest_utils.py:191-192 | the digit sum of `bin(n)[2:]` is the number of set bits of n |
| IngestUtils.BitsConcat | utils/ingest_utils.py:191-192 | the set bits of a number with a low part appended are those of the high part plus those of the low part |
| IngestUtils.StationsPerDigit | utils/ingest_utils.py:191-192 | for plain hexadecimal digits the station count is the sum of set bits digit by digit, at most four stations per digit |
| IngestUtils.StationsPrefixed | utils/ingest_utils.py:191-192 | a `0x` prefix before the digits leaves the count unchanged |
| IngestUtils.StationsNegative | utils/ingest_utils.py:191-192 | a minus sign before the digits makes the count raise unless the digits are all zero |
| IngestUtils.StationCounts | utils/ingest_utils.py:191-192 | the counts exist exactly when `int(a, 16)` reads every mask as a number of at least zero, one per record, each the set-bit count of that number |
| IngestUtils.GetLma | utils/ingest_utils.py:165-199 | `get_LMA` fails exactly when some mask cannot be counted; otherwise its result is the subsequence of records with chi² < 1 and at least `stns_min` stations, one point per survivor in file order and renumbered, each without the chi² and mask and with its station count |
| IngestUtils.GetLmaHex | utils/ingest_utils.py:191-196 | with plain hexadecimal masks `get_LMA` succeeds, and each count is the digit-by-digit sum of set bits |
| IngestUtils.LmaFiles | utils/ingest_utils.py:115-135 | `LMAfiles` lists each `.dat` name holding one of the stamps exactly once and nothing else, and nothing for an empty listing |
| IntText.ParseIntPlain | utils/ingest_utils.py:191 | `int` reads a plain string of digits of the base as its value |
| IntText.ParseIntDecimal | src/campaigns/olympex/NEXRAD/helper/conversion_helper.py:34 | `int` reads a plain decimal digit string as its decimal value |
| IntText.PlainDigits | utils/ingest_utils.py:191 | plain digits are already stripped, unsigned, unprefixed and grouped, and their grouped value is their plain value |
| IntText.ParseIntSpaces | utils/ingest_utils.py:191 | surrounding whitespace does not change what `int` reads |
| IntText.ParseIntSigned | utils/ingest_utils.py:191 | `-digits` reads as the negated value and `+digits` as the value |
| IntText.ParseIntHexPrefix | utils/ingest_utils.py:191 | in base 16, `0x` and `0X` before the digits are skipped |
| IntText.ParseIntUnderscore | utils/ingest_utils.py:191 | one underscore between two runs of digits is skipped |
| IntText.UnderscoreGrouped | utils/ingest_utils.py:191 | digits, one underscore and digits are grouped text whose value skips the underscore |
| IntText.ParseIntRejectsBlank | src/campaigns/olympex/NEXRAD/helper/conversion_helper.py:34 | empty or blank text raises |
| IntText.ParseIntRejectsOuterUnderscore | src/campaigns/olympex/NEXRAD/helper/conversion_helper.py:34 | a leading or trailing underscore raises |
| IntText.ParseIntRejectsDoubleUnderscore | src/campaigns/olympex/NEXRAD/helper/conversion_helper.py:34 | two underscores in a row raise |
| IntText.ParseIntRejectsInnerSpace | src/campaigns/olympex/NEXRAD/helper/conversion_helper.py:34 | a space between digits raises |
| IntText.ParseIntRejectsSpacedSign | src/campaigns/olympex/NEXRAD/helper/conversion_helper.py:34 | a space between the sign and the digits raises |
| IntText.ParseIntRejectsBarePrefix | utils/ingest_utils.py:191 | a bare `0x` raises in base 16 |
| IntText.ParseIntRejectsPrefixInBase10 | src/campaigns/olympex/NEXRAD/helper/conversion_helper.py:34 | base 10 has no `0x` prefix |
| IntText.ParseIntOneChar | utils/ingest_utils.py:192 | `int` of one character is that digit's value, and raises for any other character |
| IntText.ParseIntToString | src/campaigns/olympex/NEXRAD/helper/conversion_helper.py:34 | `int(str(i)) == i` for every integer |
| IntText.PlainDecimal | src/campaigns/olympex/NEXRAD/helper/conversion_helper.py:34 | in base 10 the plain value of a digit string is its decimal value |
| Bytes.U32RoundTrip | lma_subcode.py:224-229 | a value below 2^32 written as four little-endian bytes by `np.uint32(...).tobytes()` reads back unchanged |
| Bytes.I16RoundTrip | lma_subcode.py:237 | a signed 16-bit value written as two little-endian bytes reads back unchanged |
| Pnts.ParseTileOk | lma_subcode.py:223-239 | bytes carrying the magic, version 1, their own length and four section lengths that add up to the rest are accepted and cut at exactly those lengths |
| ChunkStore.KeptRowsSorted | src/campaigns/olympex/CRS/crs_to_json.py:93-107 | the rows kept for the store are in non-decreasing time |
| ChunkStore.KeptNonEmptyIff | src/campaigns/olympex/CRS/crs_to_json.py:93-107 | something is kept exactly when some prepared input row passes the script's mask |
| Windows.CplScriptTile | src/campaigns/impacts/CPL-pcloud.py:55-60 | where the script's lookups succeed, its tile k has start `SecS` for k = 0 or `time[k·50000]`, ends at the time of row `min((k+1)·50000, n-1)`, and holds the rows in between, end excluded |
| Windows.CplTileHolds | src/campaigns/impacts/CPL-pcloud.py:53-60 | a row whose time lies between tile k's bounds, the end excluded except on the last tile, is in tile k |
| Windows.TileKeyInjective | src/campaigns/goesr/lma_pcloud_czml.py:102 | different tile numbers give different `tile<k>` log keys |
| Lightning.Append | src/campaigns/goesr/glm_subcode.py:27-31 | `np.append` keeps every earlier point and altitude in place and puts the j-th kept event and the j-th altitude right after them |
| Lightning.Ltndata | src/campaigns/goesr/glm_subcode.py:19-31 | the five arrays stay of one length, grow by exactly the number of events strictly inside the box, and keep every earlier point and altitude |
| Lightning.NewPointAt | src/campaigns/goesr/glm_subcode.py:25-31 | the j-th new point is the j-th event of the granule inside the box, with altitude `draws(j) × altu` |
| Lightning.LtndataPoints | src/campaigns/goesr/glm_subcode.py:25-30 | the points after a call are the points before it followed by the granule's in-box events, in their order |
| Lightning.LtndataExact | src/campaigns/goesr/glm_subcode.py:25 | an event is among the new points if and only if it is in the granule and strictly inside the box |
| Lightning.LtndataInOrder | src/campaigns/goesr/glm_subcode.py:25-30 | a later new point always comes from a later event of the granule |
| Lightning.LtndataKeepsInBox | src/campaigns/goesr/glm_subcode.py:19-31 | if every accumulated point lies inside the box, it still does after another granule is added with the same box |

## Left out

- Map projection: the WGS84 ellipsoid and trigonometry in `cartographic_to_cartesian`, `down_vector` and `proj_LatLonAlt` are floating-point trig. The projection is a parameter (`project`), or the model starts from already projected coordinates.
- Floating-point rounding: float32 and float64 values are exact reals, and `np.pi` is the exact rational value of its double. Results that differ only by rounding are not told apart.
- Colour ramps: the matplotlib colormaps (`cm.get_cmap`) are left out. The model stops at the band index each value falls in.
- Threads: `tileset.py` runs ten workers that pop tasks from the end of a shared list until it is empty, and a worker ends for good on its first failing task. The model pops the tasks one at a time in that order and ends one worker per failure. The interleaving of the threads, the lock, and the race between `len` and `pop` are left out.
- I/O: S3, boto3, s3fs, zarr, xarray, h5py and netCDF access, and all file reads and writes. File contents are byte or character sequences, listings are sequences of names, and datasets are maps from variable names.
- Library serialisers: `json.dumps` is a parameter that yields some byte string. The ISO date formatter and the text numpy prints for a `datetime64[s]` are opaque parameters.
- Text-to-time parsing: `np.loadtxt` and `pandas.read_csv` tokenising is left out. Navigation lines arrive already split into fields.
- Random altitudes in `lightning.Ltndata`: they are a parameter `draws`.
- Constant data: the sample packet templates of the NEXRAD and NPOL helpers are constants, not a model of `sample_data.py`.
- Date-times: they are kept to the millisecond. Microseconds below that, and `strptime` leniency about field widths, are not modelled.
- Orchestration scripts with no logic of their own (the `nav_to_czml.py` drivers, `img_to_czml.py`'s main, `hiwrap_to_json.py`, `dropsonde_3dtiles.py`), plus GDAL, terracotta, pyart and the skew-T plotting.
- Calendar.AddDelta: takes the offset as whole milliseconds, while the source multiplies float seconds by 1000.
- FlightReader.RowTime: a record's `Time_Start` is whole seconds (`IctRow.secs` is an integer). The ICARTT column is a float, and its fractional milliseconds are not modelled.
- FlightReader.MetRow: the IMPACTS `Time_s` column is whole seconds (`timeS` is an integer). pandas may read it as floats, and a fractional `Time_s` would fail the `Time_s % (nskip + 1) == 0` step test and give fractional steps; that case is not modelled.
- ChunkStore.SortByTime: its contract allows any order of equal times, but the function fixes one, the stable order of `Seqs.ArgSort`. `np.argsort` uses an unstable sort by default, so the source may order rows with equal times differently.
- Hiwrap.Transformation: its contract is stated on the model's sorted curtain, whose equal times are in the stable order. With the unstable `np.argsort` the source may order them differently, and then the `[::20]` stride may keep different rows among equal times.
- FloatText.StringToFloat: values are exact reals, so overflow to infinity for huge exponents is not modelled. Digit-group underscores, which Python accepts, are rejected. Only ASCII whitespace is stripped and only ASCII digits are read, while `float` also strips other Unicode whitespace and reads non-ASCII decimal digits.
- IntText.ParseInt: only ASCII whitespace is stripped and only ASCII digits are read. Python's `int` also strips other Unicode whitespace (such as `\x1c` to `\x1f` and `\xa0`) and reads non-ASCII decimal digits.
- IngestUtils.GetLma: the mask column always arrives as text. When every mask in a file is all decimal digits, pandas reads the column as integers, and `int(a, 16)` then raises `TypeError`; that case is not modelled.
- Colors.LmaBand: its own contract only bounds the band to 0..10. The band's meaning is stated by `Colors.LmaBandIff`.
- FlightReader.RowTime: its own contract only says a produced date-time is valid. The exact date and time are stated by `Calendar.GetDateTime`, which it calls.
- Geo.RegionRad: its own contract only keeps the length. The conversion is stated by `Geo.RegionRadInverse`.

## Findings

| source | as written | input that shows it | evidently intended | confidence | as-written member | corrected member |
|---|---|---|---|---|---|---|
| utils/point_cloud.py:40-41 | when no chunk starts after `end`, the end row is `size - 1`, used as an exclusive bound | an indexed two-row store whose window holds both rows returns `[0]` | the end row is `size`, so the last stored row can be returned | not executed | ChunkQuery.TwoRowStoreLosesLastRow | ChunkQuery.QueryExact |
| utils/point_cloud.py:38-41 | the start chunk is the one before the first chunk timed after `epoch`; the end row is the start of the chunk after the last one timed before `end` | times 5, 5, 6 in three chunks with window `[5, 6]` return `[1]` | rows equal to `epoch` in an earlier chunk, and rows equal to `end`, are returned | not executed | ChunkQuery.TieStoreLosesBoundaryRows | ChunkQuery.QueryExact |
| src/campaigns/olympex/NEXRAD/helper/conversion_helper.py:34 | the last end time is `str(int(t) + 10)` | `1255` ends at `1265`, and `0304` ends at `314` | ten minutes later on the clock, zero-padded to `HHMM` | not executed | Availability.NexradLastEndMinuteOverflow | Availability.NexradLastEnd |
| src/campaigns/olympex/NPOL/helper/conversion_helper.py:22 | the last end time is `str(int(t) + 2000)` | `164848` ends at `166848` | twenty minutes later on the clock as `HHMMSS` | not executed | Availability.NpolLastEndMinuteOverflow | Availability.NpolLastEnd |
| src/campaigns/cpexaw/DROPSONDE/helper/ingestToZarr.py:74 | the latitude test is passed as the `out` argument of `np.logical_and`, so it is never applied | a row with latitude -999 and valid other fields is kept | rows with latitude -999 are dropped too | not executed | ChunkStore.DropsondeLatitudeIgnored | ChunkStore.DropsondeKeepComplete |
| src/campaigns/impacts/utils/pcloud_subs.py:263 | reflectivities of 50 dBZ or more are clamped to 50.0001, above the last band | 55 dBZ gets no colour | the strongest echoes fall in the top band | not executed | Colors.DbzAsWrittenHidesTop | Colors.DbzBandExact |
| src/campaigns/impacts/CPL-pcloud.py:51-58 | `nTile = int(n / 50000) + 1` gives one tile too many when `n` is a multiple of 50000, and that tile reads `Time[tile * 50000]`, past the last row | 50000 rows make the run fail with `KeyError`, a label lookup past the last row | one tile for each started block of 50000 rows | not executed | Windows.CplAsWrittenFailsOnFullTile | Windows.CplTilesMatchScript |
| src/campaigns/impacts/CPL-pcloud.py:59-60 | each tile is the half-open time range `[start, end)` | rows at the final time are in no tile | the last tile includes the final time | not executed | Windows.CplAsWrittenDropsFinalTime | Windows.CplTilesCover |

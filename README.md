# AROME vertical-velocity and wind tiles: a Dafny model

The AROME scripts download forecast rasters (vertical velocity, and the U and V
wind components) from Météo-France's coverage service, one file per forecast
day, hour and pressure level. They colour each vertical-velocity raster and cut
it into an MBTiles pyramid, upload the results to a GitHub release, and read
them back from the release.

This project models the logic at the centre of that pipeline. It covers four
scripts:

- `scripts/geotiff2mbtiles.py`:
  - `apply_color_gradient`, the per-pixel colour ramp with a transparent dead band, written into a planar RGBA buffer;
  - `geotiff_to_mbtiles`, the adaptive zoom-by-zoom tile walk with the TMS row flip, the insert-or-replace tile store and the metadata rows.
- `scripts/fetch_latest_release.py`: selecting the `.mbtiles` assets of a release, filtering them by pressure and hour, finding a release by tag, and taking the date from the latest tag.
- `scripts/process_all.py`:
  - enumerating the batch's tasks;
  - the file names and time strings of a task;
  - the reuse-an-existing-file rule;
  - the staged `process_single_file` with its early returns and cleanups;
  - the sequential success counter and the exit code.
- `scripts/run_wind_components_github.py`: the `is_valid_tiff` predicate, the upload helper, the U/V file names, and the nested download loops with their counting, cleanup and return rule.

The world outside the scripts enters as parameters:

- **Conversion:** per-tile visibility (reprojection plus the alpha test), the initial `mercantile` cover and PNG encoding are functions passed in. The SQLite database is a class holding two maps.
- **Batch:** the file system's answers (present, size), the outcomes of the fetch, warp and convert calls, and the release's asset list are an `Env` value. The procedure returns the list of actions it asks for: fetch, warp, convert, upload, cleanup.
- **Wind:** the download, the TIFF probe and the `gh` calls are functions of the file.

Modules:

- `Wrappers`: `Option` and `Result`.
- `Text`: `str(n)`, `{:02d}`, `endswith`, `in`, `replace(pat, '')`, `basename` and `join`.
- `Seqs`: list comprehensions as `Keep` and `Count`.
- `Releases`: `fetch_latest_release.py`.
- `ColorMap`: `apply_color_gradient`.
- `TilePyramid`: `geotiff_to_mbtiles`.
- `Batch`: `process_all.py`.
- `Wind`: `run_wind_components_github.py`.

## Model

| member | source | states |
|---|---|---|
| Text.NatToString | scripts/process_all.py:148 | `str(pressure)`: a non-empty digit string with no leading zero; one digit exactly below 10 |
| Text.NatToStringRoundTrip | scripts/process_all.py:148 | reading the decimal digits of `str(n)` gives back n |
| Text.NatToStringInjective | scripts/process_all.py:148 | different numbers have different decimal strings |
| Text.ZeroPad2 | scripts/process_all.py:133 | `f"{hour:02d}"`: all digits, value equal to the hour, exactly two characters below 100, the plain decimal form from 10 on |
| Text.RemoveAll | scripts/fetch_latest_release.py:198 | `str.replace(pat, '')` never lengthens the string |
| Text.RemoveAllAbsent | scripts/fetch_latest_release.py:198 | a string without the pattern is left unchanged by the replacement |
| Text.RemoveAllTag | scripts/fetch_latest_release.py:198 | removing the prefix tag from tag + d gives d when d holds no occurrence of the tag |
| Text.ContainsMiddle | scripts/fetch_latest_release.py:118 | the `in` test finds any middle part of a string |
| Text.Basename | scripts/run_wind_components_github.py:87 | `os.path.basename`: a suffix of the path with no '/', preceded by '/' when shorter than the path |
| Text.PathJoin | scripts/process_all.py:150-152 | `os.path.join(dir, name)` ends with name |
| Text.BasenameOfJoin | scripts/process_all.py:150-153 | the base name of `os.path.join(dir, name)` is name when name has no '/' |
| Seqs.Keep | scripts/fetch_latest_release.py:118 | a list comprehension keeps only elements satisfying the test, and keeps every one of them |
| Seqs.KeepIsSubseq | scripts/fetch_latest_release.py:118 | the comprehension's result is an order-preserving subsequence with one element per match |
| Seqs.KeepUnique | scripts/fetch_latest_release.py:137 | any order-preserving subsequence of matches with one element per match is the comprehension's result |
| Seqs.KeepIdempotent | scripts/fetch_latest_release.py:137 | filtering twice by the same test changes nothing more |
| Seqs.KeepCommutes | scripts/fetch_latest_release.py:118 | two filters may be applied in either order |
| Seqs.CountAppend | scripts/process_all.py:359-361 | counting over a concatenation adds the counts |
| Seqs.CountAll | scripts/process_all.py:419 | the count equals the length exactly when every element matches |
| Seqs.CountPositive | scripts/run_wind_components_github.py:244 | one matching element makes the count positive |
| Releases.MbtilesFromRelease | scripts/fetch_latest_release.py:90-99 | an order-preserving subsequence of the release's assets: all end in `.mbtiles`, every `.mbtiles` asset is present, one entry per such asset |
| Releases.MbtilesFromReleaseExact | scripts/fetch_latest_release.py:90-99 | those three properties determine the result uniquely |
| Releases.MbtilesForPressure | scripts/fetch_latest_release.py:117-118 | the files whose name contains "_" + str(pressure) + ".", in order, and all of them |
| Releases.MbtilesForHour | scripts/fetch_latest_release.py:136-137 | the files whose name contains "_" + HH + "_", in order, and all of them |
| Releases.PressureFilterIdempotent | scripts/fetch_latest_release.py:118 | filtering by the same pressure twice equals filtering once |
| Releases.HourFilterIdempotent | scripts/fetch_latest_release.py:137 | filtering by the same hour twice equals filtering once |
| Releases.FiltersCommute | scripts/fetch_latest_release.py:118-137 | pressure-then-hour selects the same list as hour-then-pressure |
| Releases.FirstWithTag | scripts/fetch_latest_release.py:63 | the index of the first release with the tag, none before it has the tag; None exactly when no release has it |
| Releases.FetchReleaseByDate | scripts/fetch_latest_release.py:62-66 | the first release tagged "arome-" + date; the ValueError message exactly when no release carries that tag |
| Releases.LoadAromeData | scripts/fetch_latest_release.py:193-203 | with a non-empty date: the release is exactly the one FetchReleaseByDate finds, reported under that date; without one: the latest release with its tag minus "arome-" (a missing tag is the KeyError); the `.mbtiles` list of the chosen release |
| Releases.LatestDateFromTag | scripts/fetch_latest_release.py:196-198 | a latest release tagged "arome-" + d yields the date d |
| ColorMap.Clip01 | scripts/geotiff2mbtiles.py:41 | `np.clip(t, 0, 1)` lies in [0, 1] and leaves values already there unchanged |
| ColorMap.ToUint8 | scripts/geotiff2mbtiles.py:42-44 | `astype(uint8)` of a non-negative value below 256 is its floor, always a byte |
| ColorMap.Channel | scripts/geotiff2mbtiles.py:42-53 | a channel interpolated between two bytes is the floor of the linear blend and stays a byte |
| ColorMap.LerpBounds | scripts/geotiff2mbtiles.py:42-53 | a linear blend of two bytes with t in [0, 1] stays in [0, 255] |
| ColorMap.PixelColor | scripts/geotiff2mbtiles.py:34-68 | every channel of a pixel is a byte and its alpha is 0 or 255 |
| ColorMap.AlphaRule | scripts/geotiff2mbtiles.py:34-55 | alpha is 255 exactly when v < lo or v > hi; otherwise the pixel is (0, 0, 0, 0) |
| ColorMap.NaNIsTransparent | scripts/geotiff2mbtiles.py:27 | a NaN sample, mapped to 0, is transparent under the default ramp |
| ColorMap.ColdRamp | scripts/geotiff2mbtiles.py:38-45 | for min <= v < lo, t = (v - min)/(lo - min) lies in [0, 1) and the pixel is (floor 64t, floor 224t, floor(139 + 69t), 255) |
| ColorMap.WarmRamp | scripts/geotiff2mbtiles.py:48-55 | for hi < v <= max, s = (v - hi)/(max - hi) lies in (0, 1] and the pixel is (floor(139 + 116(1 - s)), floor 255(1 - s), 0, 255) |
| ColorMap.ColdRampMonotone | scripts/geotiff2mbtiles.py:38-45 | on the cold branch R, G and B never decrease as v grows |
| ColorMap.WarmRampMonotone | scripts/geotiff2mbtiles.py:48-55 | on the warm branch R and G never increase as v grows and B stays 0 |
| ColorMap.ClampsContinueRamp | scripts/geotiff2mbtiles.py:57-68 | below min the pixel is dark blue (0, 0, 139, 255), above max dark red (139, 0, 0, 255); the branch formulas give the same colours at min and max |
| ColorMap.DefaultRampSamples | scripts/geotiff2mbtiles.py:19-25 | sample pixels of the ramp used by the conversion (-3, 3, dead band (-1, 1)) |
| ColorMap.AnyOpaque | scripts/geotiff2mbtiles.py:36 | `np.any(opaque_mask)`: true exactly when some cleaned sample is outside the dead band |
| ColorMap.ApplyColorGradient | scripts/geotiff2mbtiles.py:19-72 | a fresh (4, H, W) buffer, H and W those of the input; every entry is the pixel rule's channel when some sample is opaque and 0 otherwise, which for an ordered ramp is the pixel rule everywhere |
| ColorMap.WritePixel | scripts/geotiff2mbtiles.py:42-45 | writes the four channels of one pixel and nothing else |
| TilePyramid.Children | scripts/geotiff2mbtiles.py:159 | `mercantile.children`: four tiles one zoom deeper whose parent is the tile, in range when the tile is |
| TilePyramid.ChildrenAreQuadrants | scripts/geotiff2mbtiles.py:159 | a tile is a child exactly when it is one zoom deeper with this parent; the four children are distinct |
| TilePyramid.TmsRowFlip | scripts/geotiff2mbtiles.py:149 | TmsRow, the stored row 2^z - y - 1, flipped again gives y back, and it is in [0, 2^z) exactly when y is |
| TilePyramid.TileKeyInjective | scripts/geotiff2mbtiles.py:149-152 | different tiles get different (zoom, column, row) keys |
| TilePyramid.VisibleChildrenFacts | scripts/geotiff2mbtiles.py:158-160 | the next frontier holds only children of visible tiles, one zoom deeper, in range when the level is |
| TilePyramid.ExaminedZooms | scripts/geotiff2mbtiles.py:111-173 | Examined, the tiles the walk visits: every examined tile has min_zoom <= z <= max_zoom; those at min_zoom come from the initial cover; in range when the cover is |
| TilePyramid.ExaminedParents | scripts/geotiff2mbtiles.py:158-171 | every examined tile above min_zoom has a parent that was examined and visible |
| TilePyramid.NoDescendantOfInvisible | scripts/geotiff2mbtiles.py:138-160 | no descendant of an invisible examined tile is ever examined |
| TilePyramid.VisibleChildrenDistinct | scripts/geotiff2mbtiles.py:158-160 | a level of distinct tiles yields a next frontier of distinct tiles |
| TilePyramid.ExaminedDistinct | scripts/geotiff2mbtiles.py:114-173 | from a distinct cover no tile is examined twice |
| TilePyramid.StoredKeys | scripts/geotiff2mbtiles.py:138-153 | Stored, the rows the walk writes: the keys written are exactly the keys of the visible examined tiles |
| TilePyramid.StoredValues | scripts/geotiff2mbtiles.py:146-153 | a visible tile's key holds that tile's PNG blob |
| TilePyramid.StoredSize | scripts/geotiff2mbtiles.py:154 | for distinct tiles the number of rows written is the number of visible tiles (tile_count) |
| TilePyramid.NothingVisible | scripts/geotiff2mbtiles.py:138-173 | when no tile is visible only the cover is examined and no row is written |
| TilePyramid.MetadataRows | scripts/geotiff2mbtiles.py:95-102 | six metadata rows with distinct names |
| TilePyramid.UpsertOverrides | scripts/geotiff2mbtiles.py:103 | Upsert, a keyed insert-or-replace of rows, overrides the old table with the rows' entries |
| TilePyramid.UpsertIdempotent | scripts/geotiff2mbtiles.py:103 | upserting the same rows twice equals upserting once |
| TilePyramid.UpsertFacts | scripts/geotiff2mbtiles.py:103 | with distinct names: the keys are the old ones plus the rows' names, each name maps to its row's value, other keys keep their value |
| TilePyramid.ConversionMetadata | scripts/geotiff2mbtiles.py:95-103 | after the conversion: name = basename of the GeoTIFF, format png, the bounds text, str(min_zoom), str(max_zoom), type baselayer; other entries unchanged |
| TilePyramid.ReconversionDuplicatesMetadata | scripts/geotiff2mbtiles.py:90-103 | as written (no key on the metadata table, so every executemany appends): k conversions into one file add 6k rows after the old ones, k more of them named "name", the j-th at offset 6j holding the GeoTIFF's base name |
| TilePyramid.MbtilesDb.constructor | scripts/geotiff2mbtiles.py:88-92 | a database holding the given tiles and metadata |
| TilePyramid.MbtilesDb.InsertOrReplaceTile | scripts/geotiff2mbtiles.py:150-153 | the key now holds the new blob; every other tile row and the metadata are unchanged |
| TilePyramid.MbtilesDb.InsertOrReplaceMetadata | scripts/geotiff2mbtiles.py:103 | the corrected keyed table: the metadata becomes the upsert of the rows in order (UpsertFacts gives its contents); tiles unchanged |
| TilePyramid.StoredAppend | scripts/geotiff2mbtiles.py:118-162 | the rows written by two runs of tiles are the first run's overridden by the second's |
| TilePyramid.ExaminedStep | scripts/geotiff2mbtiles.py:169-171 | moving to a non-empty next level below max_zoom continues the same examined sequence |
| TilePyramid.ProcessLevel | scripts/geotiff2mbtiles.py:115-162 | one zoom level: the level's visible tiles are written under their TMS keys; stored counts them, stored + skipped is the level's size; the next frontier is their children below max_zoom and empty at it |
| TilePyramid.GeotiffToMbtiles | scripts/geotiff2mbtiles.py:95-173 | the metadata is upserted; the tiles examined are those of the pruned walk from the cover (none if min_zoom > max_zoom); the table gains exactly the visible ones under their TMS keys; tile_count counts them and tile_count + skipped_count equals the tiles examined |
| Batch.DayTasks | scripts/process_all.py:313 | 75 tasks per day |
| Batch.Tasks | scripts/process_all.py:311-316 | the list of tasks has len(forecast_days) * 75 entries |
| Batch.TaskAt | scripts/process_all.py:307-313 | task number d * 75 + h * 5 + p is (hour 5 + h, the p-th of 500..900, day d): day-major, then hour, then pressure |
| Batch.TaskRanges | scripts/process_all.py:307-308 | every task's hour lies in 5..19 and its pressure is one of the five levels |
| Batch.DefaultTaskCount | scripts/process_all.py:307-316 | the default days [0, 1] give 150 tasks |
| Batch.FileBase | scripts/process_all.py:149 | the base is "arome_vv_", the source date, "_", the target date, "_", then (for an hour below 100) exactly two digits reading back as the hour, then "_" + str(pressure) at the end |
| Batch.TimeValue | scripts/process_all.py:144 | time_value is the target date, "T", then (for an hour below 100) two digits reading back as the hour, then ":00:00Z" |
| Batch.RefTimeValue | scripts/process_all.py:145 | ref_time_value is the forecast-time format of the source date at hour 0, so TimeValue's facts give the source date, "T00", ":00:00Z" |
| Batch.TaskPaths | scripts/process_all.py:149-153 | the release name is the file base + ".mbtiles"; the three paths end in the base + ".tiff", + "_mercator.tiff" and the release name |
| Batch.FileBaseInjective | scripts/process_all.py:149 | within one pair of dates, two tasks share a file base only if they share hour and pressure |
| Batch.NameCarriesHourTag | scripts/process_all.py:149-153 | a task's .mbtiles name contains the tag the hour filter searches for |
| Batch.NameCarriesPressureTag | scripts/process_all.py:149-153 | a task's .mbtiles name contains the tag the pressure filter searches for |
| Batch.TaskPathsDistinct | scripts/process_all.py:150-152 | the .tiff, _mercator.tiff and .mbtiles paths of a task are three different paths |
| Batch.UploadNameMatches | scripts/process_all.py:152-156 | the base name of the .mbtiles path is the name checked against the release |
| Batch.Reusable | scripts/process_all.py:171 | an output is reused only when it exists, is over 1 000 000 bytes, skip_existing is on and force is off |
| Batch.StagePlanSelects | scripts/process_all.py:169-235 | whatever the outcomes, the actions asked for are the seven possible ones (fetch, warp, remove TIFF, convert, remove warped, remove .mbtiles, upload) in that order, each kept or dropped by its condition |
| Batch.StagePlanMembers | scripts/process_all.py:169-235 | each of the seven actions is asked for exactly when its condition holds: a stage runs only when its output is not reused and all earlier stages succeeded; the TIFF is always removed, the warped TIFF unless the fetch returned False, the .mbtiles only after a failed conversion, the upload only after success with a tag and the file present |
| Batch.StagePlanOrder | scripts/process_all.py:169-235 | fetch, warp, convert and upload come in that order, each action at most once; the upload is last; the TIFF is never removed before the warp and the warped TIFF never before the convert |
| Batch.RunStages | scripts/process_all.py:169-235 | success iff fetch, warp and convert each succeed or are reused; the actions are exactly StagePlan's, whose order and conditions the three StagePlan lemmas give |
| Batch.ProcessSingleFile | scripts/process_all.py:133-235 | a task whose .mbtiles is already in the release returns True and asks for nothing; otherwise the actions are exactly StagePlan's for the task's own paths, time strings and pressure, and the result is RunStages' |
| Batch.ReleaseForUploads | scripts/process_all.py:299-304 | uploads keep the tag only when it is set and the release was created |
| Batch.ProcessAllSequential | scripts/process_all.py:326-361 | total is the number of tasks and successful the number that returned True, never more than total |
| Batch.ExitCodeZero | scripts/process_all.py:419-424 | ExitCode, `exit(0)` when successful == total and `exit(1)` otherwise, is 0 exactly when every task succeeded |
| Wind.TiffHeaderMeaning | scripts/run_wind_components_github.py:54-57 | the accepted headers are exactly "II" or "MM" followed by 42 in that byte order |
| Wind.IsValidTiff | scripts/run_wind_components_github.py:46-80 | valid only with size >= 1000000, a TIFF header and an acceptable raster probe (a rasterio read that raises, a width or height below 100, or an empty band rejects); every file meeting all three is valid |
| Wind.Upload | scripts/run_wind_components_github.py:82-118 | success needs a tag and an accepted upload; with a tag, whether the release existed or was created first, it is exactly the upload's answer; a missing release that cannot be created means failure |
| Wind.IsValidTiffAsWritten | scripts/run_wind_components_github.py:46-80 | as written, a failure of the outer error path is a NameError on `logger`; otherwise the answer is the validity rule |
| Wind.UploadAsWritten | scripts/run_wind_components_github.py:82-118 | as written the helper answers True exactly on a successful upload to an existing release, and otherwise raises NameError |
| Wind.UploadAsWrittenAgrees | scripts/run_wind_components_github.py:82-118 | where the helper as written answers at all, the release existed and the answer is the corrected Upload's; a missing release with a tag always raises NameError |
| Wind.UploadNeverFailsQuietlyAsWritten | scripts/run_wind_components_github.py:95-117 | as written a refused upload never answers False; it always raises NameError |
| Wind.DayItems | scripts/run_wind_components_github.py:167-233 | 170 files per day |
| Wind.TotalFiles | scripts/run_wind_components_github.py:142-145 | the files attempted number len(forecast_days) * 5 * 17 * 2 |
| Wind.ItemAt | scripts/run_wind_components_github.py:150-233 | file d * 170 + h * 10 + p * 2 + c is day d, hour 5 + h, the p-th pressure, U before V |
| Wind.WindFileName | scripts/run_wind_components_github.py:174-205 | the name is "arome_", 'u' for U or 'v' for V, "_", the source date, "_", the target date, "_", then (for an hour below 100) two digits reading back as the hour, and ends with "_" + str(pressure) + ".tiff" |
| Wind.UAndVNames | scripts/run_wind_components_github.py:174-206 | the U and V names of one (day, hour, pressure) differ only in the component letter |
| Wind.DownloadOutcome | scripts/run_wind_components_github.py:242-248 | with successful <= total the run succeeds exactly when there was nothing to fetch or at least one file succeeded; all files succeeding is always success |
| Wind.OutcomeFailsOnlyWhenNothingSucceeded | scripts/run_wind_components_github.py:242-248 | with files to fetch, the run fails exactly when none succeeded |
| Wind.FailedPathsCount | scripts/run_wind_components_github.py:201-233 | every file either counts as a success or is removed |
| Wind.ProcessPressure | scripts/run_wind_components_github.py:172-233 | the U file then the V file of one hour and pressure: the count and the failed list become those of the day's files up to and including the pair |
| Wind.ProcessComponent | scripts/run_wind_components_github.py:179-202 | a file is counted exactly when downloaded, valid and uploaded; otherwise its path is removed |
| Wind.DownloadDay | scripts/run_wind_components_github.py:167-233 | one day adds its successful files to the count and its failed paths to the removals |
| Wind.DownloadWindComponents | scripts/run_wind_components_github.py:120-248 | total is days * 170; successful counts the files that succeed; removed lists the failed files in order; successful + removed = total; the outcome is the return rule |
| Wind.ItemAsWritten | scripts/run_wind_components_github.py:180-199 | one file as written: either helper's NameError escapes |
| Wind.DownloadAsWritten | scripts/run_wind_components_github.py:146-248 | as written the run reports True only when no helper raised; when none raises, it is the return rule applied to the files that answered True |
| Wind.FirstUploadRefusedAbortsRun | scripts/run_wind_components_github.py:113-253 | a day whose first upload is refused and whose other files succeed: as written the run returns False, while the counted successes are positive and the return rule gives True |

## Left out

- Network, `gh`, rasterio, PIL, `mercantile` and SQLite are parameters or maps. These are reprojection with bilinear resampling, the alpha test of a reprojected tile, PNG encoding, `mercantile.tiles` and `bounds`, `requests` and `subprocess`. The colour buffer and its values are modelled; the reprojection of that buffer is the `visible` oracle.
- IEEE floats, NaN and numpy vectorisation: samples are `real`, NaN is an `Option` mapped to 0, `astype(uint8)` is `Floor`, and the masked slice writes are a per-pixel loop. Infinities are not modelled.
- `scripts/warp.py` (reprojection and griddata interpolation) and `scripts/fetch.py` (the coverage-service HTTP client) are not part of this model. Their calls are stage outcomes.
- `fetch_wind_component_tiff` is not defined in `scripts/fetch.py`, so the import at `scripts/run_wind_components_github.py:136` fails. The model assumes the import succeeds and treats each download as an oracle.
- The parallel branch of `process_all` (`ProcessPoolExecutor`, lines 329-356) is not modelled; only the sequential counter is.
- Dates come from `datetime.now` and `timedelta`; here they are given strings.
- Logging, argparse, timing, the release title and notes text, and the glob cleanup of temporary files are not modelled.
- `check_file_exists_in_release` and `create_github_release` are not modelled as procedures. Their answers are inputs: an optional asset list, and whether the release was created.
- The `hours` comment in `scripts/process_all.py:307` says 5 to 21, but `range(5, 20)` yields 5..19. The model follows the code: `Batch.TaskRanges` proves hours 5..19.
- TilePyramid.GeotiffToMbtiles: the frontier and the counters are locals of the method, and only the database is an object updated in place. The database also holds the metadata map, and the conversion upserts it; a tile visited twice counts twice, as in the source.
- TilePyramid.MbtilesDb.InsertOrReplaceMetadata: models the metadata table keyed by name, where a row replaces the one with its name. The source creates the table without a key (geotiff2mbtiles.py:90), so there `executemany` appends; that behaviour is `TilePyramid.ReconversionDuplicatesMetadata` (see Findings).
- TilePyramid.GeotiffToMbtiles: upserts the metadata into the keyed table, not the append-only table of geotiff2mbtiles.py:90 and 103; a second conversion into one file therefore leaves one row per name, where the source leaves duplicates (see Findings).
- TilePyramid.GeotiffToMbtiles: the exception path is not modelled. When rasterio or SQLite raises, the conversion raises and `process_single_file` records a failed conversion (`Batch.ConvertOk`).
- Wind.IsValidTiff: the raster probe's own exceptions are a single `RasterFails` case, and a failed header read is a missing header.
- Wind.DownloadWindComponents: it models the loop with the `logger` NameError corrected. The as-written behaviour is `Wind.ItemAsWritten` and `Wind.DownloadAsWritten`; see Findings.

## Findings

| source | as written | input that shows it | evidently intended | confidence | as-written member | corrected member |
|---|---|---|---|---|---|---|
| scripts/geotiff2mbtiles.py:90, 103 | the metadata table is created with no primary key or unique index, so `INSERT OR REPLACE` always inserts | converting twice into the same .mbtiles file | one row per metadata name, replaced on re-run | not executed | TilePyramid.ReconversionDuplicatesMetadata | TilePyramid.UpsertIdempotent (with TilePyramid.UpsertFacts, TilePyramid.MbtilesDb.InsertOrReplaceMetadata and TilePyramid.GeotiffToMbtiles) |
| scripts/run_wind_components_github.py:79, 95, 103, 113, 117 | the helpers log through a global `logger` that is only a local of `download_wind_components`, so each of these paths raises NameError, which ends the whole run with False | a day whose first upload is refused and whose 169 other files succeed | the helper returns False, the file is skipped, and the run returns True | not executed | Wind.FirstUploadRefusedAbortsRun | Wind.DownloadWindComponents |

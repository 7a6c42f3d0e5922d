# Zonal-statistics tile downloader and merger, modelled in Dafny

This project models the batch pipeline of `app/download_merge.py`. The pipeline
takes UTM zones, a year range, a month range and a list of spectral indexes
(NDVI, NDWI, ...). It runs in three phases:

1. **Discovery.** For every zone, year of the range and applicable month, the
   keys under `<zone>/<year>/<month>/composites/` are listed. A key is kept when
   it ends in `.tif`, contains `indexes`, and the upper-cased stem of its last
   segment is one of the requested indexes. The kept key's download directory
   `<root>/<year>/<INDEX>/<mm>` is created and a download task is queued.
2. **Download.** Each task's file goes to `<dir>/<first key segment>_<last key
   segment>` and is fetched only when nothing is there yet. Tasks whose fetch
   raises are left out of the result.
3. **Merge.** For every year, requested index and applicable month, an existing
   group directory that lists at least one `.tif` gets a mosaic
   `<index>_<year>_<mm>.tif` written into it, and its path is returned.

The months applicable to a year come from `get_months_for_year`: a slice of
the twelve English month names. Month names map to `"01".."12"` through
`convertir_mes_a_numero`.

Modules, one per file, follow that structure:

- `wrappers.dfy`: `Option` and `Result`.
- `text.dfy`: the Python string operations the code relies on. These are
  `split`, `endswith`, `in`, `upper`, `os.path.join` and `str` of an integer.
- `calendar.dfy`: the month-range resolver and the month-number lookup.
- `local_files.dfy`: the local download area. A `FileSystem` object holds a
  map from directory path to the file names in it. `makedirs` and file writes
  update that map in place. The group-directory layout is defined here too.
- `discovery.dfy`: key filtering, task construction and the
  zone × year × month discovery loops, as methods proved against fold functions.
- `download.dfy`: `download_tif_file` and the result loop of `parallel_download`.
- `merge.dfy`: `merge_tifs` and the year × index × month merge loops.
- `pipeline.dfy`: `download_tif_files` end to end.

Each loop of the source is a method with loop invariants. Each method's
`ensures` ties its result and the new file-system state to a fold function
(`KeyTasks`, `ZonesScan`, `DownloadRun`, `GroupsRun`, `MergeYears`, `RunPipeline`).
The properties the code promises are proved as lemmas about those functions.

Inputs the code reads from outside are parameters:

- The object listing is `listing: string -> seq<string>`, from a prefix to the
  keys returned, in order.
- Whether the fetch of the `i`-th task raises is `fails[i]`. Tasks past the end
  of `fails` succeed.
- The temporary root directory is the request's `root`.

Where one might expect otherwise, the model follows the code:

- `parallel_download` collects results by iterating the futures in
  submission order (line 29), not in completion order.
- Index names are compared as given: the key's stem is upper-cased, the
  requested names are not (line 100). A lower-case request never matches.
  The merge phase builds its directory from the requested name as given
  (line 117).
- `"indexes" in key` is a substring test anywhere in the key, not a test for
  a path segment (line 97).
- An unknown month name is not reported through a sentinel or a recoverable
  error. `list.index` raises (lines 47, 51, 54), nothing catches it, and the
  pipeline aborts. The model returns `Err(UnknownMonth(name))` from the
  resolver and from the pipeline. The sentinel `0` of
  `convertir_mes_a_numero` is kept as a separate `Zero` case. It never reaches
  a path, because the months come from the resolver.
- Different tasks can target the same local file. Example: two keys in the
  same group with the same first and last segments. The later task then finds
  the file present and skips its fetch.
- Years are compared as texts. Line 91 passes `str(year)` and the text
  `years[0]`, which lines 46, 50 and 53 compare. So a start year written as
  `"02020"` is treated as an interior year.
- When there are no zones, discovery resolves no months. The merge phase is
  then the first to resolve them, and it raises there (line 113).

## Model

| member | source | states |
|---|---|---|
| Calendar.Position | app/download_merge.py:47-48 | `list.index`: a position is found exactly when the name occurs in the list, and the list holds the name at that position |
| Calendar.MonthsForYear | app/download_merge.py:39-57 | the resolver fails exactly when a bound year's month name is not one of the twelve, and the error names that month (the start month first); otherwise every returned month is a calendar name |
| Calendar.InteriorYear | app/download_merge.py:56-57 | a year equal to neither bound gets all twelve months, in calendar order |
| Calendar.StartYear | app/download_merge.py:50-52 | in the start year of a multi-year range: exactly the months from the start month to December, in order, `12 - ordinal` of them, first the start month and last December |
| Calendar.EndYear | app/download_merge.py:53-55 | in the end year of a multi-year range: exactly January through the end month, in order, `ordinal + 1` of them |
| Calendar.StartYearAt | app/download_merge.py:50-52 | in the start year of a multi-year range, the `s`-th month gives the calendar from position `s` on |
| Calendar.EndYearAt | app/download_merge.py:53-55 | in the end year of a multi-year range, the `e`-th month gives the calendar up to position `e` |
| Calendar.SameYear | app/download_merge.py:46-49 | a single-year range gives the inclusive run from start month to end month in calendar order; one month when both names are equal; empty exactly when the start month comes after the end month |
| Calendar.SameYearSlice | app/download_merge.py:46-49 | a single-year range is the calendar slice from the start month's index to the end month's index, inclusive, or empty |
| Calendar.SameYearAt | app/download_merge.py:46-49 | the same for the names at two given positions |
| Calendar.MonthsDistinct | app/download_merge.py:43-44 | the calendar list has twelve names, no name twice |
| Calendar.Ordinal | app/download_merge.py:47-48 | the index of a canonical name is below 12 and the calendar holds the name there |
| Calendar.OrdinalOfPosition | app/download_merge.py:47-48 | `list.index` of the `k`-th name is `k` |
| Calendar.PositionAt | app/download_merge.py:47-48 | `list.index` finds the `k`-th name at position `k` |
| Calendar.SliceMembers | app/download_merge.py:49 | the slice `[lo:hi]` holds exactly the names whose index is in `[lo, hi)`, in calendar order |
| Calendar.MonthNumberSpec | app/download_merge.py:158-167 | the lookup gives a number exactly for the twelve names: the two-digit text of the name's 1-based position; every other text gives the sentinel |
| Calendar.MonthNumber | app/download_merge.py:158-167 | `meses.get(mes, 0)`: the table's code for a key, the sentinel `0` for any other text; `MonthNumberSpec` states which names get which code |
| Calendar.MonthText | app/download_merge.py:101-102 | `str(month_number)`: the code's two digits, or `"0"` for the sentinel; `MonthDigitsPlain` states that a calendar name gives two characters without `/` |
| Calendar.MonthDigitsTable | app/download_merge.py:162-166 | the table's keys are the twelve names, and the `k`-th name maps to the two digits of `k + 1` |
| Calendar.MonthDigitsKeys | app/download_merge.py:162-166 | the table's keys are exactly the twelve names |
| Calendar.MonthDigitsAt | app/download_merge.py:162-166 | the `k`-th name maps to the two digits of `k + 1` |
| Calendar.MonthNumberOfPosition | app/download_merge.py:162-166 | the `k`-th month maps to the two digits of `k + 1` |
| Calendar.MonthNumberInjective | app/download_merge.py:162-166 | different month names get different numbers |
| Calendar.TwoDigitsInjective | app/download_merge.py:162-166 | different numbers below 100 have different two-digit texts |
| Text.Split | app/download_merge.py:10-11 | `str.split` always yields at least one piece |
| Text.EndsWith | app/download_merge.py:97 | `s.endswith(suffix)`: the last `len(suffix)` characters of `s` are `suffix` |
| Text.Contains | app/download_merge.py:97 | `sub in s`: `sub` occurs at some position of `s` |
| Text.JoinSplit | app/download_merge.py:10-11 | joining the pieces of a split with the separator gives back the text |
| Text.SplitPiecesPlain | app/download_merge.py:98-99 | no piece of a split contains the separator |
| Text.SplitWithoutSeparator | app/download_merge.py:98-99 | a text without the separator splits into itself |
| Text.SplitConcat | app/download_merge.py:98-99 | splitting `a + sep + b` is splitting `a` followed by splitting `b` |
| Text.Upper | app/download_merge.py:99 | `str.upper` keeps the length, leaves no lower-case ASCII letter and keeps every other character |
| Text.UpperLetters | app/download_merge.py:99 | every lower-case ASCII letter becomes its capital: the upper-case letter with the same place in the alphabet |
| Text.UpperIdempotent | app/download_merge.py:99 | upper-casing twice is upper-casing once |
| Text.PathJoin | app/download_merge.py:12 | POSIX `os.path.join(a, b)`: an absolute `b` replaces `a`, otherwise one `/` separates them unless `a` is empty or ends in `/`; `PathJoinEnds` and `PathJoinPlain` state its properties |
| Text.PathJoinEnds | app/download_merge.py:12 | `os.path.join(a, b)` ends with `b` unless `b` is absolute |
| Text.PathJoinPlain | app/download_merge.py:12 | joining a non-empty directory path not ending in `/` with a relative name inserts one `/` |
| Text.NatText | app/download_merge.py:102 | `str` of a natural number is non-empty and has no `/` |
| Text.NatTextDigits | app/download_merge.py:102 | `str` of a natural number consists of decimal digits only |
| Text.NatTextValue | app/download_merge.py:90-91 | reading `str(n)` back as a decimal number gives `n`: `int(str(n)) == n` |
| Text.NatTextInjective | app/download_merge.py:91 | different natural numbers have different texts |
| Text.IntText | app/download_merge.py:102 | `str(year)` is non-empty and has no `/`, so it is one path segment |
| Text.IntTextSign | app/download_merge.py:91 | `str(i)` starts with `-` exactly when `i` is negative |
| Text.IntTextInjective | app/download_merge.py:91 | different years have different texts, so at most one year of the range equals each bound's text |
| LocalFiles.WithDir | app/download_merge.py:103 | `os.makedirs(dir, exist_ok=True)` adds `dir`, empty, if absent and changes no other directory's files |
| LocalFiles.WithDirs | app/download_merge.py:103 | making a batch of directories adds them (empty when new) and changes no existing directory |
| LocalFiles.WithDirsTwice | app/download_merge.py:103 | making two batches of directories in turn is making their union |
| LocalFiles.WithFile | app/download_merge.py:15 | writing a file makes it present and adds no other file |
| LocalFiles.FileSystem.MakeDirs | app/download_merge.py:103 | the tree afterwards is the old tree with the directory made |
| LocalFiles.FileSystem.WriteFile | app/download_merge.py:15 | the tree afterwards is the old tree with the file added |
| LocalFiles.GroupDir | app/download_merge.py:102 | `os.path.join(root, str(year), index, month_number)`; `GroupDirLayout` gives its shape |
| LocalFiles.GroupDirLayout | app/download_merge.py:102 | with a plain root and index, a group directory is `root/year/index/mm`, with `mm` the month's two digits |
| LocalFiles.ThreeSegments | app/download_merge.py:102 | joining three plain segments onto a plain root inserts one `/` before each |
| LocalFiles.MonthDigitsPlain | app/download_merge.py:101-102 | a month number is two characters without `/`, and `str` of it is the digits themselves |
| Discovery.IndexName | app/download_merge.py:98-99 | the index name of a key contains neither `/` nor `.` |
| Discovery.IndexNameOf | app/download_merge.py:98-99 | for a key `folders/stem.rest`, the index name is the upper-cased stem |
| Discovery.ResolveMonths | app/download_merge.py:91 | the call `get_months_for_year(str(year), years[0], months[0], years[1], months[1])` |
| Discovery.CompositesPrefix | app/download_merge.py:93 | the listing prefix `<zone>/<year>/<month>/composites/` |
| Discovery.IsIndexTile | app/download_merge.py:97-100 | the three tests a listed key passes to be queued: `.tif` ending, `indexes` in the key, index name requested |
| Discovery.TaskFor | app/download_merge.py:101-104 | the task of a kept key: the key itself and the group directory of its index, the year and the month number; `KeyTasksInOrder` and `ZonesScanComplete` state that kept keys yield these tasks |
| Discovery.KeyTasks | app/download_merge.py:96-104 | one listing yields no more tasks than it lists keys |
| Discovery.KeyTasksExactly | app/download_merge.py:96-104 | a task comes from a listing exactly when its key is listed, ends in `.tif`, contains `indexes` and has a requested index name; its directory is the group directory of that index |
| Discovery.KeptKeys | app/download_merge.py:96-100 | the listed keys that pass the three tests, in listing order, no more than were listed |
| Discovery.KeptKeysExactly | app/download_merge.py:96-100 | a key is kept exactly when it is listed and passes the three tests |
| Discovery.KeyTasksInOrder | app/download_merge.py:96-104 | each kept key yields exactly one task, in listing order: the `j`-th task is the task of the `j`-th kept key |
| Discovery.ScanListing | app/download_merge.py:96-104 | the loop over one listing queues exactly `KeyTasks` and creates exactly the directories of those tasks |
| Discovery.ScanMonths | app/download_merge.py:92-106 | the month loop queues the tasks of every month's listing in month order and creates their directories |
| Discovery.MonthsTasks | app/download_merge.py:92-104 | the tasks of one zone and year, month by month in the order given; `ScanMonths`, `MonthsTasksOrigin` and `MonthsTasksComplete` state what they hold |
| Discovery.ScanYear | app/download_merge.py:90-106 | one pass of the year loop either ends the zone's scan with its month-name error, leaving the tree alone, or extends the scan by that year's tasks and creates exactly their directories |
| Discovery.ScanZone | app/download_merge.py:90-106 | the year loop of one zone equals the zone's scan; an unknown month name ends it with the tasks found before |
| Discovery.YearsScan | app/download_merge.py:90-104 | the year loop of one zone, stopped by the first unknown month name; `ScanZone`, `YearsScanFails`, `YearsScanOrigin` and `YearsScanComplete` state what it yields |
| Discovery.YearsScanNext | app/download_merge.py:90-104 | a year whose months resolve appends that year's tasks to the zone's scan |
| Discovery.YearsScanStops | app/download_merge.py:90-91 | an unresolvable year ends the zone's scan with the tasks found before it |
| Discovery.YearsScanEmptyRange | app/download_merge.py:90 | when the year loop has run to the end, or does not run, the scan so far is the zone's scan |
| Discovery.DiscoverTasks | app/download_merge.py:88-106 | the discovery loops compute the scan of all zones and create exactly the directories of the tasks queued |
| Discovery.ZonesScan | app/download_merge.py:89-104 | the zone loop, zone scans concatenated, stopped by the first failure; `DiscoverTasks`, `ZonesScanFails`, `ZonesScanOrigin` and `ZonesScanComplete` state what it yields |
| Discovery.ZonesScanNext | app/download_merge.py:89-91 | scanning one more zone appends its tasks and takes over its failure |
| Discovery.ZonesScanFailureSticks | app/download_merge.py:91 | once a month-name error has been raised, no further zone adds tasks |
| Discovery.YearsScanFailureSticks | app/download_merge.py:91 | once a month-name error has been raised, no further year adds tasks |
| Discovery.YearsScanFails | app/download_merge.py:90-91 | a zone's scan fails exactly when some year of the range has an unresolvable month name |
| Discovery.YearsScanFailureYear | app/download_merge.py:90-91 | a failed zone scan has a year in range whose months do not resolve |
| Discovery.YearsScanFailsFrom | app/download_merge.py:90-91 | a year in range whose months do not resolve makes the zone scan fail |
| Discovery.YearsScanFailureStep | app/download_merge.py:90-91 | one more year fails the zone's scan exactly when it had failed before or that year's months do not resolve |
| Discovery.ZonesScanFailureStep | app/download_merge.py:89-91 | one more zone fails discovery exactly when it had failed before or that zone's scan fails |
| Discovery.ZonesScanFails | app/download_merge.py:89-91 | discovery fails exactly when there is a zone and some year of the range has an unresolvable month name |
| Discovery.MonthsTasksOrigin | app/download_merge.py:92-104 | every task of a year's months is a requested index tile whose key was listed under the composites prefix of the zone, the year and one of those months, in that month's directory |
| Discovery.YearsScanOrigin | app/download_merge.py:90-104 | every task of a zone's scan is a requested tile listed under that zone's composites prefix for a year in range and one of its resolved months, in that year and month's group directory |
| Discovery.ZonesScanOrigin | app/download_merge.py:89-104 | every discovered task is a requested tile listed under the composites prefix of a requested zone, a year in range and one of its resolved months, in that year and month's group directory |
| Discovery.ZoneOfTask | app/download_merge.py:89-104 | every discovered task was found by the scan of one of the requested zones |
| Discovery.ZonesScanSplit | app/download_merge.py:89-104 | a task discovered over some zones was discovered before the last zone or by the last zone's scan |
| Discovery.MonthsTasksComplete | app/download_merge.py:92-104 | a requested tile listed under one of the given months is among that year's tasks, with its month's directory |
| Discovery.YearsScanComplete | app/download_merge.py:90-104 | when a zone's scan does not fail, a requested tile listed under a resolved month of a year of the scan is among its tasks |
| Discovery.YearsScanPrefix | app/download_merge.py:90-104 | the tasks found over the first years of a zone come first among those found over more years |
| Discovery.ZonesScanComplete | app/download_merge.py:89-104 | when discovery does not fail, a requested tile listed in one of the zones under a resolved month of a year of the range is queued |
| Discovery.ZonesScanIncludes | app/download_merge.py:89-104 | when discovery does not fail, no zone's scan fails, and each zone's tasks follow those of the zones before it |
| Discovery.ZonesScanPrefix | app/download_merge.py:89-104 | the tasks discovered over the first zones come first among those discovered over all of them |
| Download.LocalName | app/download_merge.py:10-11 | the key's first segment, `_`, and its last segment; `LocalNameIsSegment`, `LocalNameOf`, `LocalNamesDiffer` and `LocalNameKeepsExtension` state its properties |
| Download.LocalPath | app/download_merge.py:12 | `os.path.join(download_dir, unique_file_name)` for a task |
| Download.LocalNameIsSegment | app/download_merge.py:10-12 | the local file name is one non-empty path segment |
| Download.LocalNameOf | app/download_merge.py:10-11 | for a key `first/middle/last`, the local name is `first_last` |
| Download.LocalNamesDiffer | app/download_merge.py:10-11 | keys with the same base name but different first segments get different local names |
| Download.LocalNameKeepsExtension | app/download_merge.py:10-11 | a `.tif` key gets a `.tif` local name |
| Download.DownloadStep | app/download_merge.py:9-16 | a path is returned exactly when the file was present or the fetch did not raise; the file is then present; nothing changes when the file was present or the fetch raised |
| Download.DownloadTifFile | app/download_merge.py:9-16 | the method's path and new tree are those of `DownloadStep` |
| Download.PresentFileSkipped | app/download_merge.py:14-16 | with the file present, nothing is fetched and the same path comes back |
| Download.DownloadTwice | app/download_merge.py:14-16 | a second call on a task that succeeded changes nothing and returns the same path |
| Download.DownloadRun | app/download_merge.py:29-33 | no more paths are collected than there are tasks |
| Download.ParallelDownload | app/download_merge.py:18-37 | the result loop returns the paths and leaves the tree of the sequential run in submission order |
| Download.CollectedInSubmissionOrder | app/download_merge.py:29-31 | the collected paths are a subsequence of the tasks' local paths, in submission order |
| Download.SucceedingTaskCollected | app/download_merge.py:29-33 | a task whose fetch does not raise is collected and its file is present, whatever failed before it |
| Download.AllPresentRun | app/download_merge.py:14-31 | when every task's file is present, nothing is fetched and every path is collected |
| Download.AllSucceedCollected | app/download_merge.py:29-31 | with no raising fetch, every task's path is collected, in order |
| Download.RerunChangesNothing | app/download_merge.py:14-31 | after a run with no raising fetch, a rerun fetches nothing, changes nothing and returns the same paths |
| Download.RunFiles | app/download_merge.py:14-15 | a run adds no file other than the tasks' local files |
| Download.SucceedingPaths | app/download_merge.py:29-33 | at most one path per task |
| Download.FreshRunCollectsSucceeding | app/download_merge.py:29-33 | on tasks with distinct local files none of which is present, the result is exactly the paths of the tasks whose fetch does not raise, in submission order |
| Merge.TifNames | app/download_merge.py:129 | exactly the listed names ending in `.tif` |
| Merge.MergeStep | app/download_merge.py:129-156 | on an existing directory, a mosaic is written exactly when the listing has a `.tif` entry; with none, nothing changes |
| Merge.MergeTifs | app/download_merge.py:125-156 | `merge_tifs` reports success and changes the tree exactly as `MergeStep` says |
| Merge.GroupStep | app/download_merge.py:117-120 | a group yields a mosaic exactly when its directory exists and lists a `.tif`; no directory is created or emptied |
| Merge.OutputPath | app/download_merge.py:119 | `os.path.join(carpeta_mes, name)`: the mosaic path of a group |
| Merge.GroupsRun | app/download_merge.py:114-121 | the groups merged in order, each written mosaic collected; `MergeIndex`, `MergeYear`, `ReadyGroupMerged` and `MosaicsFromExistingGroups` state what it yields |
| Merge.MergeIfPresent | app/download_merge.py:117-121 | the existence check followed by `merge_tifs` is `GroupStep` |
| Merge.IndexGroups | app/download_merge.py:115-117 | one group per applicable month |
| Merge.YearGroups | app/download_merge.py:114-117 | the groups of a year, index by index and, within an index, month by month, as the nested loops visit them; `GroupOfYear` and `YearGroupsOrigin` state that they are exactly the groups of the requested indexes and applicable months |
| Merge.MergeIndex | app/download_merge.py:115-121 | the month loop of one index is the run of its groups |
| Merge.IndexRunNext | app/download_merge.py:115-121 | merging the group of one more month extends the index's run by that group's step |
| Merge.IndexGroupsNext | app/download_merge.py:115-117 | the groups of one more month are the earlier groups followed by that month's group |
| Merge.MergeGroup | app/download_merge.py:116-119 | the group of an index and month of a year: directory `root/year/index/mm`, mosaic `<index>_<year>_<mm>.tif`; `MosaicPathLayout` gives its shape |
| Merge.GroupsRunNext | app/download_merge.py:117-121 | running one more group appends its step: its mosaic is collected exactly when it was written |
| Merge.MergeYear | app/download_merge.py:114-121 | the index loop of one year is the run of the year's groups |
| Merge.MergeYearStep | app/download_merge.py:112-121 | one pass of the year loop either ends the merge phase with its month-name error, leaving the tree alone, or extends it by that year's mosaics |
| Merge.MergePhase | app/download_merge.py:112-121 | the year loop of the merge phase equals `MergeYears`, stopping on an unknown month name |
| Merge.MergeYears | app/download_merge.py:112-121 | the year loop of the merge phase, stopped by the first unknown month name; `MergePhase`, `MergeYearsFails`, `ReadyYearGroupMerged` and `MergeYearsFromTifs` state what it yields |
| Merge.MergeYearsFailureSticks | app/download_merge.py:113 | once the merge phase has failed, later years change nothing |
| Merge.MergeYearsEmptyRange | app/download_merge.py:112 | when the year loop has run to the end, or does not run, the merge so far is the whole merge phase |
| Merge.MergeYearsStops | app/download_merge.py:113 | an unresolvable year ends the merge phase with what was merged before it |
| Merge.GroupsRunAppend | app/download_merge.py:114-121 | running two lists of groups in turn is running their concatenation |
| Merge.MergeAgain | app/download_merge.py:129-156 | merging a merged group again reports success and changes nothing |
| Merge.TifNamesGrow | app/download_merge.py:129 | more files means no fewer `.tif` names |
| Merge.GroupsRunGrows | app/download_merge.py:117-121 | merging creates no directory and removes no file |
| Merge.ReadyGroupMerged | app/download_merge.py:117-121 | a group whose directory exists and lists a `.tif` when the run starts gets its mosaic |
| Merge.MosaicsFromExistingGroups | app/download_merge.py:117-121 | every mosaic of a run is the output path of one of its groups whose directory existed and held a `.tif` file when the run started |
| Merge.TifsOnlyWhereTifs | app/download_merge.py:129-135 | a directory holding a `.tif` file after a run already held one before it |
| Merge.MergeYearsTifsOnlyWhereTifs | app/download_merge.py:129-135 | a directory holding a `.tif` file after the merge phase already held one before it |
| Merge.MergeYearsFromTifs | app/download_merge.py:112-121 | every mosaic of the merge phase is the output path of the group of a year of the range, a requested index and a month resolved for that year, and that group's directory existed and held a `.tif` file when the phase started: a missing or `.tif`-less directory contributes nothing |
| Merge.MergeYearsGrows | app/download_merge.py:112-121 | the merge phase creates no directory and removes no file |
| Merge.MergeYearsPrefix | app/download_merge.py:112-121 | later years only append mosaics |
| Merge.GroupOfYear | app/download_merge.py:114-117 | every requested index and applicable month has its group among the year's groups |
| Merge.GroupOfIndex | app/download_merge.py:115-117 | every applicable month has its group among one index's groups |
| Merge.YearGroupsOrigin | app/download_merge.py:114-117 | conversely, every group of a year is the group of a requested index and an applicable month |
| Merge.IndexGroupsOrigin | app/download_merge.py:115-117 | conversely, every group of an index is the group of an applicable month |
| Merge.MergeYearsNext | app/download_merge.py:112-121 | a resolvable year appends the mosaics of its groups |
| Merge.ReadyYearGroupMerged | app/download_merge.py:112-121 | when the merge phase completes, every group of a year in range whose directory lists a `.tif` at the start has its mosaic returned |
| Merge.MosaicPathLayout | app/download_merge.py:117-119 | with a plain root and index, the mosaic is `root/year/index/mm/index_year_mm.tif` |
| Merge.MergeYearsFails | app/download_merge.py:112-113 | the merge phase fails exactly when some year of the range has an unresolvable month name |
| Merge.MergeYearsFailureYear | app/download_merge.py:112-113 | a failed merge phase has a year in range whose months do not resolve |
| Merge.MergeYearsFailsFrom | app/download_merge.py:112-113 | a year in range whose months do not resolve makes the merge phase fail |
| Merge.MergeYearsFailureStep | app/download_merge.py:112-113 | one more year fails the merge phase exactly when it had failed before or that year's months do not resolve |
| Pipeline.DownloadTifFiles | app/download_merge.py:59-123 | the driver's result and final tree are those of `RunPipeline`: discovery, then download, then merge, stopping on an unknown month name |
| Pipeline.RunPipeline | app/download_merge.py:88-123 | discovery, then download, then merge, with the error of an unknown month name as the result; `DownloadTifFiles`, `PipelineFails` and `DownloadedTileMerged` state what it yields |
| Pipeline.PipelineFails | app/download_merge.py:88-113 | the pipeline fails exactly when some year of the range has an unresolvable month name, with or without zones |
| Pipeline.TileMerged | app/download_merge.py:112-121 | a requested `.tif` tile whose local copy is present when merging starts lies under the mosaic of its index, year and month, once the merge phase completes |
| Pipeline.DownloadedTileMerged | app/download_merge.py:88-121 | when the pipeline succeeds, every tile whose fetch did not raise lies in the directory of a returned mosaic, named after its index, year and month |

## Left out

- The MinIO client, its endpoint, credentials and bucket name (lines 78-86): the listing and the fetch outcomes are parameters.
- `list_objects` raising `S3Error` part-way through a listing (lines 105-106): a listing is the keys it yielded before raising, which is what the loop had appended; the error message is not modelled.
- `ThreadPoolExecutor` (lines 24-28): tasks run one after another in submission order. Concurrent fetches of the same local file, and a result list whose order would depend on timing, are not modelled.
- A fetch that raises after writing part of a file: a raising fetch leaves nothing behind.
- rasterio (lines 137-154): opening the tiles, compositing with "last" precedence, the profile update and closing the files are not modelled. A mosaic is the appearance of its file name in the group directory. A tile rasterio cannot open would raise; the model always succeeds once a `.tif` is listed.
- `os.listdir` order: a directory's files are a set, so any order-dependence of the compositing is out of scope.
- `tempfile.mkdtemp`: the root is a request field; no freshness is assumed except where `FreshRunCollectsSucceeding` states it.
- `print` diagnostics (lines 20-22, 34-36, 73-76, 106, 130-132, 134, 149).
- `int(years[0])`, `int(years[1])` (lines 90, 112): the request carries both the year texts and their integer values; a non-numeric text raising `ValueError` is not modelled.
- Text.Upper: maps ASCII letters only; Python's Unicode upper-casing, which can change the length, is not modelled.
- LocalFiles.FileSystem: tracks only the directories made by `makedirs` and the fetches, not their parent directories; `os.path.exists` on a group directory is "a directory of that path was made". A group path that names an existing file is not modelled.
- Merge.MergeTifs: the mosaic is recorded as a file of the group directory. An index name containing `/` would make `os.path.join` put it in a subdirectory, and one starting with `/` elsewhere; those cases are not modelled.
- Calendar.Position: does not state that the position found is the first occurrence. The calendar has no repeated name (`MonthsDistinct`), so the position is unique there.

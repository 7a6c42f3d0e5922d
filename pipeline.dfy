/**
 * `download_tif_files` end to end: discovery, the download coordinator and
 * the merge phase, run one after the other on the same local download area.
 */
module Pipeline {
  import opened Wrappers
  import opened Text
  import opened Calendar
  import opened LocalFiles
  import opened Discovery
  import opened Download
  import opened Merge

  /** The local download area afterwards, and the mosaic paths or the month-name error. */
  datatype Outcome = Outcome(tree: Tree, result: Result<seq<string>, MonthError>)

  /**
   * Discovery makes the task directories; if it stopped on an unknown month
   * name nothing is downloaded. Otherwise every task is downloaded and the
   * merge phase runs over the range again.
   */
  function RunPipeline(tree: Tree, req: Request, listing: string -> seq<string>, fails: seq<bool>): Outcome
  {
    var scan := ZonesScan(listing, req, req.zones);
    var made := WithDirs(tree, DirsOf(scan.tasks));
    if scan.failure.Some? then Outcome(made, Err(scan.failure.value))
    else
      var fetched := DownloadRun(made, scan.tasks, fails);
      var merged := MergeYears(fetched.tree, req, req.last + 1);
      Outcome(merged.tree, if merged.failure.Some? then Err(merged.failure.value) else Ok(merged.paths))
  }

  /** `download_tif_files`: returns the mosaic paths, or the error an unknown month name raises. */
  method DownloadTifFiles(fs: FileSystem, req: Request, listing: string -> seq<string>, fails: seq<bool>)
    returns (result: Result<seq<string>, MonthError>)
    modifies fs
    ensures Outcome(fs.tree, result) == RunPipeline(old(fs.tree), req, listing, fails)
  {
    var scan := DiscoverTasks(fs, req, listing);
    if scan.failure.Some? {
      return Err(scan.failure.value);
    }
    var downloaded := ParallelDownload(fs, scan.tasks, fails);
    var paths, failure := MergePhase(fs, req);
    if failure.Some? {
      return Err(failure.value);
    }
    result := Ok(paths);
  }

  /**
   * The pipeline fails exactly when the months of some year of the range
   * cannot be resolved, whether discovery or (with no zones) the merge
   * phase is the first to resolve it.
   */
  lemma PipelineFails(tree: Tree, req: Request, listing: string -> seq<string>, fails: seq<bool>)
    ensures RunPipeline(tree, req, listing, fails).result.Err? <==>
      exists y :: req.first <= y <= req.last && ResolveMonths(req, y).Err?
  {
    var scan := ZonesScan(listing, req, req.zones);
    ZonesScanFails(listing, req, req.zones);
    if scan.failure.None? {
      var fetched := DownloadRun(WithDirs(tree, DirsOf(scan.tasks)), scan.tasks, fails);
      assert RunPipeline(tree, req, listing, fails).result.Err? <==> MergeYears(fetched.tree, req, req.last + 1).failure.Some?;
      MergeYearsFails(fetched.tree, req, req.last + 1);
    }
  }

  /**
   * Every tile whose fetch did not raise ends up under a mosaic: when the
   * pipeline succeeds, one of the returned mosaics lies in that tile's
   * directory and is named after its index, year and month.
   */
  lemma DownloadedTileMerged(tree: Tree, req: Request, listing: string -> seq<string>, fails: seq<bool>, i: nat)
    requires i < |ZonesScan(listing, req, req.zones).tasks| && !FetchFails(fails, i)
    requires RunPipeline(tree, req, listing, fails).result.Ok?
    ensures var t := ZonesScan(listing, req, req.zones).tasks[i];
      exists year, month :: FromYearMonth(req, t, year, month) &&
        OutputPath(MergeGroup(req, year, IndexName(t.key), month)) in RunPipeline(tree, req, listing, fails).result.value
  {
    var scan := ZonesScan(listing, req, req.zones);
    var t := scan.tasks[i];
    var made := WithDirs(tree, DirsOf(scan.tasks));
    var fetched := DownloadRun(made, scan.tasks, fails);
    var merged := MergeYears(fetched.tree, req, req.last + 1);
    assert merged.failure.None? && RunPipeline(tree, req, listing, fails).result.value == merged.paths;
    assert IsIndexTile(t.key, req.indexes) &&
      exists zone, year, month :: zone in req.zones && FromYearMonth(req, t, year, month) && ListedUnder(listing, t, zone, year, month) by {
      ZonesScanOrigin(listing, req, req.zones);
      assert t in scan.tasks;
    }
    var zone, year, month :| zone in req.zones && FromYearMonth(req, t, year, month) && ListedUnder(listing, t, zone, year, month);
    assert HasFile(fetched.tree, t.dir, LocalName(t.key)) by {
      SucceedingTaskCollected(made, scan.tasks, fails, i);
    }
    TileMerged(fetched.tree, req, t, year, month);
  }

  /**
   * A requested `.tif` tile of a resolved year and month whose local copy
   * is present when the merge phase starts lies under one of its mosaics.
   */
  lemma TileMerged(tree: Tree, req: Request, t: Task, year: int, month: string)
    requires FromYearMonth(req, t, year, month) && IsIndexTile(t.key, req.indexes)
    requires HasFile(tree, t.dir, LocalName(t.key))
    requires MergeYears(tree, req, req.last + 1).failure.None?
    ensures OutputPath(MergeGroup(req, year, IndexName(t.key), month)) in MergeYears(tree, req, req.last + 1).paths
  {
    var months := ResolveMonths(req, year).value;
    var g := MergeGroup(req, year, IndexName(t.key), month);
    LocalNameKeepsExtension(t.key);
    assert LocalName(t.key) in TifNames(tree[t.dir]);
    GroupOfYear(req, year, req.indexes, months, IndexName(t.key), month);
    ReadyYearGroupMerged(tree, req, year, months, g);
  }
}

/**
 * Object discovery in `download_tif_files`: for every zone, every year of the
 * range and every month that year, the keys listed under
 * `<zone>/<year>/<month>/composites/` are filtered to the requested index
 * tiles, and each kept key becomes a download task whose directory is made.
 */
module Discovery {
  import opened Wrappers
  import opened Text
  import opened Calendar
  import opened LocalFiles

  /** A remote object key and the local group directory it is downloaded into. */
  datatype Task = Task(key: string, dir: string)

  /**
   * The arguments of `download_tif_files`: zones, the two year texts and their
   * integer values (`int(years[0])`, `int(years[1])`), the requested index
   * names, the two month names, and the local download root.
   */
  datatype Request = Request(zones: seq<string>, startYear: string, endYear: string,
                             first: int, last: int, indexes: seq<string>,
                             startMonth: string, endMonth: string, root: string)

  /** `get_months_for_year(str(year), years[0], months[0], years[1], months[1])`. */
  function ResolveMonths(req: Request, year: int): Result<seq<string>, MonthError>
  {
    MonthsForYear(IntText(year), req.startYear, req.startMonth, req.endYear, req.endMonth)
  }

  /** The listing prefix `<zone>/<year>/<month>/composites/`. */
  function CompositesPrefix(zone: string, year: int, month: string): string
  {
    zone + "/" + IntText(year) + "/" + month + "/composites/"
  }

  /** The upper-cased text of the key's last segment up to its first `.`. */
  function IndexName(key: string): (name: string)
    ensures '/' !in name && '.' !in name
  {
    var base := Last(Split(key, '/'));
    var stem := Split(base, '.')[0];
    assert '/' !in base && '.' !in stem by {
      SplitPiecesPlain(key, '/');
      SplitPiecesPlain(base, '.');
    }
    assert '/' !in stem by {
      SplitPartsFrom(base, '.');
    }
    Upper(stem)
  }

  /** For a key `<folders>/<stem>.<rest>` the index name is the upper-cased stem. */
  lemma IndexNameOf(folders: string, stem: string, rest: string)
    requires '/' !in stem && '.' !in stem && '/' !in rest
    ensures IndexName(folders + "/" + stem + "." + rest) == Upper(stem)
  {
    var base := stem + "." + rest;
    assert '/' !in base;
    assert folders + "/" + stem + "." + rest == folders + ['/'] + base;
    SplitConcat(folders, base, '/');
    SplitWithoutSeparator(base, '/');
    SplitConcat(stem, rest, '.');
    SplitWithoutSeparator(stem, '.');
  }

  /** A listed key is kept iff it ends in `.tif`, contains `indexes` and its index name is requested. */
  predicate IsIndexTile(key: string, indexes: seq<string>)
  {
    EndsWith(key, ".tif") && Contains(key, "indexes") && IndexName(key) in indexes
  }

  /** The task a kept key yields in the given year and month number. */
  function TaskFor(key: string, root: string, year: int, monthNumber: string): Task
  {
    Task(key, GroupDir(root, year, IndexName(key), monthNumber))
  }

  /** The tasks the keys of one listing yield, in listing order. */
  function KeyTasks(keys: seq<string>, indexes: seq<string>, root: string, year: int, monthNumber: string): (tasks: seq<Task>)
    ensures |tasks| <= |keys|
    decreases |keys|
  {
    if keys == [] then []
    else
      var key := Last(keys);
      KeyTasks(keys[..|keys| - 1], indexes, root, year, monthNumber) +
        (if IsIndexTile(key, indexes) then [TaskFor(key, root, year, monthNumber)] else [])
  }

  /** A task comes from the listing iff its key is listed and is a requested index tile, with that key's directory. */
  lemma {:induction false} KeyTasksExactly(keys: seq<string>, indexes: seq<string>, root: string, year: int, monthNumber: string)
    ensures forall t :: t in KeyTasks(keys, indexes, root, year, monthNumber) <==>
      t.key in keys && IsIndexTile(t.key, indexes) && t == TaskFor(t.key, root, year, monthNumber)
    decreases |keys|
  {
    if keys != [] {
      var init := keys[..|keys| - 1];
      KeyTasksExactly(init, indexes, root, year, monthNumber);
      assert keys == init + [Last(keys)];
      forall k ensures k in keys <==> k in init || k == Last(keys) {
      }
    }
  }

  /** The listed keys that are requested index tiles, in listing order. */
  function KeptKeys(keys: seq<string>, indexes: seq<string>): (kept: seq<string>)
    ensures |kept| <= |keys|
    decreases |keys|
  {
    if keys == [] then []
    else
      var key := Last(keys);
      KeptKeys(keys[..|keys| - 1], indexes) + (if IsIndexTile(key, indexes) then [key] else [])
  }

  /** A key is kept iff it is listed and is a requested index tile. */
  lemma {:induction false} KeptKeysExactly(keys: seq<string>, indexes: seq<string>)
    ensures forall k :: k in KeptKeys(keys, indexes) <==> k in keys && IsIndexTile(k, indexes)
    decreases |keys|
  {
    if keys != [] {
      var init := keys[..|keys| - 1];
      KeptKeysExactly(init, indexes);
      assert keys == init + [Last(keys)];
      forall k ensures k in keys <==> k in init || k == Last(keys) {
      }
    }
  }

  /**
   * Each kept key yields exactly one task, in listing order: the j-th task is
   * the task of the j-th kept key.
   */
  lemma {:induction false} KeyTasksInOrder(keys: seq<string>, indexes: seq<string>, root: string, year: int, monthNumber: string)
    ensures var tasks := KeyTasks(keys, indexes, root, year, monthNumber);
      var kept := KeptKeys(keys, indexes);
      |tasks| == |kept| &&
      forall j :: 0 <= j < |kept| ==> tasks[j] == TaskFor(kept[j], root, year, monthNumber)
    decreases |keys|
  {
    if keys != [] {
      KeyTasksInOrder(keys[..|keys| - 1], indexes, root, year, monthNumber);
    }
  }

  /** The set of directories of a task list. */
  function DirsOf(tasks: seq<Task>): set<string>
  {
    set t | t in tasks :: t.dir
  }

  lemma DirsOfAppend(a: seq<Task>, b: seq<Task>)
    ensures DirsOf(a + b) == DirsOf(a) + DirsOf(b)
  {
    assert forall t :: t in a + b <==> t in a || t in b;
  }

  /** Making one more task's directory extends the batch by that task. */
  lemma WithDirsAdd(t: Tree, tasks: seq<Task>, task: Task)
    ensures WithDir(WithDirs(t, DirsOf(tasks)), task.dir) == WithDirs(t, DirsOf(tasks + [task]))
  {
    DirsOfAppend(tasks, [task]);
    assert DirsOf([task]) == {task.dir};
  }

  /**
   * The loop over one listing (`for obj in objects`): each kept key makes its
   * group directory and is appended as a task.
   */
  method ScanListing(fs: FileSystem, keys: seq<string>, indexes: seq<string>, root: string, year: int, monthNumber: string)
    returns (tasks: seq<Task>)
    modifies fs
    ensures tasks == KeyTasks(keys, indexes, root, year, monthNumber)
    ensures fs.tree == WithDirs(old(fs.tree), DirsOf(tasks))
  {
    tasks := [];
    for i := 0 to |keys|
      invariant tasks == KeyTasks(keys[..i], indexes, root, year, monthNumber)
      invariant fs.tree == WithDirs(old(fs.tree), DirsOf(tasks))
    {
      var key := keys[i];
      assert keys[..i + 1][..i] == keys[..i];
      if EndsWith(key, ".tif") && Contains(key, "indexes") {
        var indexName := IndexName(key);
        if indexName in indexes {
          var dir := GroupDir(root, year, indexName, monthNumber);
          fs.MakeDirs(dir);
          WithDirsAdd(old(fs.tree), tasks, Task(key, dir));
          tasks := tasks + [Task(key, dir)];
        }
      }
    }
    assert keys[..|keys|] == keys;
  }

  /** The tasks found for one zone and year over the given months, in month order. */
  function MonthsTasks(listing: string -> seq<string>, req: Request, zone: string, year: int, months: seq<string>): seq<Task>
    decreases |months|
  {
    if months == [] then []
    else
      var month := Last(months);
      MonthsTasks(listing, req, zone, year, months[..|months| - 1]) +
        KeyTasks(listing(CompositesPrefix(zone, year, month)), req.indexes, req.root, year, MonthText(month))
  }

  /** Tasks found so far, and the month-name error that stopped the scan, if any. */
  datatype Scan = Scan(tasks: seq<Task>, failure: Option<MonthError>)

  /** The scan of one zone over the years `req.first .. upto - 1`; an unknown month name stops it. */
  function YearsScan(listing: string -> seq<string>, req: Request, zone: string, upto: int): Scan
    decreases upto - req.first
  {
    if upto <= req.first then Scan([], None)
    else
      var prev := YearsScan(listing, req, zone, upto - 1);
      if prev.failure.Some? then prev
      else match ResolveMonths(req, upto - 1)
        case Err(e) => Scan(prev.tasks, Some(e))
        case Ok(months) => Scan(prev.tasks + MonthsTasks(listing, req, zone, upto - 1, months), None)
  }

  /** The scan of the given zones in order; the first failure stops everything after it. */
  function ZonesScan(listing: string -> seq<string>, req: Request, zones: seq<string>): Scan
    decreases |zones|
  {
    if zones == [] then Scan([], None)
    else
      var prev := ZonesScan(listing, req, zones[..|zones| - 1]);
      if prev.failure.Some? then prev
      else
        var scan := YearsScan(listing, req, Last(zones), req.last + 1);
        Scan(prev.tasks + scan.tasks, scan.failure)
  }

  /** Once the scan has failed, scanning more zones changes nothing. */
  lemma {:induction false} ZonesScanFailureSticks(listing: string -> seq<string>, req: Request, n: nat, m: nat)
    requires n <= m <= |req.zones|
    requires ZonesScan(listing, req, req.zones[..n]).failure.Some?
    ensures ZonesScan(listing, req, req.zones[..m]) == ZonesScan(listing, req, req.zones[..n])
    decreases m
  {
    if m > n {
      ZonesScanFailureSticks(listing, req, n, m - 1);
      assert req.zones[..m][..m - 1] == req.zones[..m - 1];
    }
  }

  /** Once one zone's scan has failed, scanning later years changes nothing. */
  lemma {:induction false} YearsScanFailureSticks(listing: string -> seq<string>, req: Request, zone: string, n: int, m: int)
    requires n <= m
    requires YearsScan(listing, req, zone, n).failure.Some?
    ensures YearsScan(listing, req, zone, m) == YearsScan(listing, req, zone, n)
    decreases m - n
  {
    if m > n {
      YearsScanFailureSticks(listing, req, zone, n, m - 1);
    }
  }

  /** The month loop for one zone and year: every month's listing is scanned in turn. */
  method ScanMonths(fs: FileSystem, req: Request, listing: string -> seq<string>, zone: string, year: int, months: seq<string>)
    returns (tasks: seq<Task>)
    modifies fs
    ensures tasks == MonthsTasks(listing, req, zone, year, months)
    ensures fs.tree == WithDirs(old(fs.tree), DirsOf(tasks))
  {
    tasks := [];
    for k := 0 to |months|
      invariant tasks == MonthsTasks(listing, req, zone, year, months[..k])
      invariant fs.tree == WithDirs(old(fs.tree), DirsOf(tasks))
    {
      var month := months[k];
      assert months[..k + 1][..k] == months[..k];
      var found := ScanListing(fs, listing(CompositesPrefix(zone, year, month)), req.indexes, req.root, year, MonthText(month));
      WithDirsTwice(old(fs.tree), DirsOf(tasks), DirsOf(found));
      DirsOfAppend(tasks, found);
      tasks := tasks + found;
    }
    assert months[..|months|] == months;
  }

  /**
   * One pass of the year loop for one zone: the year's months are resolved
   * and scanned; an unknown month name ends the zone's scan.
   */
  method ScanYear(fs: FileSystem, req: Request, listing: string -> seq<string>, zone: string, year: int,
                  ghost start: Tree, ghost tasks: seq<Task>)
    returns (found: seq<Task>, failure: Option<MonthError>)
    requires req.first <= year <= req.last
    requires YearsScan(listing, req, zone, year) == Scan(tasks, None)
    requires fs.tree == WithDirs(start, DirsOf(tasks))
    modifies fs
    ensures failure.Some? ==> YearsScan(listing, req, zone, req.last + 1) == Scan(tasks, failure) && fs.tree == old(fs.tree)
    ensures failure.None? ==>
      YearsScan(listing, req, zone, year + 1) == Scan(tasks + found, None) && fs.tree == WithDirs(start, DirsOf(tasks + found))
  {
    var resolved := ResolveMonths(req, year);
    if resolved.Err? {
      YearsScanStops(listing, req, zone, year, tasks, resolved.error);
      return [], Some(resolved.error);
    }
    found := ScanMonths(fs, req, listing, zone, year, resolved.value);
    YearsScanNext(listing, req, zone, year, tasks, resolved.value);
    WithDirsTwice(start, DirsOf(tasks), DirsOf(found));
    DirsOfAppend(tasks, found);
    failure := None;
  }

  /**
   * The year loop for one zone: the months of each year are resolved and
   * scanned; an unknown month name ends the scan with the tasks found before it.
   */
  method ScanZone(fs: FileSystem, req: Request, listing: string -> seq<string>, zone: string) returns (scan: Scan)
    modifies fs
    ensures scan == YearsScan(listing, req, zone, req.last + 1)
    ensures fs.tree == WithDirs(old(fs.tree), DirsOf(scan.tasks))
  {
    var tasks: seq<Task> := [];
    var year := req.first;
    while year <= req.last
      invariant req.first <= year <= req.last + 1 || year == req.first
      invariant YearsScan(listing, req, zone, year) == Scan(tasks, None)
      invariant fs.tree == WithDirs(old(fs.tree), DirsOf(tasks))
      decreases req.last + 1 - year
    {
      var found, failure := ScanYear(fs, req, listing, zone, year, old(fs.tree), tasks);
      if failure.Some? {
        return Scan(tasks, failure);
      }
      tasks := tasks + found;
      year := year + 1;
    }
    scan := Scan(tasks, None);
    YearsScanEmptyRange(listing, req, zone, year);
  }

  /** A year whose months resolve adds that year's tasks to the zone's scan. */
  lemma YearsScanNext(listing: string -> seq<string>, req: Request, zone: string, year: int,
                      tasks: seq<Task>, months: seq<string>)
    requires req.first <= year
    requires YearsScan(listing, req, zone, year) == Scan(tasks, None)
    requires ResolveMonths(req, year) == Ok(months)
    ensures YearsScan(listing, req, zone, year + 1) == Scan(tasks + MonthsTasks(listing, req, zone, year, months), None)
  {
  }

  /** A month-name error in some year is the outcome of the whole zone's scan. */
  lemma YearsScanStops(listing: string -> seq<string>, req: Request, zone: string, year: int,
                       tasks: seq<Task>, e: MonthError)
    requires req.first <= year <= req.last
    requires YearsScan(listing, req, zone, year) == Scan(tasks, None)
    requires ResolveMonths(req, year) == Err(e)
    ensures YearsScan(listing, req, zone, req.last + 1) == Scan(tasks, Some(e))
  {
    assert YearsScan(listing, req, zone, year + 1) == Scan(tasks, Some(e));
    YearsScanFailureSticks(listing, req, zone, year + 1, req.last + 1);
  }

  /** When the year loop does not run, or has run to the end, the scan so far is the zone's scan. */
  lemma YearsScanEmptyRange(listing: string -> seq<string>, req: Request, zone: string, year: int)
    requires year == req.last + 1 || (year == req.first && req.first > req.last)
    ensures YearsScan(listing, req, zone, req.last + 1) == YearsScan(listing, req, zone, year)
  {
  }

  /**
   * The discovery loops of `download_tif_files`: zone by zone, the scans are
   * concatenated; a failed zone scan stops discovery.
   */
  method DiscoverTasks(fs: FileSystem, req: Request, listing: string -> seq<string>) returns (scan: Scan)
    modifies fs
    ensures scan == ZonesScan(listing, req, req.zones)
    ensures fs.tree == WithDirs(old(fs.tree), DirsOf(scan.tasks))
  {
    var tasks: seq<Task> := [];
    for z := 0 to |req.zones|
      invariant ZonesScan(listing, req, req.zones[..z]) == Scan(tasks, None)
      invariant fs.tree == WithDirs(old(fs.tree), DirsOf(tasks))
    {
      var zoneScan := ScanZone(fs, req, listing, req.zones[z]);
      ZonesScanNext(listing, req, req.zones, z, tasks, zoneScan);
      WithDirsTwice(old(fs.tree), DirsOf(tasks), DirsOf(zoneScan.tasks));
      DirsOfAppend(tasks, zoneScan.tasks);
      tasks := tasks + zoneScan.tasks;
      if zoneScan.failure.Some? {
        scan := Scan(tasks, zoneScan.failure);
        ZonesScanFailureSticks(listing, req, z + 1, |req.zones|);
        assert req.zones[..|req.zones|] == req.zones;
        return;
      }
    }
    scan := Scan(tasks, None);
    assert req.zones[..|req.zones|] == req.zones;
  }

  /** Scanning one more zone appends its tasks and takes over its failure. */
  lemma ZonesScanNext(listing: string -> seq<string>, req: Request, zones: seq<string>, z: nat, tasks: seq<Task>, zoneScan: Scan)
    requires z < |zones|
    requires ZonesScan(listing, req, zones[..z]) == Scan(tasks, None)
    requires zoneScan == YearsScan(listing, req, zones[z], req.last + 1)
    ensures ZonesScan(listing, req, zones[..z + 1]) == Scan(tasks + zoneScan.tasks, zoneScan.failure)
  {
    assert zones[..z + 1][..z] == zones[..z];
  }

  /** A zone's scan fails exactly when the months of some year before `upto` cannot be resolved. */
  lemma YearsScanFails(listing: string -> seq<string>, req: Request, zone: string, upto: int)
    ensures YearsScan(listing, req, zone, upto).failure.Some? <==>
      exists y :: req.first <= y < upto && ResolveMonths(req, y).Err?
  {
    if YearsScan(listing, req, zone, upto).failure.Some? {
      YearsScanFailureYear(listing, req, zone, upto);
    }
    if exists y :: req.first <= y < upto && ResolveMonths(req, y).Err? {
      var y :| req.first <= y < upto && ResolveMonths(req, y).Err?;
      YearsScanFailsFrom(listing, req, zone, upto, y);
    }
  }

  /** A failed zone scan names a year of the range whose months do not resolve. */
  lemma {:induction false} YearsScanFailureYear(listing: string -> seq<string>, req: Request, zone: string, upto: int)
    requires YearsScan(listing, req, zone, upto).failure.Some?
    ensures exists y :: req.first <= y < upto && ResolveMonths(req, y).Err?
    decreases upto - req.first
  {
    YearsScanFailureStep(listing, req, zone, upto);
    if YearsScan(listing, req, zone, upto - 1).failure.Some? {
      YearsScanFailureYear(listing, req, zone, upto - 1);
      var y :| req.first <= y < upto - 1 && ResolveMonths(req, y).Err?;
      assert req.first <= y < upto;
    } else {
      assert req.first <= upto - 1 < upto;
    }
  }

  /** A year of the range whose months do not resolve makes the zone scan fail. */
  lemma YearsScanFailsFrom(listing: string -> seq<string>, req: Request, zone: string, upto: int, y: int)
    requires req.first <= y < upto && ResolveMonths(req, y).Err?
    ensures YearsScan(listing, req, zone, upto).failure.Some?
  {
    YearsScanFailureStep(listing, req, zone, y + 1);
    YearsScanFailureSticks(listing, req, zone, y + 1, upto);
  }

  /** One more year fails a zone's scan iff it had failed before or this year's months do not resolve. */
  lemma YearsScanFailureStep(listing: string -> seq<string>, req: Request, zone: string, upto: int)
    requires upto > req.first
    ensures YearsScan(listing, req, zone, upto).failure.Some? <==>
      YearsScan(listing, req, zone, upto - 1).failure.Some? || ResolveMonths(req, upto - 1).Err?
  {
  }

  /** One more zone fails discovery iff it had failed before or that zone's scan fails. */
  lemma ZonesScanFailureStep(listing: string -> seq<string>, req: Request, zones: seq<string>)
    requires zones != []
    ensures ZonesScan(listing, req, zones).failure.Some? <==>
      ZonesScan(listing, req, zones[..|zones| - 1]).failure.Some? ||
      YearsScan(listing, req, Last(zones), req.last + 1).failure.Some?
  {
  }

  /**
   * Discovery fails exactly when there is a zone and the months of some year
   * of the range cannot be resolved: the resolver does not depend on the zone.
   */
  lemma {:induction false} ZonesScanFails(listing: string -> seq<string>, req: Request, zones: seq<string>)
    ensures ZonesScan(listing, req, zones).failure.Some? <==>
      zones != [] && exists y :: req.first <= y <= req.last && ResolveMonths(req, y).Err?
    decreases |zones|
  {
    if zones != [] {
      ZonesScanFails(listing, req, zones[..|zones| - 1]);
      YearsScanFails(listing, req, Last(zones), req.last + 1);
      ZonesScanFailureStep(listing, req, zones);
    }
  }

  /** Where a discovered task comes from: a requested year, one of its resolved months, and the task's group directory. */
  ghost predicate FromYearMonth(req: Request, t: Task, year: int, month: string)
  {
    req.first <= year <= req.last && ResolveMonths(req, year).Ok? && month in ResolveMonths(req, year).value &&
    t.dir == GroupDir(req.root, year, IndexName(t.key), MonthText(month))
  }

  /** The task's key was returned by the listing of the zone, year and month. */
  ghost predicate ListedUnder(listing: string -> seq<string>, t: Task, zone: string, year: int, month: string)
  {
    t.key in listing(CompositesPrefix(zone, year, month))
  }

  /** The tasks of one year's months are listed requested tiles placed in the directory of their month. */
  lemma {:induction false} MonthsTasksOrigin(listing: string -> seq<string>, req: Request, zone: string, year: int, months: seq<string>)
    ensures forall t :: t in MonthsTasks(listing, req, zone, year, months) ==>
      IsIndexTile(t.key, req.indexes) &&
      exists month :: month in months && ListedUnder(listing, t, zone, year, month) &&
        t.dir == GroupDir(req.root, year, IndexName(t.key), MonthText(month))
    decreases |months|
  {
    if months != [] {
      var init := months[..|months| - 1];
      var month := Last(months);
      MonthsTasksOrigin(listing, req, zone, year, init);
      KeyTasksExactly(listing(CompositesPrefix(zone, year, month)), req.indexes, req.root, year, MonthText(month));
      forall t | t in MonthsTasks(listing, req, zone, year, months)
        ensures IsIndexTile(t.key, req.indexes)
        ensures exists m ::
                  m in months && ListedUnder(listing, t, zone, year, m) &&
                  t.dir == GroupDir(req.root, year, IndexName(t.key), MonthText(m))
      {
        if t in MonthsTasks(listing, req, zone, year, init) {
          var m :| m in init && ListedUnder(listing, t, zone, year, m) &&
            t.dir == GroupDir(req.root, year, IndexName(t.key), MonthText(m));
          assert m in months;
        } else {
          assert month in months && ListedUnder(listing, t, zone, year, month);
        }
      }
    }
  }

  /** Every task of a zone's scan is a listed tile of a requested year and one of its resolved months. */
  lemma {:induction false} YearsScanOrigin(listing: string -> seq<string>, req: Request, zone: string, upto: int)
    requires upto <= req.last + 1
    ensures forall t :: t in YearsScan(listing, req, zone, upto).tasks ==>
      IsIndexTile(t.key, req.indexes) &&
      exists year, month :: FromYearMonth(req, t, year, month) && ListedUnder(listing, t, zone, year, month)
    decreases upto - req.first
  {
    if upto > req.first {
      var prev := YearsScan(listing, req, zone, upto - 1);
      YearsScanOrigin(listing, req, zone, upto - 1);
      var year := upto - 1;
      if prev.failure.None? && ResolveMonths(req, year).Ok? {
        var months := ResolveMonths(req, year).value;
        MonthsTasksOrigin(listing, req, zone, year, months);
        forall t | t in MonthsTasks(listing, req, zone, year, months)
          ensures exists year, month :: FromYearMonth(req, t, year, month) && ListedUnder(listing, t, zone, year, month)
        {
          var m :| m in months && ListedUnder(listing, t, zone, year, m) &&
            t.dir == GroupDir(req.root, year, IndexName(t.key), MonthText(m));
          assert FromYearMonth(req, t, year, m);
        }
      }
    }
  }

  /**
   * Every discovered task is a requested tile, listed under one of the zones
   * and placed in the group directory of a requested year and resolved month.
   */
  lemma ZonesScanOrigin(listing: string -> seq<string>, req: Request, zones: seq<string>)
    ensures forall t :: t in ZonesScan(listing, req, zones).tasks ==>
      IsIndexTile(t.key, req.indexes) &&
      exists zone, year, month :: zone in zones && FromYearMonth(req, t, year, month) && ListedUnder(listing, t, zone, year, month)
  {
    forall t | t in ZonesScan(listing, req, zones).tasks
      ensures IsIndexTile(t.key, req.indexes)
      ensures exists zone, year, month :: zone in zones && FromYearMonth(req, t, year, month) && ListedUnder(listing, t, zone, year, month)
    {
      var zone := ZoneOfTask(listing, req, zones, t);
      YearsScanOrigin(listing, req, zone, req.last + 1);
    }
  }

  /** A discovered task was found by the scan of one of the zones. */
  lemma {:induction false} ZoneOfTask(listing: string -> seq<string>, req: Request, zones: seq<string>, t: Task) returns (zone: string)
    requires t in ZonesScan(listing, req, zones).tasks
    ensures zone in zones && t in YearsScan(listing, req, zone, req.last + 1).tasks
    decreases |zones|
  {
    var init := zones[..|zones| - 1];
    ZonesScanSplit(listing, req, zones, t);
    if t in ZonesScan(listing, req, init).tasks {
      zone := ZoneOfTask(listing, req, init, t);
      InPrefix(zone, init, zones);
    } else {
      zone := Last(zones);
    }
  }

  /** A task discovered over some zones was discovered before the last zone or by the last zone's scan. */
  lemma ZonesScanSplit(listing: string -> seq<string>, req: Request, zones: seq<string>, t: Task)
    requires t in ZonesScan(listing, req, zones).tasks
    ensures zones != []
    ensures t in ZonesScan(listing, req, zones[..|zones| - 1]).tasks || t in YearsScan(listing, req, Last(zones), req.last + 1).tasks
  {
  }

  /** A requested tile listed under a month of the year is among that year's tasks, with its month's directory. */
  lemma {:induction false} MonthsTasksComplete(listing: string -> seq<string>, req: Request, zone: string, year: int,
                                               months: seq<string>, month: string, key: string)
    requires month in months && key in listing(CompositesPrefix(zone, year, month)) && IsIndexTile(key, req.indexes)
    ensures TaskFor(key, req.root, year, MonthText(month)) in MonthsTasks(listing, req, zone, year, months)
    decreases |months|
  {
    var init := months[..|months| - 1];
    if month == Last(months) {
      KeyTasksExactly(listing(CompositesPrefix(zone, year, month)), req.indexes, req.root, year, MonthText(month));
    } else {
      assert month in init by {
        assert months == init + [Last(months)];
      }
      MonthsTasksComplete(listing, req, zone, year, init, month, key);
    }
  }

  /**
   * When a zone's scan does not fail, a requested tile listed under a resolved
   * month of a year of the scan is among its tasks.
   */
  lemma YearsScanComplete(listing: string -> seq<string>, req: Request, zone: string, upto: int,
                          year: int, months: seq<string>, month: string, key: string)
    requires req.first <= year < upto
    requires YearsScan(listing, req, zone, upto).failure.None?
    requires ResolveMonths(req, year) == Ok(months) && month in months
    requires key in listing(CompositesPrefix(zone, year, month)) && IsIndexTile(key, req.indexes)
    ensures TaskFor(key, req.root, year, MonthText(month)) in YearsScan(listing, req, zone, upto).tasks
  {
    var task := TaskFor(key, req.root, year, MonthText(month));
    var before := YearsScan(listing, req, zone, year).tasks;
    var found := MonthsTasks(listing, req, zone, year, months);
    assert YearsScan(listing, req, zone, year).failure.None? by {
      YearsScanFails(listing, req, zone, upto);
      YearsScanFails(listing, req, zone, year);
    }
    YearsScanNext(listing, req, zone, year, before, months);
    MonthsTasksComplete(listing, req, zone, year, months, month, key);
    assert task in before + found;
    YearsScanPrefix(listing, req, zone, year + 1, upto);
    InPrefix(task, before + found, YearsScan(listing, req, zone, upto).tasks);
  }

  /** The tasks found over the first years come first among those found over more years. */
  lemma {:induction false} YearsScanPrefix(listing: string -> seq<string>, req: Request, zone: string, n: int, m: int)
    requires n <= m
    ensures YearsScan(listing, req, zone, n).tasks <= YearsScan(listing, req, zone, m).tasks
    decreases m - n
  {
    if m > n {
      YearsScanPrefix(listing, req, zone, n, m - 1);
    }
  }

  /**
   * When discovery does not fail, a requested tile listed under a resolved
   * month of a year of the range, in one of the zones, is queued.
   */
  lemma ZonesScanComplete(listing: string -> seq<string>, req: Request, zones: seq<string>,
                          zone: string, year: int, months: seq<string>, month: string, key: string)
    requires zone in zones && req.first <= year <= req.last
    requires ZonesScan(listing, req, zones).failure.None?
    requires ResolveMonths(req, year) == Ok(months) && month in months
    requires key in listing(CompositesPrefix(zone, year, month)) && IsIndexTile(key, req.indexes)
    ensures TaskFor(key, req.root, year, MonthText(month)) in ZonesScan(listing, req, zones).tasks
  {
    var i :| 0 <= i < |zones| && zones[i] == zone;
    var task := TaskFor(key, req.root, year, MonthText(month));
    ZonesScanIncludes(listing, req, zones, i);
    YearsScanComplete(listing, req, zone, req.last + 1, year, months, month, key);
    var before := ZonesScan(listing, req, zones[..i]).tasks;
    assert task in before + YearsScan(listing, req, zone, req.last + 1).tasks;
    InPrefix(task, before + YearsScan(listing, req, zone, req.last + 1).tasks, ZonesScan(listing, req, zones).tasks);
  }

  /**
   * When discovery does not fail, no zone's scan fails, and the tasks of each
   * zone follow those of the zones before it in the discovered tasks.
   */
  lemma ZonesScanIncludes(listing: string -> seq<string>, req: Request, zones: seq<string>, i: nat)
    requires i < |zones|
    requires ZonesScan(listing, req, zones).failure.None?
    ensures YearsScan(listing, req, zones[i], req.last + 1).failure.None?
    ensures ZonesScan(listing, req, zones[..i]).tasks + YearsScan(listing, req, zones[i], req.last + 1).tasks <=
      ZonesScan(listing, req, zones).tasks
  {
    var scan := YearsScan(listing, req, zones[i], req.last + 1);
    var before := ZonesScan(listing, req, zones[..i]);
    assert before.failure.None? && scan.failure.None? by {
      ZonesScanFails(listing, req, zones);
      ZonesScanFails(listing, req, zones[..i]);
      YearsScanFails(listing, req, zones[i], req.last + 1);
    }
    ZonesScanNext(listing, req, zones, i, before.tasks, scan);
    ZonesScanPrefix(listing, req, zones, i + 1);
  }

  /** The tasks discovered over the first zones come first among those discovered over all of them. */
  lemma {:induction false} ZonesScanPrefix(listing: string -> seq<string>, req: Request, zones: seq<string>, n: nat)
    requires n <= |zones|
    ensures ZonesScan(listing, req, zones[..n]).tasks <= ZonesScan(listing, req, zones).tasks
    decreases |zones|
  {
    if n < |zones| {
      var init := zones[..|zones| - 1];
      ZonesScanPrefix(listing, req, init, n);
      assert init[..n] == zones[..n];
      ZonesScanGrows(listing, req, zones);
    } else {
      assert zones[..n] == zones;
    }
  }

  /** Scanning one more zone keeps the tasks discovered before it. */
  lemma ZonesScanGrows(listing: string -> seq<string>, req: Request, zones: seq<string>)
    requires zones != []
    ensures ZonesScan(listing, req, zones[..|zones| - 1]).tasks <= ZonesScan(listing, req, zones).tasks
  {
  }

  /** An element of a prefix is an element of the whole sequence. */
  lemma InPrefix<T>(x: T, a: seq<T>, b: seq<T>)
    requires x in a && a <= b
    ensures x in b
  {
    var k :| 0 <= k < |a| && a[k] == x;
    assert b[k] == x;
  }
}

/**
 * The merge phase of `download_tif_files` and `merge_tifs`: for every year
 * of the range, every requested index and every month of that year, an
 * existing group directory holding at least one `.tif` file gets a mosaic
 * `<index>_<year>_<mm>.tif` written into it. The raster compositing itself
 * is not modelled: a mosaic is a new file name in the directory.
 */
module Merge {
  import opened Wrappers
  import opened Text
  import opened Calendar
  import opened LocalFiles
  import opened Discovery

  /** The names in a directory listing that end in `.tif`. */
  function TifNames(names: set<string>): (tifs: set<string>)
    ensures tifs <= names
    ensures forall n :: n in names && EndsWith(n, ".tif") ==> n in tifs
    ensures forall n :: n in tifs ==> EndsWith(n, ".tif")
  {
    set n | n in names && EndsWith(n, ".tif")
  }

  /** One merge job: the group directory and the name of the mosaic written into it. */
  datatype Group = Group(dir: string, name: string)

  /** The path of a group's mosaic. */
  function OutputPath(g: Group): string
  {
    PathJoin(g.dir, g.name)
  }

  /** `merge_tifs` on a directory that exists: a mosaic is written exactly when the directory holds a `.tif` file. */
  function MergeStep(tree: Tree, g: Group): (s: Step)
    requires g.dir in tree
    ensures s.path.Some? <==> TifNames(tree[g.dir]) != {}
    ensures s.path.Some? ==> s.path.value == OutputPath(g) && s.tree == WithFile(tree, g.dir, g.name)
    ensures s.path.None? ==> s.tree == tree
  {
    if TifNames(tree[g.dir]) == {} then Step(None, tree)
    else Step(Some(OutputPath(g)), WithFile(tree, g.dir, g.name))
  }

  /**
   * `merge_tifs(dir, os.path.join(dir, name))`: the `.tif` files listed in the
   * directory are the inputs; with none, nothing is written and the answer is false.
   */
  method MergeTifs(fs: FileSystem, dir: string, name: string) returns (merged: bool)
    requires dir in fs.tree
    modifies fs
    ensures var s := MergeStep(old(fs.tree), Group(dir, name));
      merged == s.path.Some? && fs.tree == s.tree
  {
    var inputs := set n | n in fs.tree[dir] && EndsWith(n, ".tif");
    if inputs == {} {
      return false;
    }
    fs.WriteFile(dir, name);
    merged := true;
  }

  /** One step of the merge loop: the existence check, then `merge_tifs`. */
  function GroupStep(tree: Tree, g: Group): (s: Step)
    ensures s.path.Some? <==> g.dir in tree && TifNames(tree[g.dir]) != {}
    ensures s.tree.Keys == tree.Keys
    ensures Grows(tree, s.tree)
  {
    if g.dir in tree then MergeStep(tree, g) else Step(None, tree)
  }

  /** The groups merged in order; each mosaic written is collected. */
  function GroupsRun(tree: Tree, groups: seq<Group>): (r: Run)
    decreases |groups|
  {
    if groups == [] then Run(tree, [])
    else
      var n := |groups| - 1;
      var prev := GroupsRun(tree, groups[..n]);
      var step := GroupStep(prev.tree, groups[n]);
      Run(step.tree, prev.paths + (if step.path.Some? then [step.path.value] else []))
  }

  /** The group of one index and month of a year, with the mosaic name `<index>_<year>_<mm>.tif`. */
  function MergeGroup(req: Request, year: int, index: string, month: string): Group
  {
    var mm := MonthText(month);
    Group(GroupDir(req.root, year, index, mm), index + "_" + IntText(year) + "_" + mm + ".tif")
  }

  /** The groups of one index over the months of a year, in month order. */
  function IndexGroups(req: Request, year: int, index: string, months: seq<string>): (gs: seq<Group>)
    ensures |gs| == |months|
    decreases |months|
  {
    if months == [] then []
    else IndexGroups(req, year, index, months[..|months| - 1]) + [MergeGroup(req, year, index, Last(months))]
  }

  /** The groups of a year: index by index, each over all the months. */
  function YearGroups(req: Request, year: int, indexes: seq<string>, months: seq<string>): seq<Group>
    decreases |indexes|
  {
    if indexes == [] then []
    else YearGroups(req, year, indexes[..|indexes| - 1], months) + IndexGroups(req, year, Last(indexes), months)
  }

  /** Mosaics written so far, and the month-name error that stopped the merge phase, if any. */
  datatype Merged = Merged(tree: Tree, paths: seq<string>, failure: Option<MonthError>)

  /** The merge phase over the years `req.first .. upto - 1`; an unknown month name stops it. */
  function MergeYears(tree: Tree, req: Request, upto: int): Merged
    decreases upto - req.first
  {
    if upto <= req.first then Merged(tree, [], None)
    else
      var prev := MergeYears(tree, req, upto - 1);
      if prev.failure.Some? then prev
      else match ResolveMonths(req, upto - 1)
        case Err(e) => Merged(prev.tree, prev.paths, Some(e))
        case Ok(months) =>
          var r := GroupsRun(prev.tree, YearGroups(req, upto - 1, req.indexes, months));
          Merged(r.tree, prev.paths + r.paths, None)
  }

  /** Running two lists of groups one after the other is running their concatenation. */
  lemma {:induction false} GroupsRunAppend(tree: Tree, a: seq<Group>, b: seq<Group>)
    ensures var r1 := GroupsRun(tree, a);
      var r2 := GroupsRun(r1.tree, b);
      GroupsRun(tree, a + b) == Run(r2.tree, r1.paths + r2.paths)
    decreases |b|
  {
    if b == [] {
      assert a + b == a;
    } else {
      var n := |b| - 1;
      assert (a + b)[..|a| + n] == a + b[..n];
      assert (a + b)[|a| + n] == b[n];
      GroupsRunAppend(tree, a, b[..n]);
    }
  }

  /** `if os.path.exists(dir)`, then `merge_tifs` on the group's directory and mosaic path. */
  method MergeIfPresent(fs: FileSystem, g: Group) returns (path: Option<string>)
    modifies fs
    ensures Step(path, fs.tree) == GroupStep(old(fs.tree), g)
  {
    path := None;
    if g.dir in fs.tree {
      var merged := MergeTifs(fs, g.dir, g.name);
      if merged {
        path := Some(PathJoin(g.dir, g.name));
      }
    }
  }

  /** The month loop for one index of a year. */
  method MergeIndex(fs: FileSystem, req: Request, year: int, index: string, months: seq<string>)
    returns (paths: seq<string>)
    modifies fs
    ensures Run(fs.tree, paths) == GroupsRun(old(fs.tree), IndexGroups(req, year, index, months))
  {
    paths := [];
    for k := 0 to |months|
      invariant Run(fs.tree, paths) == GroupsRun(old(fs.tree), IndexGroups(req, year, index, months[..k]))
    {
      ghost var before := fs.tree;
      var path := MergeIfPresent(fs, MergeGroup(req, year, index, months[k]));
      IndexRunNext(old(fs.tree), req, year, index, months, k, Run(before, paths), Step(path, fs.tree));
      if path.Some? {
        paths := paths + [path.value];
      }
    }
    assert months[..|months|] == months;
  }

  /** Merging the group of one more month extends the index's run by that group's step. */
  lemma IndexRunNext(tree: Tree, req: Request, year: int, index: string, months: seq<string>, k: nat, prev: Run, step: Step)
    requires k < |months|
    requires prev == GroupsRun(tree, IndexGroups(req, year, index, months[..k]))
    requires step == GroupStep(prev.tree, MergeGroup(req, year, index, months[k]))
    ensures GroupsRun(tree, IndexGroups(req, year, index, months[..k + 1])) ==
      Run(step.tree, prev.paths + (if step.path.Some? then [step.path.value] else []))
  {
    IndexGroupsNext(req, year, index, months, k);
    GroupsRunNext(tree, IndexGroups(req, year, index, months[..k]), MergeGroup(req, year, index, months[k]));
  }

  /** The groups of one more month are those before it followed by its own group. */
  lemma IndexGroupsNext(req: Request, year: int, index: string, months: seq<string>, k: nat)
    requires k < |months|
    ensures IndexGroups(req, year, index, months[..k + 1]) ==
      IndexGroups(req, year, index, months[..k]) + [MergeGroup(req, year, index, months[k])]
  {
    assert months[..k + 1][..k] == months[..k];
  }

  /** Running one more group appends that group's step to the run. */
  lemma GroupsRunNext(tree: Tree, groups: seq<Group>, g: Group)
    ensures var prev := GroupsRun(tree, groups);
      var step := GroupStep(prev.tree, g);
      GroupsRun(tree, groups + [g]) == Run(step.tree, prev.paths + (if step.path.Some? then [step.path.value] else []))
  {
    assert (groups + [g])[..|groups|] == groups;
  }

  /** The index loop for one year. */
  method MergeYear(fs: FileSystem, req: Request, year: int, months: seq<string>) returns (paths: seq<string>)
    modifies fs
    ensures Run(fs.tree, paths) == GroupsRun(old(fs.tree), YearGroups(req, year, req.indexes, months))
  {
    paths := [];
    for j := 0 to |req.indexes|
      invariant Run(fs.tree, paths) == GroupsRun(old(fs.tree), YearGroups(req, year, req.indexes[..j], months))
    {
      assert req.indexes[..j + 1][..j] == req.indexes[..j];
      var found := MergeIndex(fs, req, year, req.indexes[j], months);
      GroupsRunAppend(old(fs.tree), YearGroups(req, year, req.indexes[..j], months), IndexGroups(req, year, req.indexes[j], months));
      paths := paths + found;
    }
    assert req.indexes[..|req.indexes|] == req.indexes;
  }

  /**
   * One pass of the year loop of the merge phase: the year's months are
   * resolved and every index is merged; an unknown month name ends the phase.
   */
  method MergeYearStep(fs: FileSystem, req: Request, year: int, ghost start: Tree, ghost paths: seq<string>)
    returns (found: seq<string>, failure: Option<MonthError>)
    requires req.first <= year <= req.last
    requires MergeYears(start, req, year) == Merged(fs.tree, paths, None)
    modifies fs
    ensures failure.Some? ==> MergeYears(start, req, req.last + 1) == Merged(fs.tree, paths, failure)
    ensures failure.None? ==> MergeYears(start, req, year + 1) == Merged(fs.tree, paths + found, None)
  {
    var resolved := ResolveMonths(req, year);
    if resolved.Err? {
      MergeYearsStops(start, req, year, Merged(fs.tree, paths, Some(resolved.error)));
      return [], Some(resolved.error);
    }
    MergeYearsNext(start, req, year, resolved.value);
    found := MergeYear(fs, req, year, resolved.value);
    failure := None;
  }

  /** The year loop of the merge phase. */
  method MergePhase(fs: FileSystem, req: Request) returns (paths: seq<string>, failure: Option<MonthError>)
    modifies fs
    ensures Merged(fs.tree, paths, failure) == MergeYears(old(fs.tree), req, req.last + 1)
  {
    paths := [];
    var year := req.first;
    while year <= req.last
      invariant req.first <= year <= req.last + 1 || year == req.first
      invariant MergeYears(old(fs.tree), req, year) == Merged(fs.tree, paths, None)
      decreases req.last + 1 - year
    {
      var found, yearFailure := MergeYearStep(fs, req, year, old(fs.tree), paths);
      if yearFailure.Some? {
        return paths, yearFailure;
      }
      paths := paths + found;
      year := year + 1;
    }
    failure := None;
    MergeYearsEmptyRange(old(fs.tree), req, year);
  }

  /** When the year loop does not run, or has run to the end, the merge so far is the whole merge phase. */
  lemma MergeYearsEmptyRange(tree: Tree, req: Request, year: int)
    requires year == req.last + 1 || (year == req.first && req.first > req.last)
    ensures MergeYears(tree, req, req.last + 1) == MergeYears(tree, req, year)
  {
  }

  /** Once the merge phase has failed, later years change nothing. */
  lemma {:induction false} MergeYearsFailureSticks(tree: Tree, req: Request, n: int, m: int)
    requires n <= m
    requires MergeYears(tree, req, n).failure.Some?
    ensures MergeYears(tree, req, m) == MergeYears(tree, req, n)
    decreases m - n
  {
    if m > n {
      MergeYearsFailureSticks(tree, req, n, m - 1);
    }
  }

  /** A month-name error in some year is the outcome of the whole merge phase. */
  lemma MergeYearsStops(tree: Tree, req: Request, year: int, stopped: Merged)
    requires req.first <= year <= req.last
    requires MergeYears(tree, req, year).failure.None?
    requires ResolveMonths(req, year).Err?
    requires stopped == MergeYears(tree, req, year).(failure := Some(ResolveMonths(req, year).error))
    ensures MergeYears(tree, req, req.last + 1) == stopped
  {
    assert MergeYears(tree, req, year + 1) == stopped;
    MergeYearsFailureSticks(tree, req, year + 1, req.last + 1);
  }

  /** Merging a group again after it was merged writes the same mosaic and changes nothing more. */
  lemma MergeAgain(tree: Tree, g: Group)
    requires GroupStep(tree, g).path.Some?
    ensures var s := GroupStep(tree, g);
      GroupStep(s.tree, g) == s
  {
    var s := GroupStep(tree, g);
    TifNamesGrow(tree[g.dir], s.tree[g.dir]);
    assert WithFile(s.tree, g.dir, g.name) == s.tree;
  }

  /** The `.tif` names of a directory can only grow when its files do. */
  lemma TifNamesGrow(a: set<string>, b: set<string>)
    requires a <= b
    ensures TifNames(a) <= TifNames(b)
  {
  }

  /** A merge run creates no directory and removes no file. */
  lemma {:induction false} GroupsRunGrows(tree: Tree, groups: seq<Group>)
    ensures var r := GroupsRun(tree, groups);
      r.tree.Keys == tree.Keys && Grows(tree, r.tree)
    decreases |groups|
  {
    if groups != [] {
      GroupsRunGrows(tree, groups[..|groups| - 1]);
    }
  }

  /**
   * A group whose directory exists and holds a `.tif` file when the run
   * starts gets its mosaic, whatever the groups before it did.
   */
  lemma {:induction false} ReadyGroupMerged(tree: Tree, groups: seq<Group>, i: nat)
    requires i < |groups|
    requires groups[i].dir in tree && TifNames(tree[groups[i].dir]) != {}
    ensures OutputPath(groups[i]) in GroupsRun(tree, groups).paths
    decreases |groups|
  {
    var n := |groups| - 1;
    var prev := GroupsRun(tree, groups[..n]);
    if i < n {
      assert groups[..n][i] == groups[i];
      ReadyGroupMerged(tree, groups[..n], i);
    } else {
      GroupsRunGrows(tree, groups[..n]);
      TifNamesGrow(tree[groups[i].dir], prev.tree[groups[i].dir]);
    }
  }

  /** A run writes mosaics only into directories that already held a `.tif` file. */
  lemma {:induction false} TifsOnlyWhereTifs(tree: Tree, groups: seq<Group>, d: string)
    requires d in GroupsRun(tree, groups).tree && TifNames(GroupsRun(tree, groups).tree[d]) != {}
    ensures d in tree && TifNames(tree[d]) != {}
    decreases |groups|
  {
    if groups != [] {
      var n := |groups| - 1;
      var prev := GroupsRun(tree, groups[..n]);
      var step := GroupStep(prev.tree, groups[n]);
      assert d in prev.tree && TifNames(prev.tree[d]) != {} by {
        if step.path.Some? && d == groups[n].dir {
        } else if step.path.Some? {
          assert step.tree[d] == prev.tree[d];
        }
      }
      TifsOnlyWhereTifs(tree, groups[..n], d);
    }
  }

  /**
   * Every mosaic of a run belongs to one of its groups whose directory existed
   * and held a `.tif` file when the run started.
   */
  lemma {:induction false} MosaicsFromExistingGroups(tree: Tree, groups: seq<Group>)
    ensures forall p :: p in GroupsRun(tree, groups).paths ==>
      exists g :: g in groups && g.dir in tree && TifNames(tree[g.dir]) != {} && p == OutputPath(g)
    decreases |groups|
  {
    if groups != [] {
      var n := |groups| - 1;
      var prev := GroupsRun(tree, groups[..n]);
      MosaicsFromExistingGroups(tree, groups[..n]);
      forall p | p in GroupsRun(tree, groups).paths
        ensures exists g :: g in groups && g.dir in tree && TifNames(tree[g.dir]) != {} && p == OutputPath(g)
      {
        if p in prev.paths {
          var g :| g in groups[..n] && g.dir in tree && TifNames(tree[g.dir]) != {} && p == OutputPath(g);
          assert g in groups;
        } else {
          assert groups[n] in groups;
          TifsOnlyWhereTifs(tree, groups[..n], groups[n].dir);
        }
      }
    }
  }

  /** The merge phase writes mosaics only into directories that already held a `.tif` file. */
  lemma {:induction false} MergeYearsTifsOnlyWhereTifs(tree: Tree, req: Request, upto: int, d: string)
    requires d in MergeYears(tree, req, upto).tree && TifNames(MergeYears(tree, req, upto).tree[d]) != {}
    ensures d in tree && TifNames(tree[d]) != {}
    decreases upto - req.first
  {
    if upto > req.first {
      var prev := MergeYears(tree, req, upto - 1);
      if prev.failure.None? && ResolveMonths(req, upto - 1).Ok? {
        TifsOnlyWhereTifs(prev.tree, YearGroups(req, upto - 1, req.indexes, ResolveMonths(req, upto - 1).value), d);
      }
      MergeYearsTifsOnlyWhereTifs(tree, req, upto - 1, d);
    }
  }

  /**
   * Every mosaic of the merge phase is the mosaic of a requested index and a
   * resolved month of a year of the range, whose group directory existed and
   * held a `.tif` file when the phase started: a missing or `.tif`-less
   * directory contributes nothing.
   */
  lemma {:induction false} MergeYearsFromTifs(tree: Tree, req: Request, upto: int)
    ensures forall p :: p in MergeYears(tree, req, upto).paths ==>
      exists year, index, month :: PhaseGroup(req, upto, year, index, month) &&
        ReadyMosaic(tree, MergeGroup(req, year, index, month), p)
    decreases upto - req.first
  {
    if upto > req.first {
      var prev := MergeYears(tree, req, upto - 1);
      MergeYearsFromTifs(tree, req, upto - 1);
      forall p | p in prev.paths
        ensures exists year, index, month :: PhaseGroup(req, upto, year, index, month) && ReadyMosaic(tree, MergeGroup(req, year, index, month), p)
      {
        var year, index, month :| PhaseGroup(req, upto - 1, year, index, month) &&
          ReadyMosaic(tree, MergeGroup(req, year, index, month), p);
        assert PhaseGroup(req, upto, year, index, month);
      }
      if prev.failure.None? && ResolveMonths(req, upto - 1).Ok? {
        var months := ResolveMonths(req, upto - 1).value;
        var groups := YearGroups(req, upto - 1, req.indexes, months);
        MosaicsFromExistingGroups(prev.tree, groups);
        YearGroupsOrigin(req, upto - 1, req.indexes, months);
        forall p | p in GroupsRun(prev.tree, groups).paths
          ensures exists year, index, month :: PhaseGroup(req, upto, year, index, month) && ReadyMosaic(tree, MergeGroup(req, year, index, month), p)
        {
          var g :| g in groups && g.dir in prev.tree && TifNames(prev.tree[g.dir]) != {} && p == OutputPath(g);
          var index, month :| index in req.indexes && month in months && g == MergeGroup(req, upto - 1, index, month);
          MergeYearsTifsOnlyWhereTifs(tree, req, upto - 1, g.dir);
          assert PhaseGroup(req, upto, upto - 1, index, month);
        }
      }
    }
  }

  /** The group of `index` and `month` in `year` is one the merge phase over `req.first .. upto - 1` visits. */
  ghost predicate PhaseGroup(req: Request, upto: int, year: int, index: string, month: string)
  {
    req.first <= year < upto && ResolveMonths(req, year).Ok? &&
    index in req.indexes && month in ResolveMonths(req, year).value
  }

  /** `p` is the mosaic of `g`, whose directory exists in `tree` and holds a `.tif` file. */
  ghost predicate ReadyMosaic(tree: Tree, g: Group, p: string)
  {
    g.dir in tree && TifNames(tree[g.dir]) != {} && p == OutputPath(g)
  }

  /** The merge phase creates no directory and removes no file. */
  lemma {:induction false} MergeYearsGrows(tree: Tree, req: Request, upto: int)
    ensures var m := MergeYears(tree, req, upto);
      m.tree.Keys == tree.Keys && Grows(tree, m.tree)
    decreases upto - req.first
  {
    if upto > req.first {
      var prev := MergeYears(tree, req, upto - 1);
      MergeYearsGrows(tree, req, upto - 1);
      if prev.failure.None? && ResolveMonths(req, upto - 1).Ok? {
        GroupsRunGrows(prev.tree, YearGroups(req, upto - 1, req.indexes, ResolveMonths(req, upto - 1).value));
      }
    }
  }

  /** Later years only add mosaics after those already collected. */
  lemma {:induction false} MergeYearsPrefix(tree: Tree, req: Request, n: int, m: int)
    requires n <= m
    ensures MergeYears(tree, req, n).paths <= MergeYears(tree, req, m).paths
    decreases m - n
  {
    if m > n {
      MergeYearsPrefix(tree, req, n, m - 1);
    }
  }

  /** The group of a requested index and a month of the year is one of the year's groups. */
  lemma {:induction false} GroupOfYear(req: Request, year: int, indexes: seq<string>, months: seq<string>, index: string, month: string)
    requires index in indexes && month in months
    ensures MergeGroup(req, year, index, month) in YearGroups(req, year, indexes, months)
    decreases |indexes|
  {
    var n := |indexes| - 1;
    if index == indexes[n] {
      GroupOfIndex(req, year, index, months, month);
    } else {
      assert index in indexes[..n] by {
        assert indexes == indexes[..n] + [indexes[n]];
      }
      GroupOfYear(req, year, indexes[..n], months, index, month);
    }
  }

  /** The group of a month of the year is one of the index's groups. */
  lemma {:induction false} GroupOfIndex(req: Request, year: int, index: string, months: seq<string>, month: string)
    requires month in months
    ensures MergeGroup(req, year, index, month) in IndexGroups(req, year, index, months)
    decreases |months|
  {
    var n := |months| - 1;
    if month != months[n] {
      assert month in months[..n] by {
        assert months == months[..n] + [months[n]];
      }
      GroupOfIndex(req, year, index, months[..n], month);
    }
  }

  /** Every group of a year is the group of one of the indexes and one of the months. */
  lemma {:induction false} YearGroupsOrigin(req: Request, year: int, indexes: seq<string>, months: seq<string>)
    ensures forall g :: g in YearGroups(req, year, indexes, months) ==>
      exists index, month :: index in indexes && month in months && g == MergeGroup(req, year, index, month)
    decreases |indexes|
  {
    if indexes != [] {
      var n := |indexes| - 1;
      YearGroupsOrigin(req, year, indexes[..n], months);
      IndexGroupsOrigin(req, year, indexes[n], months);
      forall g | g in YearGroups(req, year, indexes, months)
        ensures exists index, month :: index in indexes && month in months && g == MergeGroup(req, year, index, month)
      {
        if g in YearGroups(req, year, indexes[..n], months) {
          var index, month :| index in indexes[..n] && month in months && g == MergeGroup(req, year, index, month);
          InPrefix(index, indexes[..n], indexes);
        } else {
          var month :| month in months && g == MergeGroup(req, year, indexes[n], month);
          assert indexes[n] in indexes;
        }
      }
    }
  }

  /** Every group of an index is the group of one of the months. */
  lemma {:induction false} IndexGroupsOrigin(req: Request, year: int, index: string, months: seq<string>)
    ensures forall g :: g in IndexGroups(req, year, index, months) ==>
      exists month :: month in months && g == MergeGroup(req, year, index, month)
    decreases |months|
  {
    if months != [] {
      var n := |months| - 1;
      IndexGroupsOrigin(req, year, index, months[..n]);
      forall g | g in IndexGroups(req, year, index, months)
        ensures exists month :: month in months && g == MergeGroup(req, year, index, month)
      {
        if g in IndexGroups(req, year, index, months[..n]) {
          var month :| month in months[..n] && g == MergeGroup(req, year, index, month);
          InPrefix(month, months[..n], months);
        } else {
          assert g == MergeGroup(req, year, index, months[n]);
        }
      }
    }
  }

  /**
   * When the merge phase completes, every group of a year of the range whose
   * directory holds a `.tif` file at the start gets its mosaic.
   */
  lemma ReadyYearGroupMerged(tree: Tree, req: Request, year: int, months: seq<string>, g: Group)
    requires req.first <= year <= req.last
    requires ResolveMonths(req, year) == Ok(months)
    requires g in YearGroups(req, year, req.indexes, months)
    requires g.dir in tree && TifNames(tree[g.dir]) != {}
    requires MergeYears(tree, req, req.last + 1).failure.None?
    ensures OutputPath(g) in MergeYears(tree, req, req.last + 1).paths
  {
    var prev := MergeYears(tree, req, year);
    if prev.failure.Some? {
      MergeYearsFailureSticks(tree, req, year, req.last + 1);
      assert false;
    }
    MergeYearsGrows(tree, req, year);
    TifNamesGrow(tree[g.dir], prev.tree[g.dir]);
    var groups := YearGroups(req, year, req.indexes, months);
    var i :| 0 <= i < |groups| && groups[i] == g;
    ReadyGroupMerged(prev.tree, groups, i);
    var r := GroupsRun(prev.tree, groups);
    MergeYearsNext(tree, req, year, months);
    var next := MergeYears(tree, req, year + 1);
    assert next.paths == prev.paths + r.paths;
    assert OutputPath(g) in next.paths;
    MergeYearsPrefix(tree, req, year + 1, req.last + 1);
    InPrefix(OutputPath(g), next.paths, MergeYears(tree, req, req.last + 1).paths);
  }

  /** A year whose months resolve appends the mosaics of its groups. */
  lemma MergeYearsNext(tree: Tree, req: Request, year: int, months: seq<string>)
    requires req.first <= year
    requires MergeYears(tree, req, year).failure.None?
    requires ResolveMonths(req, year) == Ok(months)
    ensures var prev := MergeYears(tree, req, year);
      var r := GroupsRun(prev.tree, YearGroups(req, year, req.indexes, months));
      MergeYears(tree, req, year + 1) == Merged(r.tree, prev.paths + r.paths, None)
  {
  }

  /** With a plain root and index, a mosaic is `root/year/index/mm/index_year_mm.tif`. */
  lemma MosaicPathLayout(req: Request, year: int, index: string, month: string)
    requires month in Months
    requires req.root != [] && req.root[|req.root| - 1] != '/'
    requires index != [] && '/' !in index
    ensures var mm := MonthNumber(month).digits;
      OutputPath(MergeGroup(req, year, index, month)) ==
        (req.root + "/" + IntText(year) + "/" + index + "/" + mm) + "/" + (index + "_" + IntText(year) + "_" + mm + ".tif")
  {
    var yt, mm := IntText(year), MonthText(month);
    MonthDigitsPlain(month);
    ThreeSegments(req.root, yt, index, mm);
    assert index[0] in index;
  }

  /**
   * The merge phase fails exactly when the months of some year of the range
   * cannot be resolved.
   */
  lemma MergeYearsFails(tree: Tree, req: Request, upto: int)
    ensures MergeYears(tree, req, upto).failure.Some? <==>
      exists y :: req.first <= y < upto && ResolveMonths(req, y).Err?
  {
    if MergeYears(tree, req, upto).failure.Some? {
      MergeYearsFailureYear(tree, req, upto);
    }
    if exists y :: req.first <= y < upto && ResolveMonths(req, y).Err? {
      var y :| req.first <= y < upto && ResolveMonths(req, y).Err?;
      MergeYearsFailsFrom(tree, req, upto, y);
    }
  }

  /** A failed merge phase names a year of the range whose months do not resolve. */
  lemma {:induction false} MergeYearsFailureYear(tree: Tree, req: Request, upto: int)
    requires MergeYears(tree, req, upto).failure.Some?
    ensures exists y :: req.first <= y < upto && ResolveMonths(req, y).Err?
    decreases upto - req.first
  {
    MergeYearsFailureStep(tree, req, upto);
    if MergeYears(tree, req, upto - 1).failure.Some? {
      MergeYearsFailureYear(tree, req, upto - 1);
      var y :| req.first <= y < upto - 1 && ResolveMonths(req, y).Err?;
      assert req.first <= y < upto;
    } else {
      assert req.first <= upto - 1 < upto;
    }
  }

  /** A year of the range whose months do not resolve makes the merge phase fail. */
  lemma MergeYearsFailsFrom(tree: Tree, req: Request, upto: int, y: int)
    requires req.first <= y < upto && ResolveMonths(req, y).Err?
    ensures MergeYears(tree, req, upto).failure.Some?
  {
    MergeYearsFailureStep(tree, req, y + 1);
    MergeYearsFailureSticks(tree, req, y + 1, upto);
  }

  /** One more year fails the merge phase iff it had failed before or this year's months do not resolve. */
  lemma MergeYearsFailureStep(tree: Tree, req: Request, upto: int)
    requires upto > req.first
    ensures MergeYears(tree, req, upto).failure.Some? <==>
      MergeYears(tree, req, upto - 1).failure.Some? || ResolveMonths(req, upto - 1).Err?
  {
  }
}

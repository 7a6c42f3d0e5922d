/**
 * The download coordinator: `download_tif_file` (local name derivation and
 * skip-if-present fetch) and the result collection of `parallel_download`.
 * The worker pool is replaced by running the tasks one after another in
 * submission order; a fetch that raises is decided by a per-task oracle.
 */
module Download {
  import opened Wrappers
  import opened Text
  import opened LocalFiles
  import opened Discovery

  /** The key's first segment, `_`, and the key's last segment. */
  function LocalName(key: string): string
  {
    var parts := Split(key, '/');
    parts[0] + "_" + Last(parts)
  }

  /** `os.path.join(download_dir, unique_file_name)`. */
  function LocalPath(task: Task): string
  {
    PathJoin(task.dir, LocalName(task.key))
  }

  /** The local name is a single path segment, so the file lands directly in the task's directory. */
  lemma LocalNameIsSegment(key: string)
    ensures '/' !in LocalName(key) && LocalName(key) != []
    ensures LocalPath(Task(key, "")) == LocalName(key)
  {
    var parts := Split(key, '/');
    SplitPiecesPlain(key, '/');
    assert parts[0] in parts && Last(parts) in parts;
  }

  /** For a key `<first>/<middle>/<last>` the local name is `<first>_<last>`. */
  lemma LocalNameOf(first: string, middle: string, last: string)
    requires '/' !in first && '/' !in last
    ensures LocalName(first + "/" + middle + "/" + last) == first + "_" + last
  {
    assert first + "/" + middle + "/" + last == first + ['/'] + (middle + ['/'] + last);
    SplitConcat(first, middle + ['/'] + last, '/');
    SplitConcat(middle, last, '/');
    SplitWithoutSeparator(first, '/');
    SplitWithoutSeparator(last, '/');
  }

  /**
   * Keys from different top-level folders (zones) with the same base name
   * get different local names.
   */
  lemma LocalNamesDiffer(key1: string, key2: string)
    requires Last(Split(key1, '/')) == Last(Split(key2, '/'))
    requires Split(key1, '/')[0] != Split(key2, '/')[0]
    ensures LocalName(key1) != LocalName(key2)
  {
    var a, b := Split(key1, '/')[0], Split(key2, '/')[0];
    var tail := "_" + Last(Split(key1, '/'));
    assert LocalName(key1) == a + tail && LocalName(key2) == b + tail;
    if |a| == |b| {
      assert (a + tail)[..|a|] == a;
      assert (b + tail)[..|b|] == b;
    }
  }

  /** A key ending in `.tif` gives a local name ending in `.tif`. */
  lemma LocalNameKeepsExtension(key: string)
    requires EndsWith(key, ".tif")
    ensures EndsWith(LocalName(key), ".tif")
  {
    var parts := Split(key, '/');
    JoinSplit(key, '/');
    LastPieceEnds(parts, key, ".tif");
  }

  /** A suffix free of `/` of the joined text is a suffix of its last piece. */
  lemma {:induction false} LastPieceEnds(parts: seq<string>, s: string, suffix: string)
    requires |parts| >= 1 && JoinWith(parts, '/') == s
    requires EndsWith(s, suffix) && '/' !in suffix
    ensures EndsWith(Last(parts), suffix)
    decreases |parts|
  {
    if |parts| > 1 {
      var rest := JoinWith(parts[1..], '/');
      assert s == parts[0] + "/" + rest;
      assert s[|s| - |rest| - 1] == '/';
      assert |suffix| <= |rest|;
      assert rest[|rest| - |suffix|..] == s[|s| - |suffix|..];
      assert Last(parts[1..]) == Last(parts);
      LastPieceEnds(parts[1..], rest, suffix);
    }
  }

  /** The outcome of `download_tif_file`: the path, or `None` when the fetch raised. */
  function DownloadStep(tree: Tree, task: Task, fetchFails: bool): (s: Step)
    ensures s.path.Some? <==> HasFile(tree, task.dir, LocalName(task.key)) || !fetchFails
    ensures s.path.Some? ==> s.path.value == LocalPath(task) && HasFile(s.tree, task.dir, LocalName(task.key))
    ensures HasFile(tree, task.dir, LocalName(task.key)) || fetchFails ==> s.tree == tree
    ensures s.tree == tree || s.tree == WithFile(tree, task.dir, LocalName(task.key))
  {
    var name := LocalName(task.key);
    if HasFile(tree, task.dir, name) then Step(Some(LocalPath(task)), tree)
    else if fetchFails then Step(None, tree)
    else Step(Some(LocalPath(task)), WithFile(tree, task.dir, name))
  }

  /**
   * `download_tif_file`: derive the local name and fetch only when no file
   * is there yet. The fetch either raises (`fetchFails`) or writes the file.
   */
  method DownloadTifFile(fs: FileSystem, task: Task, fetchFails: bool) returns (path: Option<string>)
    modifies fs
    ensures Step(path, fs.tree) == DownloadStep(old(fs.tree), task, fetchFails)
  {
    var name := LocalName(task.key);
    var localPath := PathJoin(task.dir, name);
    if task.dir in fs.tree && name in fs.tree[task.dir] {
      return Some(localPath);
    }
    if fetchFails {
      return None;
    }
    fs.WriteFile(task.dir, name);
    path := Some(localPath);
  }

  /** Whether the fetch of the `i`-th task raises; tasks past the end of the oracle succeed. */
  function FetchFails(fails: seq<bool>, i: nat): bool
  {
    i < |fails| && fails[i]
  }

  /** The tasks run in submission order; each success appends its path. */
  function DownloadRun(tree: Tree, tasks: seq<Task>, fails: seq<bool>): (r: Run)
    ensures |r.paths| <= |tasks|
    decreases |tasks|
  {
    if tasks == [] then Run(tree, [])
    else
      var n := |tasks| - 1;
      var prev := DownloadRun(tree, tasks[..n], fails);
      var step := DownloadStep(prev.tree, tasks[n], FetchFails(fails, n));
      Run(step.tree, prev.paths + (if step.path.Some? then [step.path.value] else []))
  }

  /** The local paths of the tasks, in order. */
  function LocalPaths(tasks: seq<Task>): (paths: seq<string>)
    ensures |paths| == |tasks|
    decreases |tasks|
  {
    if tasks == [] then [] else LocalPaths(tasks[..|tasks| - 1]) + [LocalPath(tasks[|tasks| - 1])]
  }

  /** `a` is `b` with some elements left out, order kept. */
  predicate Subsequence<T(==)>(a: seq<T>, b: seq<T>)
    decreases |b|
  {
    a == [] ||
    (b != [] &&
     ((Last(a) == Last(b) && Subsequence(a[..|a| - 1], b[..|b| - 1])) || Subsequence(a, b[..|b| - 1])))
  }

  /** `parallel_download`: run every task, collecting the paths of those that did not raise. */
  method ParallelDownload(fs: FileSystem, tasks: seq<Task>, fails: seq<bool>) returns (paths: seq<string>)
    modifies fs
    ensures Run(fs.tree, paths) == DownloadRun(old(fs.tree), tasks, fails)
  {
    paths := [];
    for i := 0 to |tasks|
      invariant Run(fs.tree, paths) == DownloadRun(old(fs.tree), tasks[..i], fails)
    {
      assert tasks[..i + 1][..i] == tasks[..i];
      var path := DownloadTifFile(fs, tasks[i], FetchFails(fails, i));
      if path.Some? {
        paths := paths + [path.value];
      }
    }
    assert tasks[..|tasks|] == tasks;
  }

  /** The collected paths are task paths in submission order: a subsequence of all task paths. */
  lemma {:induction false} CollectedInSubmissionOrder(tree: Tree, tasks: seq<Task>, fails: seq<bool>)
    ensures Subsequence(DownloadRun(tree, tasks, fails).paths, LocalPaths(tasks))
    decreases |tasks|
  {
    if tasks != [] {
      var n := |tasks| - 1;
      CollectedInSubmissionOrder(tree, tasks[..n], fails);
      var prev := DownloadRun(tree, tasks[..n], fails);
      var r := DownloadRun(tree, tasks, fails);
      var all := LocalPaths(tasks);
      assert all[..n] == LocalPaths(tasks[..n]) && Last(all) == LocalPath(tasks[n]);
      if |r.paths| == |prev.paths| + 1 {
        assert r.paths[..|r.paths| - 1] == prev.paths && Last(r.paths) == LocalPath(tasks[n]);
      } else {
        assert r.paths == prev.paths;
      }
    }
  }

  /**
   * A task whose fetch does not raise is always collected and its file is
   * present afterwards, whatever happened to the tasks before it.
   */
  lemma {:induction false} SucceedingTaskCollected(tree: Tree, tasks: seq<Task>, fails: seq<bool>, i: nat)
    requires i < |tasks| && !FetchFails(fails, i)
    ensures var r := DownloadRun(tree, tasks, fails);
      LocalPath(tasks[i]) in r.paths && HasFile(r.tree, tasks[i].dir, LocalName(tasks[i].key))
    decreases |tasks|
  {
    var n := |tasks| - 1;
    var r := DownloadRun(tree, tasks, fails);
    var prev := DownloadRun(tree, tasks[..n], fails);
    if i < n {
      SucceedingTaskCollected(tree, tasks[..n], fails, i);
      assert tasks[..n][i] == tasks[i];
      assert LocalPath(tasks[i]) in prev.paths;
      assert prev.paths <= r.paths;
    } else {
      assert r.paths == prev.paths + [LocalPath(tasks[i])];
    }
  }

  /** A task whose file is already present is skipped: nothing is fetched and the same path is returned. */
  lemma PresentFileSkipped(tree: Tree, task: Task, fetchFails: bool)
    requires HasFile(tree, task.dir, LocalName(task.key))
    ensures DownloadStep(tree, task, fetchFails) == Step(Some(LocalPath(task)), tree)
  {
  }

  /** A second download of the same task, after one that succeeded, changes nothing and returns the same path. */
  lemma DownloadTwice(tree: Tree, task: Task, fails1: bool, fails2: bool)
    requires DownloadStep(tree, task, fails1).path.Some?
    ensures var s := DownloadStep(tree, task, fails1);
      DownloadStep(s.tree, task, fails2) == s
  {
  }

  /** When every task's file is already present, a run fetches nothing and collects every path. */
  lemma {:induction false} AllPresentRun(tree: Tree, tasks: seq<Task>, fails: seq<bool>)
    requires forall i :: 0 <= i < |tasks| ==> HasFile(tree, tasks[i].dir, LocalName(tasks[i].key))
    ensures DownloadRun(tree, tasks, fails) == Run(tree, LocalPaths(tasks))
    decreases |tasks|
  {
    if tasks != [] {
      var n := |tasks| - 1;
      AllPresentRun(tree, tasks[..n], fails);
    }
  }

  /**
   * Re-running the coordinator after a run in which no fetch raised makes no
   * fetch and changes nothing: every path is collected both times.
   */
  lemma RerunChangesNothing(tree: Tree, tasks: seq<Task>, fails: seq<bool>, again: seq<bool>)
    requires forall i :: 0 <= i < |tasks| ==> !FetchFails(fails, i)
    ensures var r := DownloadRun(tree, tasks, fails);
      r.paths == LocalPaths(tasks) && DownloadRun(r.tree, tasks, again) == r
  {
    var r := DownloadRun(tree, tasks, fails);
    forall i | 0 <= i < |tasks|
      ensures HasFile(r.tree, tasks[i].dir, LocalName(tasks[i].key))
    {
      SucceedingTaskCollected(tree, tasks, fails, i);
    }
    AllSucceedCollected(tree, tasks, fails);
    AllPresentRun(r.tree, tasks, again);
  }

  /** With no raising fetch, every task's path is collected, in order. */
  lemma {:induction false} AllSucceedCollected(tree: Tree, tasks: seq<Task>, fails: seq<bool>)
    requires forall i :: 0 <= i < |tasks| ==> !FetchFails(fails, i)
    ensures DownloadRun(tree, tasks, fails).paths == LocalPaths(tasks)
    decreases |tasks|
  {
    if tasks != [] {
      var n := |tasks| - 1;
      AllSucceedCollected(tree, tasks[..n], fails);
    }
  }

  /** The local paths of the tasks whose fetch does not raise, in submission order. */
  function SucceedingPaths(tasks: seq<Task>, fails: seq<bool>): (paths: seq<string>)
    ensures |paths| <= |tasks|
    decreases |tasks|
  {
    if tasks == [] then []
    else
      var n := |tasks| - 1;
      SucceedingPaths(tasks[..n], fails) + (if FetchFails(fails, n) then [] else [LocalPath(tasks[n])])
  }

  /** A file present after a run was there before or is the local file of one of the tasks. */
  lemma {:induction false} RunFiles(tree: Tree, tasks: seq<Task>, fails: seq<bool>)
    ensures forall d, name :: HasFile(DownloadRun(tree, tasks, fails).tree, d, name) ==>
      HasFile(tree, d, name) || exists j :: 0 <= j < |tasks| && d == tasks[j].dir && name == LocalName(tasks[j].key)
    decreases |tasks|
  {
    if tasks != [] {
      var n := |tasks| - 1;
      RunFiles(tree, tasks[..n], fails);
      forall d, name | HasFile(DownloadRun(tree, tasks, fails).tree, d, name) && !HasFile(tree, d, name)
        ensures exists j :: 0 <= j < |tasks| && d == tasks[j].dir && name == LocalName(tasks[j].key)
      {
        if HasFile(DownloadRun(tree, tasks[..n], fails).tree, d, name) {
          var j :| 0 <= j < n && d == tasks[..n][j].dir && name == LocalName(tasks[..n][j].key);
          assert tasks[..n][j] == tasks[j];
        } else {
          assert d == tasks[n].dir && name == LocalName(tasks[n].key);
        }
      }
    }
  }

  /** No two tasks share a local file, and none of their files is present yet. */
  ghost predicate FreshDistinct(tree: Tree, tasks: seq<Task>)
  {
    (forall i, j :: 0 <= i < j < |tasks| ==>
      tasks[i].dir != tasks[j].dir || LocalName(tasks[i].key) != LocalName(tasks[j].key)) &&
    (forall i :: 0 <= i < |tasks| ==> !HasFile(tree, tasks[i].dir, LocalName(tasks[i].key)))
  }

  /**
   * On tasks with distinct local files none of which is present, the
   * coordinator returns one path per task whose fetch does not raise, in
   * submission order, and nothing for the others.
   */
  lemma {:induction false} FreshRunCollectsSucceeding(tree: Tree, tasks: seq<Task>, fails: seq<bool>)
    requires FreshDistinct(tree, tasks)
    ensures DownloadRun(tree, tasks, fails).paths == SucceedingPaths(tasks, fails)
    decreases |tasks|
  {
    if tasks != [] {
      var n := |tasks| - 1;
      assert FreshDistinct(tree, tasks[..n]) by {
        forall i | 0 <= i < n ensures tasks[..n][i] == tasks[i] { }
      }
      FreshRunCollectsSucceeding(tree, tasks[..n], fails);
      RunFiles(tree, tasks[..n], fails);
      var prev := DownloadRun(tree, tasks[..n], fails);
      assert !HasFile(prev.tree, tasks[n].dir, LocalName(tasks[n].key));
    }
  }
}

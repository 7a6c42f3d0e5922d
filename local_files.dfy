/**
 * The local download area: which directories exist and which files each
 * directory holds, and the `<root>/<year>/<INDEX>/<month-number>` layout of
 * the group directories.
 */
module LocalFiles {
  import opened Wrappers
  import opened Text
  import opened Calendar

  /** Directory path -> names of the files directly inside it. */
  type Tree = map<string, set<string>>

  /** `os.path.exists(os.path.join(dir, name))` for a file. */
  predicate HasFile(t: Tree, dir: string, name: string)
  {
    dir in t && name in t[dir]
  }

  /** The tree after `os.makedirs(dir, exist_ok=True)`. */
  function WithDir(t: Tree, dir: string): (u: Tree)
    ensures u.Keys == t.Keys + {dir}
    ensures forall d :: d in t ==> u[d] == t[d]
    ensures dir !in t ==> u[dir] == {}
  {
    if dir in t then t else t[dir := {}]
  }

  /** The tree after every directory of `dirs` has been made. */
  function WithDirs(t: Tree, dirs: set<string>): (u: Tree)
    ensures u.Keys == t.Keys + dirs
    ensures forall d :: d in t ==> u[d] == t[d]
    ensures forall d :: d in dirs && d !in t ==> u[d] == {}
  {
    map d | d in t.Keys + dirs :: if d in t then t[d] else {}
  }

  /** Making directories one batch after another is making them all at once. */
  lemma WithDirsTwice(t: Tree, a: set<string>, b: set<string>)
    ensures WithDirs(WithDirs(t, a), b) == WithDirs(t, a + b)
  {
  }

  /** The tree after a file `name` has been written into `dir` (the directory is made if absent). */
  function WithFile(t: Tree, dir: string, name: string): (u: Tree)
    ensures HasFile(u, dir, name)
    ensures u.Keys == t.Keys + {dir}
    ensures forall d, n :: HasFile(u, d, n) <==> HasFile(t, d, n) || (d == dir && n == name)
  {
    t[dir := (if dir in t then t[dir] else {}) + {name}]
  }

  /** Nothing is removed: every directory and file of `t` is still in `u`. */
  ghost predicate Grows(t: Tree, u: Tree)
  {
    forall d :: d in t ==> d in u && t[d] <= u[d]
  }

  /** The local directory of a group: `<root>/<year>/<index>/<month number>`. */
  function GroupDir(root: string, year: int, index: string, monthNumber: string): string
  {
    PathJoin(PathJoin(PathJoin(root, IntText(year)), index), monthNumber)
  }

  /** With a plain root and index, the group directory is `root/year/index/mm`. */
  lemma GroupDirLayout(root: string, year: int, index: string, month: string)
    requires month in Months
    requires root != [] && root[|root| - 1] != '/'
    requires index != [] && '/' !in index
    ensures GroupDir(root, year, index, MonthText(month)) ==
      root + "/" + IntText(year) + "/" + index + "/" + MonthNumber(month).digits
  {
    MonthDigitsPlain(month);
    ThreeSegments(root, IntText(year), index, MonthText(month));
  }

  /** A month number is two decimal digits, so never contains `/`. */
  lemma MonthDigitsPlain(month: string)
    requires month in Months
    ensures |MonthNumber(month).digits| == 2 && '/' !in MonthNumber(month).digits
    ensures MonthText(month) == MonthNumber(month).digits
  {
    MonthNumberSpec(month);
    var mm := MonthNumber(month).digits;
    assert mm == TwoDigits(Ordinal(month) + 1);
  }

  /** Joining three plain segments onto a plain root. */
  lemma ThreeSegments(root: string, a: string, b: string, c: string)
    requires root != [] && root[|root| - 1] != '/'
    requires a != [] && '/' !in a && b != [] && '/' !in b && c != [] && '/' !in c
    ensures PathJoin(PathJoin(PathJoin(root, a), b), c) == root + "/" + a + "/" + b + "/" + c
  {
    var ra := root + "/" + a;
    var rab := ra + "/" + b;
    PathJoinPlain(root, a);
    PathJoinPlain(ra, b);
    PathJoinPlain(rab, c);
    assert rab + "/" + c == root + "/" + a + "/" + b + "/" + c;
  }

  /** A single step that may produce a path and leaves the tree in a new state. */
  datatype Step = Step(path: Option<string>, tree: Tree)

  /** A sequence of steps: the final tree and the paths produced, in order. */
  datatype Run = Run(tree: Tree, paths: seq<string>)

  /** The local file system the pipeline writes into. */
  class FileSystem {
    var tree: Tree

    constructor (initial: Tree)
      ensures tree == initial
    {
      tree := initial;
    }

    /** `os.makedirs(dir, exist_ok=True)`. */
    method MakeDirs(dir: string)
      modifies this
      ensures tree == WithDir(old(tree), dir)
    {
      if dir !in tree {
        tree := tree[dir := {}];
      }
    }

    /** Writing a file (a fetch or a raster write); the directory is made if absent. */
    method WriteFile(dir: string, name: string)
      modifies this
      ensures tree == WithFile(old(tree), dir, name)
    {
      var names := if dir in tree then tree[dir] else {};
      tree := tree[dir := names + {name}];
    }
  }
}

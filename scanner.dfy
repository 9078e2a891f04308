// The exclusion test isHiddenFile (Source/Main.cpp): a file is skipped when
// it, or any directory between it and the source root, carries a
// version-control or hidden-file name, or when it is an empty regular file.
// The source walks `getParentDirectory()` up to the root; here the path is
// given as the list of its components below the root, outermost first, and
// the walk strips the last component at each step.

module Scanner {
  import opened Text
  import Encoding

  /** One path component: its name, its size, and whether it is a directory. */
  datatype Entry = Entry(name: string, size: nat, isDirectory: bool)

  /** The name tests of isHiddenFile. */
  predicate HiddenName(name: string) {
    EndsWithIgnoreCase(name, ".scc") || name == ".svn" || StartsWith(name, ".")
  }

  /** What isHiddenFile checks of one entry before moving to its parent. */
  predicate ExcludedItself(e: Entry) {
    HiddenName(e.name) || (e.size == 0 && !e.isDirectory)
  }

  /** isHiddenFile: `chain` lists the components below the root, ending with
      the entry under test; the recursion stops below the root. */
  function IsHiddenFile(chain: seq<Entry>): bool
    requires |chain| >= 1
    decreases |chain|
  {
    var f := chain[|chain| - 1];
    ExcludedItself(f) || (|chain| > 1 && IsHiddenFile(chain[..|chain| - 1]))
  }

  /** A file is hidden exactly when it or one of its ancestors strictly below
      the root is excluded by name, or it is itself an empty regular file. */
  lemma {:induction false} HiddenIffSomeExcluded(chain: seq<Entry>)
    requires |chain| >= 1
    ensures IsHiddenFile(chain) <==> exists i :: 0 <= i < |chain| && ExcludedItself(chain[i])
    decreases |chain|
  {
    var n := |chain|;
    if n > 1 {
      var parents := chain[..n - 1];
      HiddenIffSomeExcluded(parents);
      if exists i :: 0 <= i < n && ExcludedItself(chain[i]) {
        var i :| 0 <= i < n && ExcludedItself(chain[i]);
        if i < n - 1 {
          assert ExcludedItself(parents[i]);
        }
      }
      if exists i :: 0 <= i < n - 1 && ExcludedItself(parents[i]) {
        var i :| 0 <= i < n - 1 && ExcludedItself(parents[i]);
        assert ExcludedItself(chain[i]);
      }
    }
  }

  /** Anything below a dot-directory is hidden, whatever its own name. */
  lemma HiddenUnderDotDirectory(chain: seq<Entry>, i: nat)
    requires i < |chain| && StartsWith(chain[i].name, ".")
    ensures IsHiddenFile(chain)
  {
    HiddenIffSomeExcluded(chain);
    assert ExcludedItself(chain[i]);
  }

  /** Hiding ignores letter case in the ".scc" suffix, e.g. "project.SCC". */
  lemma SccSuffixIgnoresCase(chain: seq<Entry>)
    requires |chain| >= 1
    requires chain[|chain| - 1].name == "project.SCC"
    ensures IsHiddenFile(chain)
  {
    var name := chain[|chain| - 1].name;
    assert forall i :: 0 <= i < 4 ==> ToLowerAscii(name[|name| - 4 + i]) == ToLowerAscii(".scc"[i]);
  }

  /** A source file as the enumeration reports it: the names of the
      directories between the root and the file, the file's own name, its
      parent's path relative to the root (`getRelativePathFrom`), its
      modification time, and its contents. */
  datatype SourceFile = SourceFile(
    dirs: seq<string>,
    name: string,
    relPath: string,
    mtime: int,
    data: seq<Encoding.Byte>)

  /** The entries isHiddenFile visits for a file; its size is its length. */
  function Chain(f: SourceFile): (c: seq<Entry>)
    ensures |c| == |f.dirs| + 1
    ensures c[|c| - 1] == Entry(f.name, |f.data|, false)
  {
    seq(|f.dirs|, i requires 0 <= i < |f.dirs| => Entry(f.dirs[i], 0, true))
      + [Entry(f.name, |f.data|, false)]
  }

  /** Whether the generator skips the file. A file it keeps is never empty. */
  function Hidden(f: SourceFile): (r: bool)
    ensures !r ==> |f.data| >= 1
  {
    IsHiddenFile(Chain(f))
  }

  /** Directory names joined by '/'. */
  function Join(ds: seq<string>): string
    requires |ds| >= 1
    decreases |ds|
  {
    if |ds| == 1 then ds[0] else ds[0] + "/" + Join(ds[1..])
  }

  /** The path `getRelativePathFrom` gives for a file's parent directory:
      "." for the root itself, otherwise the directories below the root
      joined by '/'. */
  function RelPathOf(dirs: seq<string>): string {
    if dirs == [] then "." else Join(dirs)
  }

  /** A file whose path is its directories' and starts with ".." sits below
      a directory whose name starts with '.', so it is hidden: for an
      encoded file the ".." tests of generateName and of the manifest never
      succeed. */
  lemma EscapingPathHidden(f: SourceFile)
    requires f.relPath == RelPathOf(f.dirs) && StartsWith(f.relPath, "..")
    ensures Hidden(f)
  {
    assert f.dirs != [];
    var d := f.dirs[0];
    assert Join(f.dirs)[0] == '.';
    assert |d| >= 1 && d[0] == '.';
    assert Chain(f)[0] == Entry(d, 0, true);
    HiddenUnderDotDirectory(Chain(f), 0);
  }

  /** An empty file is skipped, whatever its name and place. */
  lemma EmptyFileHidden(f: SourceFile)
    requires |f.data| == 0
    ensures Hidden(f)
  {
    var c := Chain(f);
    assert ExcludedItself(c[|c| - 1]);
  }
}

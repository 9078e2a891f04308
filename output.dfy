// What a generation run of main (Source/Main.cpp) writes, as functions of
// the enumerated files: which files are encoded, the header declarations,
// the array definitions with their numbering, the recorded sizes and the
// `info[]` manifest.

module Output {
  import opened Text
  import opened Names
  import opened Encoding
  import opened Scanner
  import opened Staleness

  /** The identifier of a file. */
  function Ident(f: SourceFile, addPath: bool): string {
    GenerateName(f.name, f.relPath, addPath)
  }

  /** The modification times the staleness gate compares, hidden files included. */
  function Times(files: seq<SourceFile>): (ts: seq<int>)
    ensures |ts| == |files|
    ensures forall i :: 0 <= i < |files| ==> ts[i] == files[i].mtime
  {
    seq(|files|, i requires 0 <= i < |files| => files[i].mtime)
  }

  /** The gate looks at every enumerated file, hidden ones included: an
      existing header is stale exactly when some file, hidden or not, is
      newer than it. */
  lemma GateSeesHiddenFiles(files: seq<SourceFile>, headerTime: int)
    ensures NeedsRegeneration(true, headerTime, Times(files))
        <==> exists i :: 0 <= i < |files| && files[i].mtime > headerTime
    ensures forall i :: 0 <= i < |files| && Hidden(files[i]) && files[i].mtime > headerTime ==>
              NeedsRegeneration(true, headerTime, Times(files))
  {
    var ts := Times(files);
    if exists i :: 0 <= i < |files| && files[i].mtime > headerTime {
      var i :| 0 <= i < |files| && files[i].mtime > headerTime;
      assert ts[i] > headerTime;
    }
    if NeedsRegeneration(true, headerTime, ts) {
      var i :| 0 <= i < |ts| && ts[i] > headerTime;
      assert files[i].mtime > headerTime;
    }
  }

  /** The files that are encoded, in enumeration order. */
  function Visible(files: seq<SourceFile>): (v: seq<SourceFile>)
    ensures |v| <= |files|
    ensures forall j :: 0 <= j < |v| ==> !Hidden(v[j])
  {
    if files == [] then []
    else
      var init := Visible(files[..|files| - 1]);
      var last := files[|files| - 1];
      if Hidden(last) then init else init + [last]
  }

  lemma VisibleSnoc(files: seq<SourceFile>, f: SourceFile)
    ensures Visible(files + [f]) == Visible(files) + if Hidden(f) then [] else [f]
  {
    assert (files + [f])[..|files|] == files;
  }

  /** Filtering works piecewise over concatenation. */
  lemma {:induction false} VisibleAppend(a: seq<SourceFile>, b: seq<SourceFile>)
    ensures Visible(a + b) == Visible(a) + Visible(b)
    decreases |b|
  {
    if b == [] {
      assert a + b == a;
    } else {
      var init := b[..|b| - 1];
      var last := b[|b| - 1];
      assert a + b == (a + init) + [last];
      assert b == init + [last];
      VisibleAppend(a, init);
      VisibleSnoc(a + init, last);
      VisibleSnoc(init, last);
    }
  }

  /** Filtering keeps exactly the files that are not hidden. */
  lemma {:induction false} VisibleMembers(files: seq<SourceFile>)
    ensures forall f :: f in Visible(files) <==> f in files && !Hidden(f)
    decreases |files|
  {
    if files != [] {
      var init := files[..|files| - 1];
      var last := files[|files| - 1];
      VisibleMembers(init);
      assert files == init + [last];
    }
  }

  /** The sizes main records in `bytes`, one per encoded file. */
  function Sizes(vis: seq<SourceFile>): (s: seq<nat>)
    ensures |s| == |vis|
  {
    seq(|vis|, j requires 0 <= j < |vis| => |vis[j].data|)
  }

  /** The array definition addFile writes for an encoded file as array n. */
  function Definition(f: SourceFile, n: nat, className: string, addPath: bool): string
    requires !Hidden(f)
  {
    ArrayDefinition(n, f.data, className, Ident(f, addPath))
  }

  /** The array definitions written for the encoded files: the j-th uses
      array number t0 + j + 1. */
  function ArrayDefs(vis: seq<SourceFile>, t0: nat, className: string, addPath: bool): (ds: seq<string>)
    requires forall j :: 0 <= j < |vis| ==> !Hidden(vis[j])
    ensures |ds| == |vis|
  {
    seq(|vis|, j requires 0 <= j < |vis| => Definition(vis[j], t0 + j + 1, className, addPath))
  }

  /** The k-th definition of a run opens the array numbered k + 1 after the
      arrays written before the run's first. */
  lemma ArrayDefOpens(vis: seq<SourceFile>, t0: nat, className: string, addPath: bool, k: nat)
    requires forall j :: 0 <= j < |vis| ==> !Hidden(vis[j])
    requires k < |vis|
    ensures StartsWith(ArrayDefs(vis, t0, className, addPath)[k], ArrayOpen(t0 + k + 1))
  {
    var d := Definition(vis[k], t0 + k + 1, className, addPath);
    assert ArrayDefs(vis, t0, className, addPath)[k] == d;
    DefinitionOpens(t0 + k + 1, vis[k].data, className, Ident(vis[k], addPath));
  }

  /** Two definitions of a run, in whichever units they land, never share an
      array name. */
  lemma ArrayNamesDistinct(vis: seq<SourceFile>, t0: nat, className: string, addPath: bool, i: nat, j: nat)
    requires forall k :: 0 <= k < |vis| ==> !Hidden(vis[k])
    requires i < j < |vis|
    ensures StartsWith(ArrayDefs(vis, t0, className, addPath)[i], ArrayOpen(t0 + i + 1))
    ensures StartsWith(ArrayDefs(vis, t0, className, addPath)[j], ArrayOpen(t0 + j + 1))
    ensures TempName(t0 + i + 1) != TempName(t0 + j + 1)
  {
    ArrayDefOpens(vis, t0, className, addPath, i);
    ArrayDefOpens(vis, t0, className, addPath, j);
    TempNamesDistinct(t0 + i + 1, t0 + j + 1);
  }

  lemma DefinitionOpens(n: nat, data: seq<Byte>, className: string, name: string)
    requires |data| >= 1
    ensures StartsWith(ArrayDefinition(n, data, className, name), ArrayOpen(n))
  {
    var o, rest := ArrayOpen(n), Literal(data) + "};\r\n" + Binding(n, className, name);
    assert ArrayDefinition(n, data, className, name) == o + rest;
    assert (o + rest)[..|o|] == o;
  }

  lemma ArrayDefsSnoc(vis: seq<SourceFile>, f: SourceFile, t0: nat, className: string, addPath: bool)
    requires forall j :: 0 <= j < |vis| ==> !Hidden(vis[j])
    requires !Hidden(f)
    ensures ArrayDefs(vis + [f], t0, className, addPath)
         == ArrayDefs(vis, t0, className, addPath)
            + [Definition(f, t0 + |vis| + 1, className, addPath)]
  {
  }

  /** The header declarations for the encoded files. */
  function Declarations(vis: seq<SourceFile>, addPath: bool): string {
    if vis == [] then ""
    else
      var last := vis[|vis| - 1];
      Declarations(vis[..|vis| - 1], addPath) + Declaration(Ident(last, addPath), |last.data|)
  }

  lemma DeclarationsSnoc(vis: seq<SourceFile>, f: SourceFile, addPath: bool)
    ensures Declarations(vis + [f], addPath) == Declarations(vis, addPath) + Declaration(Ident(f, addPath), |f.data|)
  {
    assert (vis + [f])[..|vis|] == vis;
  }

  /** The encoded files among the first i + 1 are those among the first i,
      followed by file i when it is encoded. */
  lemma VisibleStep(files: seq<SourceFile>, i: nat)
    requires i < |files|
    ensures Visible(files[..i + 1]) == Visible(files[..i]) + if Hidden(files[i]) then [] else [files[i]]
  {
    assert files[..i + 1] == files[..i] + [files[i]];
    VisibleSnoc(files[..i], files[i]);
  }

  /** The encoded files among a prefix are no more than all encoded files. */
  lemma VisiblePrefix(files: seq<SourceFile>, i: nat)
    requires i <= |files|
    ensures |Visible(files[..i])| <= |Visible(files)|
  {
    assert files[..i] + files[i..] == files;
    VisibleAppend(files[..i], files[i..]);
  }

  // ---------------------------------------------------------------------------
  // The manifest.

  /** One row of the `info[]` table, before quoting. */
  datatype InfoEntry = InfoEntry(name: string, path: string, data: string, size: nat)

  /** The path column: empty when the relative path escapes the root. */
  function ManifestPath(relPath: string): string {
    if StartsWith(relPath, "..") then "" else relPath
  }

  function Quote(s: string): string {
    "\"" + s + "\""
  }

  /** The row of an encoded file. */
  function ManifestEntry(f: SourceFile, className: string, addPath: bool): InfoEntry {
    InfoEntry(f.name, ManifestPath(f.relPath), className + "::" + Ident(f, addPath), |f.data|)
  }

  function ExpectedInfo(vis: seq<SourceFile>, className: string, addPath: bool): (es: seq<InfoEntry>)
    ensures |es| == |vis|
  {
    seq(|vis|, j requires 0 <= j < |vis| => ManifestEntry(vis[j], className, addPath))
  }

  function InfoLine(e: InfoEntry): string {
    "    { " + Quote(e.name) + ", " + Quote(e.path) + ", " + e.data + ", " + Dec(e.size) + " },\r\n"
  }

  function InfoLines(es: seq<InfoEntry>): string {
    if es == [] then "" else InfoLines(es[..|es| - 1]) + InfoLine(es[|es| - 1])
  }

  function ManifestHead(className: string): string {
    className + "::Info " + className + "::info[]  = {\r\n"
  }

  function CountLine(className: string, count: nat): string {
    "int " + className + "::infoSize = " + Dec(count) + ";\r\n"
  }

  /** The end of the table and the entry count. */
  function ManifestFoot(className: string, count: nat): string {
    "};\r\n\n" + CountLine(className, count)
  }

  /** The source tests the quoted path for a leading quote and "..", which is
      the test for ".." on the path itself; the blanked column is the quoted
      empty path. */
  lemma QuotedPathTest(relPath: string)
    ensures StartsWith(Quote(relPath), "\"..") <==> StartsWith(relPath, "..")
    ensures Quote("") == "\"\""
  {
    var q := Quote(relPath);
    if |relPath| >= 2 {
      assert q[..3] == "\"" + relPath[..2];
      assert q[1] == relPath[0] && q[2] == relPath[1];
    } else if |relPath| == 1 {
      assert q[2] == '"';
    }
  }

  /** The encoded files seen by the manifest loop are a prefix of all
      encoded files, so an encoded file's row takes the size recorded at the
      current count. */
  lemma ManifestStep(files: seq<SourceFile>, i: nat)
    requires i < |files| && !Hidden(files[i])
    ensures |Visible(files[..i])| < |Visible(files)|
    ensures Sizes(Visible(files))[|Visible(files[..i])|] == |files[i].data|
  {
    VisibleStep(files, i);
    assert files[..i + 1] + files[i + 1..] == files;
    VisibleAppend(files[..i + 1], files[i + 1..]);
  }

  lemma InfoLinesSnoc(es: seq<InfoEntry>, e: InfoEntry)
    ensures InfoLines(es + [e]) == InfoLines(es) + InfoLine(e)
  {
    assert (es + [e])[..|es|] == es;
  }

  /** One more encoded file adds its row. */
  lemma RowsSnoc(vis: seq<SourceFile>, f: SourceFile, className: string, addPath: bool)
    ensures InfoLines(ExpectedInfo(vis + [f], className, addPath))
         == InfoLines(ExpectedInfo(vis, className, addPath)) + InfoLine(ManifestEntry(f, className, addPath))
  {
    var es, e := ExpectedInfo(vis, className, addPath), ManifestEntry(f, className, addPath);
    var es' := ExpectedInfo(vis + [f], className, addPath);
    forall j | 0 <= j < |es'|
      ensures es'[j] == (es + [e])[j]
    {
      if j < |vis| {
        assert (vis + [f])[j] == vis[j];
      }
    }
    assert es' == es + [e];
    InfoLinesSnoc(ExpectedInfo(vis, className, addPath), ManifestEntry(f, className, addPath));
  }

  /** The rows after file i: one more row when the file is encoded, the same
      rows when it is hidden. */
  lemma RowsStep(files: seq<SourceFile>, i: nat, className: string, addPath: bool)
    requires i < |files|
    ensures var before := InfoLines(ExpectedInfo(Visible(files[..i]), className, addPath));
            InfoLines(ExpectedInfo(Visible(files[..i + 1]), className, addPath))
            == if Hidden(files[i]) then before
               else before + InfoLine(ManifestEntry(files[i], className, addPath))
  {
    VisibleStep(files, i);
    if !Hidden(files[i]) {
      assert Visible(files[..i + 1]) == Visible(files[..i]) + [files[i]];
      RowsSnoc(Visible(files[..i]), files[i], className, addPath);
    } else {
      assert Visible(files[..i + 1]) == Visible(files[..i]);
    }
  }

  /** The `info[]` table and `infoSize` written after the last array. */
  function Manifest(className: string, vis: seq<SourceFile>, addPath: bool): string {
    ManifestHead(className) + InfoLines(ExpectedInfo(vis, className, addPath)) + ManifestFoot(className, |vis|)
  }

  /** One row of the manifest loop: the quoted name, the quoted path or
      the quoted empty path when it begins with "..", the accessor and the
      size. */
  method Row(file: SourceFile, size: nat, className: string, addPath: bool) returns (line: string)
    requires size == |file.data|
    ensures line == InfoLine(ManifestEntry(file, className, addPath))
  {
    var name := Quote(file.name);
    var data := className + "::" + GenerateName(file.name, file.relPath, addPath);
    var path := Quote(file.relPath);
    QuotedPathTest(file.relPath);
    if StartsWith(path, "\"..") {
      path := "\"\"";
    }
    line := "    { " + name + ", " + path + ", " + data + ", " + Dec(size) + " },\r\n";
  }

  /** The body of the manifest loop for file i: its row when it is
      encoded, with the size recorded at the current count. */
  method RowStep(files: seq<SourceFile>, i: nat, bytes: seq<nat>, className: string, addPath: bool,
                 rows: string, cnt: nat)
    returns (rows': string, cnt': nat)
    requires i < |files| && bytes == Sizes(Visible(files))
    requires cnt == |Visible(files[..i])|
    requires rows == InfoLines(ExpectedInfo(Visible(files[..i]), className, addPath))
    ensures cnt' == |Visible(files[..i + 1])| <= |Visible(files)|
    ensures rows' == InfoLines(ExpectedInfo(Visible(files[..i + 1]), className, addPath))
  {
    var file := files[i];
    VisibleStep(files, i);
    RowsStep(files, i, className, addPath);
    if !Hidden(file) {
      ManifestStep(files, i);
      var line := Row(file, bytes[cnt], className, addPath);
      rows', cnt' := rows + line, cnt + 1;
    } else {
      VisiblePrefix(files, i + 1);
      rows', cnt' := rows, cnt;
    }
  }

  /** The manifest loop of main: it walks all enumerated files again with
      the same hidden-file test and pairs the cnt-th encoded file with
      `bytes[cnt]`. Given the sizes the file loop recorded, the rows are
      those of the encoded files, in enumeration order, each with its own
      size, and cnt ends as the number of encoded files. */
  method ManifestRows(files: seq<SourceFile>, bytes: seq<nat>, className: string, addPath: bool)
    returns (rows: string, cnt: nat)
    requires bytes == Sizes(Visible(files))
    ensures cnt == |Visible(files)| == |bytes|
    ensures rows == InfoLines(ExpectedInfo(Visible(files), className, addPath))
  {
    rows, cnt := "", 0;
    for i := 0 to |files|
      invariant cnt == |Visible(files[..i])|
      invariant rows == InfoLines(ExpectedInfo(Visible(files[..i]), className, addPath))
    {
      rows, cnt := RowStep(files, i, bytes, className, addPath, rows, cnt);
    }
    assert files[..|files|] == files;
  }
}

// main's file loop (Source/Main.cpp), as a function of the enumerated files:
// for each file, encode it with addFile unless isHiddenFile excludes it, then
// flush the unit and, once it has reached 15 MiB, seal it, write the next
// unit's wrapper and open that unit. The loop stops when a unit cannot be
// created. Generator.Generator.FileLoop performs exactly these steps; the lemmas
// here say what they achieve.

module Run {
  import opened Text
  import opened Encoding
  import opened Scanner
  import opened Units
  import opened Output

  /** The settings of a run. Creating a unit's file is a foreign call:
      `unopenable` holds the unit numbers whose file cannot be created. */
  datatype Config = Config(className: string, addPath: bool, unopenable: set<int>)

  /** What the file loop has produced so far: the array counter `tempNum`,
      the header text after its boilerplate, the sealed units, the open unit
      `cpp` with its number `currentFile`, the wrapper files, and main's
      `bytes`, `totalBytes` and `currBytes`. `defs[k]` lists the array
      definitions written to unit k + 1 and `unitStart` is the index in
      `bytes` of the open unit's first file; `failed` says that the last
      unit could not be created. */
  datatype Progress = Progress(
    tempNum: nat,
    header: string,
    sealed: seq<string>,
    cpp: string,
    currentFile: nat,
    wrappers: map<int, string>,
    bytes: seq<nat>,
    totalBytes: nat,
    currBytes: nat,
    defs: seq<seq<string>>,
    unitStart: nat,
    failed: bool)

  /** Before the first file: unit 1 is open with its preamble and its
      wrapper has been written. */
  function Start(c: Config): Progress {
    Progress(0, "", [], UnitPreamble(c.className), 1, map[1 := WrapperText(c.className, 1)],
             [], 0, 0, [[]], 0, false)
  }

  /** The first half of the loop body: addFile, and the size recorded. */
  function Encode(c: Config, s: Progress, f: SourceFile): Progress
    requires |s.defs| >= 1
  {
    if Hidden(f) then s
    else
      var n := s.tempNum + 1;
      var d := Definition(f, n, c.className, c.addPath);
      var sz := |f.data|;
      s.(tempNum := n,
         header := s.header + Declaration(Ident(f, c.addPath), sz),
         cpp := s.cpp + d,
         bytes := s.bytes + [sz],
         totalBytes := s.totalBytes + sz,
         currBytes := s.currBytes + sz,
         defs := Grow(s.defs, d))
  }

  /** What Encode writes for a file that isHiddenFile lets through, field
      by field. */
  lemma EncodeFields(c: Config, s: Progress, f: SourceFile)
    requires |s.defs| >= 1 && !Hidden(f)
    ensures var e := Encode(c, s, f);
            && e.tempNum == s.tempNum + 1 && e.sealed == s.sealed
            && e.header == s.header + Declaration(Ident(f, c.addPath), |f.data|)
            && e.cpp == s.cpp + ArrayDefinition(s.tempNum + 1, f.data, c.className, Ident(f, c.addPath))
            && e.wrappers == s.wrappers && e.currentFile == s.currentFile
            && e.bytes == s.bytes + [|f.data|] && e.totalBytes == s.totalBytes + |f.data|
            && e.currBytes == s.currBytes + |f.data|
  {
  }

  /** The second half: the size test after `flush`, and the switch to the
      next unit. */
  function Flush(c: Config, s: Progress): Progress {
    if |s.cpp| < UnitLimit then s
    else
      var k := s.currentFile + 1;
      var next := s.(currentFile := k,
                     wrappers := s.wrappers[k := WrapperText(c.className, k)],
                     sealed := s.sealed + [s.cpp]);
      if k in c.unopenable then next.(cpp := [], failed := true)
      else next.(cpp := UnitPreamble(c.className), currBytes := 0,
                 defs := s.defs + [[]], unitStart := |s.bytes|)
  }

  function Step(c: Config, s: Progress, f: SourceFile): Progress
    requires |s.defs| >= 1
  {
    Flush(c, Encode(c, s, f))
  }

  /** The loop over the enumerated files, stopped by the first unit that
      cannot be created. */
  function Fold(c: Config, files: seq<SourceFile>): (s: Progress)
    ensures |s.defs| >= 1
    decreases |files|
  {
    if files == [] then Start(c)
    else
      var s := Fold(c, files[..|files| - 1]);
      if s.failed then s else Step(c, s, files[|files| - 1])
  }

  /** The loop after file i. */
  lemma FoldStep(c: Config, files: seq<SourceFile>, i: nat)
    requires i < |files|
    ensures var s := Fold(c, files[..i]);
            Fold(c, files[..i + 1]) == if s.failed then s else Step(c, s, files[i])
  {
    assert files[..i + 1][..i] == files[..i];
  }

  /** Once a unit cannot be created, the remaining files change nothing. */
  lemma {:induction false} FoldAfterFailure(c: Config, files: seq<SourceFile>, i: nat)
    requires i <= |files| && Fold(c, files[..i]).failed
    ensures Fold(c, files) == Fold(c, files[..i])
    decreases |files| - i
  {
    if i < |files| {
      FoldStep(c, files, i);
      FoldAfterFailure(c, files, i + 1);
    } else {
      assert files[..i] == files;
    }
  }

  // ---------------------------------------------------------------------------
  // What the loop keeps.

  /** The units, wrappers and counters agree: units 1..currentFile - 1 are
      sealed and the open unit is `cpp`, as Units.Split describes; every unit
      opened so far has its wrapper and could be created; `totalBytes` sums
      `bytes` and `currBytes` the open unit's part of it. */
  ghost predicate Tracked(c: Config, s: Progress) {
    && !s.failed
    && s.currentFile == |s.sealed| + 1
    && Split(UnitPreamble(c.className), s.sealed, s.defs, s.cpp)
    && s.wrappers == IncludeWrappers(c.className, s.currentFile)
    && Counted(s.bytes, s.unitStart, s.totalBytes, s.currBytes)
    && (forall k :: 1 <= k <= s.currentFile ==> k !in c.unopenable)
  }

  /** Between files: in addition, the open unit is below the limit or holds
      no array yet. */
  ghost predicate Ready(c: Config, s: Progress) {
    Tracked(c, s) && OpenBelowLimit(s.defs, s.cpp)
  }

  /** What has been written for the encoded files `vis`: one array each,
      numbered from temp1 in order, one header declaration each, and each
      file's size in `bytes`. */
  ghost predicate Records(c: Config, s: Progress, vis: seq<SourceFile>) {
    && (forall j :: 0 <= j < |vis| ==> !Hidden(vis[j]))
    && s.tempNum == |vis|
    && s.header == Declarations(vis, c.addPath)
    && s.bytes == Sizes(vis)
    && Flatten(s.defs) == ArrayDefs(vis, 0, c.className, c.addPath)
  }

  lemma StartReady(c: Config)
    requires 1 !in c.unopenable
    ensures Ready(c, Start(c)) && Records(c, Start(c), [])
  {
    SplitStart(UnitPreamble(c.className));
    assert IncludeWrappers(c.className, 1) == map[1 := WrapperText(c.className, 1)];
    CountedRestart([], 0);
  }

  /** Appending an array definition `d` of a file of `sz` bytes to a unit
      that can take it keeps the units and counters in agreement. */
  lemma AppendTracked(c: Config, s: Progress, t: Progress, d: string, sz: nat)
    requires Ready(c, s)
    requires && t.sealed == s.sealed && t.defs == Grow(s.defs, d) && t.cpp == s.cpp + d
             && t.currentFile == s.currentFile && t.wrappers == s.wrappers && !t.failed
             && t.bytes == s.bytes + [sz] && t.unitStart == s.unitStart
             && t.totalBytes == s.totalBytes + sz && t.currBytes == s.currBytes + sz
    ensures Tracked(c, t)
  {
    SplitAppend(UnitPreamble(c.className), s.sealed, s.defs, s.cpp, d);
    CountedAdd(s.bytes, s.unitStart, s.totalBytes, s.currBytes, sz);
  }

  /** Encoding a file into a unit that can take it keeps the units and
      counters in agreement. */
  lemma EncodeTracked(c: Config, s: Progress, f: SourceFile)
    requires Ready(c, s)
    ensures Tracked(c, Encode(c, s, f))
  {
    if !Hidden(f) {
      AppendTracked(c, s, Encode(c, s, f), Definition(f, s.tempNum + 1, c.className, c.addPath), |f.data|);
    }
  }

  /** After the flush, either the next unit is open and ready, or it could
      not be created: then it is the first unit number that cannot be. */
  lemma FlushReady(c: Config, s: Progress)
    requires Tracked(c, s)
    ensures var t := Flush(c, s);
            (!t.failed ==> Ready(c, t))
            && (t.failed ==> && t.currentFile in c.unopenable
                             && (forall k :: 1 <= k < t.currentFile ==> k !in c.unopenable)
                             && t.wrappers == IncludeWrappers(c.className, t.currentFile))
  {
    if |s.cpp| >= UnitLimit {
      SplitSeal(UnitPreamble(c.className), s.sealed, s.defs, s.cpp);
      IncludeWrappersNext(c.className, s.currentFile);
      CountedRestart(s.bytes, s.totalBytes);
    }
  }

  // Encoding a file that isHiddenFile lets through adds one of each record.

  lemma EncodeNumbers(c: Config, s: Progress, vis: seq<SourceFile>, f: SourceFile)
    requires |s.defs| >= 1 && Records(c, s, vis) && !Hidden(f)
    ensures Encode(c, s, f).tempNum == |vis + [f]|
  {
  }

  lemma EncodeDeclares(c: Config, s: Progress, vis: seq<SourceFile>, f: SourceFile)
    requires |s.defs| >= 1 && Records(c, s, vis) && !Hidden(f)
    ensures Encode(c, s, f).header == Declarations(vis + [f], c.addPath)
  {
    DeclarationsSnoc(vis, f, c.addPath);
  }

  lemma EncodeSizes(c: Config, s: Progress, vis: seq<SourceFile>, f: SourceFile)
    requires |s.defs| >= 1 && Records(c, s, vis) && !Hidden(f)
    ensures Encode(c, s, f).bytes == Sizes(vis + [f])
  {
    assert Sizes(vis + [f]) == Sizes(vis) + [|f.data|];
  }

  lemma DefinesSnoc(defs: seq<seq<string>>, vis: seq<SourceFile>, f: SourceFile, className: string, addPath: bool)
    requires |defs| >= 1 && !Hidden(f) && forall j :: 0 <= j < |vis| ==> !Hidden(vis[j])
    requires Flatten(defs) == ArrayDefs(vis, 0, className, addPath)
    ensures Flatten(Grow(defs, Definition(f, |vis| + 1, className, addPath)))
         == ArrayDefs(vis + [f], 0, className, addPath)
  {
    ArrayDefsSnoc(vis, f, 0, className, addPath);
    FlattenGrow(defs, Definition(f, |vis| + 1, className, addPath));
  }

  lemma EncodeDefines(c: Config, s: Progress, vis: seq<SourceFile>, f: SourceFile)
    requires |s.defs| >= 1 && Records(c, s, vis) && !Hidden(f)
    ensures Flatten(Encode(c, s, f).defs) == ArrayDefs(vis + [f], 0, c.className, c.addPath)
  {
    assert Encode(c, s, f).defs == Grow(s.defs, Definition(f, s.tempNum + 1, c.className, c.addPath));
    DefinesSnoc(s.defs, vis, f, c.className, c.addPath);
  }

  /** Encoding a file adds its declaration, its size and its array, the
      next one in the numbering, exactly when isHiddenFile lets it through. */
  lemma EncodeRecords(c: Config, s: Progress, vis: seq<SourceFile>, f: SourceFile)
    requires |s.defs| >= 1 && Records(c, s, vis)
    ensures Records(c, Encode(c, s, f), vis + if Hidden(f) then [] else [f])
  {
    if !Hidden(f) {
      EncodeNumbers(c, s, vis, f);
      EncodeDeclares(c, s, vis, f);
      EncodeSizes(c, s, vis, f);
      EncodeDefines(c, s, vis, f);
    } else {
      assert vis + [] == vis;
    }
  }

  /** Switching units writes no declaration, size or array. */
  lemma FlushRecords(c: Config, s: Progress, vis: seq<SourceFile>)
    requires Records(c, s, vis)
    ensures Records(c, Flush(c, s), vis)
  {
    FlattenOpen(s.defs);
  }

  /** What the loop guarantees after the files whose encoded ones are
      `vis`: when every unit it needed could be created, the units, wrappers
      and counters agree and exactly the files of `vis` have been encoded, in
      order; otherwise it stopped at the first unit number that could not be
      created. */
  ghost predicate Good(c: Config, s: Progress, vis: seq<SourceFile>) {
    if s.failed then
      && s.currentFile in c.unopenable
      && (forall k :: 1 <= k < s.currentFile ==> k !in c.unopenable)
      && s.wrappers == IncludeWrappers(c.className, s.currentFile)
    else
      Ready(c, s) && Records(c, s, vis)
  }

  /** One turn of the loop from a state between files. */
  lemma StepFacts(c: Config, s: Progress, vis: seq<SourceFile>, f: SourceFile)
    requires Good(c, s, vis) && !s.failed
    ensures Good(c, Step(c, s, f), vis + if Hidden(f) then [] else [f])
  {
    var e := Encode(c, s, f);
    EncodeTracked(c, s, f);
    EncodeRecords(c, s, vis, f);
    FlushReady(c, e);
    FlushRecords(c, e, vis + if Hidden(f) then [] else [f]);
  }

  /** What the loop has done after the files of `files`: Good holds of the
      files that isHiddenFile lets through. */
  lemma {:induction false} FoldFacts(c: Config, files: seq<SourceFile>)
    requires 1 !in c.unopenable
    ensures Good(c, Fold(c, files), Visible(files))
    decreases |files|
  {
    if files == [] {
      StartReady(c);
    } else {
      var init, f := files[..|files| - 1], files[|files| - 1];
      FoldFacts(c, init);
      var s := Fold(c, init);
      if !s.failed {
        var vis := Visible(init) + if Hidden(f) then [] else [f];
        StepFacts(c, s, Visible(init), f);
        assert Fold(c, files) == Step(c, s, f) && Visible(files) == vis;
      }
    }
  }

  /** What main needs from the loop after it: the sizes for the manifest
      and the wrappers for the padding, or the unit that failed. */
  lemma FoldOutcome(c: Config, files: seq<SourceFile>)
    requires 1 !in c.unopenable
    ensures var s := Fold(c, files);
            && (!s.failed ==> && s.bytes == Sizes(Visible(files)) && s.currentFile >= 1
                              && s.wrappers == IncludeWrappers(c.className, s.currentFile))
            && (s.failed ==> && s.currentFile in c.unopenable
                             && (forall k :: 1 <= k < s.currentFile ==> k !in c.unopenable)
                             && s.wrappers == IncludeWrappers(c.className, s.currentFile))
  {
    FoldFacts(c, files);
    var s := Fold(c, files);
    if !s.failed {
      assert Tracked(c, s) && Records(c, s, Visible(files));
    }
  }

  /** Every unit sealed by a completed loop reached 15 MiB, and no unit
      received a file after it had reached it. */
  lemma RunUnitsSplit(c: Config, files: seq<SourceFile>)
    requires 1 !in c.unopenable
    requires !Fold(c, files).failed
    ensures var s := Fold(c, files);
            && s.currentFile == |s.sealed| + 1
            && (forall j :: 0 <= j < |s.sealed| ==> |s.sealed[j]| >= UnitLimit)
            && (forall j :: 0 <= j < |s.defs| ==> FilledBelowLimit(UnitPreamble(c.className), s.defs[j]))
            && |s.sealed| * UnitLimit <= |Concat(s.sealed)|
  {
    FoldFacts(c, files);
    SealedUnitsBound(Fold(c, files).sealed);
  }
}

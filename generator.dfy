// The generation run of main (Source/Main.cpp) together with addFile. The
// object holds what outlives a single statement of main: the static array
// counter `tempNum` of addFile, the header stream, the open unit's stream
// `cpp`, the units already closed and the wrapper files written, and main's
// locals that the file loop updates (`currentFile`, `bytes`, `totalBytes`,
// `currBytes`).
//
// Streams are their text; the header's text is what follows its fixed
// boilerplate. Opening a stream is a foreign call: whether the header can be
// created, and which unit numbers cannot, are inputs.

module Generator {
  import opened Text
  import opened Names
  import opened Encoding
  import opened Scanner
  import opened Staleness
  import opened Units
  import opened Output
  import opened Run

  datatype Outcome =
    | NoFilesFound
    | UpToDate
    | HeaderOpenFailed
    | UnitOpenFailed(unit: int)
    | Generated(units: int)

  class Generator {
    const className: string
    const addPath: bool

    /** The static counter of addFile. */
    var tempNum: nat
    /** The streams: the header after its boilerplate, and the open unit. */
    var header: string
    var cpp: string
    /** The units closed so far, unit 1 first, and the wrapper files. */
    var sealed: seq<string>
    var wrappers: map<int, string>
    /** main's locals of the file loop. */
    var currentFile: nat
    var bytes: seq<nat>
    var totalBytes: nat
    var currBytes: nat

    /** Nothing written yet. */
    ghost predicate Initial()
      reads this
    {
      && tempNum == 0 && header == [] && cpp == [] && sealed == [] && wrappers == map[]
      && currentFile == 1 && bytes == [] && totalBytes == 0 && currBytes == 0
    }

    constructor (className: string, addPath: bool)
      ensures this.className == className && this.addPath == addPath
      ensures Initial()
    {
      this.className := className;
      this.addPath := addPath;
      tempNum := 0;
      header := [];
      cpp := [];
      sealed := [];
      wrappers := map[];
      currentFile := 1;
      bytes := [];
      totalBytes := 0;
      currBytes := 0;
    }

    /** addFile: declare the accessor and the size in the header, then write
        array number tempNum + 1 with the file's bytes to the current unit.
        The file must not be empty: addFile reads its first byte. */
    method AddFile(f: SourceFile) returns (size: nat)
      requires |f.data| >= 1
      modifies this`tempNum, this`header, this`cpp
      ensures tempNum == old(tempNum) + 1
      ensures size == |f.data|
      ensures header == old(header) + Declaration(Ident(f, addPath), size)
      ensures cpp == old(cpp) + ArrayDefinition(tempNum, f.data, className, Ident(f, addPath))
    {
      var data := f.data;
      var name := GenerateName(f.name, f.relPath, addPath);
      header := header + Declaration(name, |data|);

      tempNum := tempNum + 1;
      ghost var c0 := cpp;
      cpp := cpp + ArrayOpen(tempNum);
      WriteLiteral(data);
      cpp := cpp + "};\r\n";
      cpp := cpp + Binding(tempNum, className, name);
      size := |data|;
      Assoc4(c0, ArrayOpen(tempNum), Literal(data), "};\r\n", Binding(tempNum, className, name));
    }

    /** The literal loop of addFile: every value but the last followed by a
        comma, with a line break after every 40th, then the last value and
        the two zero sentinels. */
    method WriteLiteral(data: seq<Byte>)
      requires |data| >= 1
      modifies this`cpp
      ensures cpp == old(cpp) + Literal(data)
    {
      ghost var open := cpp;
      var i := 0;
      while i < |data| - 1
        invariant 0 <= i <= |data| - 1
        invariant cpp == open + Items(data, i)
      {
        if i % 40 != 39 {
          cpp := cpp + Dec(data[i]) + ",";
        } else {
          cpp := cpp + Dec(data[i]) + ",\r\n  ";
        }
        ItemsStep(open, data, i);
        i := i + 1;
      }
      cpp := cpp + Dec(data[i]) + ",0,0";
      LiteralStep(open, data);
    }

    /** The object holds what the file loop has produced. */
    ghost predicate Matches(s: Progress)
      reads this
    {
      && tempNum == s.tempNum && header == s.header && sealed == s.sealed && cpp == s.cpp
      && wrappers == s.wrappers && currentFile == s.currentFile
      && bytes == s.bytes && totalBytes == s.totalBytes && currBytes == s.currBytes
    }

    /** The first half of the loop body: addFile unless the file is hidden,
        and its size recorded. */
    method EncodeFile(ghost c: Config, ghost s: Progress, f: SourceFile)
      requires c.className == className && c.addPath == addPath
      requires |s.defs| >= 1 && Matches(s)
      modifies this`tempNum, this`header, this`cpp, this`bytes, this`totalBytes, this`currBytes
      ensures Matches(Encode(c, s, f))
    {
      ghost var e := Encode(c, s, f);
      if !Hidden(f) {
        EncodeFields(c, s, f);
        var sz := AddFile(f);
        bytes := bytes + [sz];
        totalBytes := totalBytes + sz;
        currBytes := currBytes + sz;
      } else {
        assert e == s;
      }
    }

    /** The second half: once the flushed unit has reached 15 MiB, write the
        next unit's wrapper, close the unit and open the next one; false when
        that one cannot be created. */
    method FlushUnit(ghost c: Config, ghost s: Progress, unopenable: set<int>) returns (ok: bool)
      requires c == Config(className, addPath, unopenable)
      requires Matches(s) && !s.failed
      modifies this`currentFile, this`wrappers, this`sealed, this`cpp, this`currBytes
      ensures Matches(Flush(c, s)) && ok == !Flush(c, s).failed
    {
      ok := true;
      if |cpp| >= UnitLimit {
        currentFile := currentFile + 1;
        wrappers := wrappers[currentFile := WrapperText(className, currentFile)];
        sealed := sealed + [cpp];
        if currentFile in unopenable {
          cpp := [];
          return false;
        }
        cpp := UnitPreamble(className);
        currBytes := 0;
      }
    }

    /** main's loop over all enumerated files, as Run.Fold describes it. */
    method FileLoop(ghost c: Config, files: seq<SourceFile>, unopenable: set<int>) returns (ok: bool)
      requires c == Config(className, addPath, unopenable)
      requires Matches(Start(c))
      modifies this`tempNum, this`header, this`cpp, this`bytes, this`totalBytes, this`currBytes,
               this`currentFile, this`wrappers, this`sealed
      ensures Matches(Fold(c, files)) && ok == !Fold(c, files).failed
    {
      assert files[..0] == [];
      for i := 0 to |files|
        invariant Matches(Fold(c, files[..i])) && !Fold(c, files[..i]).failed
      {
        ghost var s := Fold(c, files[..i]);
        FoldStep(c, files, i);
        EncodeFile(c, s, files[i]);
        ok := FlushUnit(c, Encode(c, s, files[i]), unopenable);
        if !ok {
          FoldAfterFailure(c, files, i + 1);
          return;
        }
      }
      assert files[..|files|] == files;
      ok := true;
    }

    /** The padding loop: empty wrappers for the unit numbers after the last
        real unit, up to the requested minimum. */
    method PadWrappers(minCount: int)
      requires currentFile >= 1
      requires wrappers == IncludeWrappers(className, currentFile)
      modifies this`currentFile, this`wrappers
      ensures wrappers == FinalWrappers(className, old(currentFile), minCount)
      ensures currentFile == Max(old(currentFile), minCount) + 1
    {
      ghost var units := currentFile;
      currentFile := currentFile + 1;
      while currentFile <= minCount
        invariant units + 1 <= currentFile <= Max(units, minCount) + 1
        invariant wrappers == map k | 1 <= k < currentFile ::
                                if k <= units then WrapperText(className, k) else EmptyWrapper
      {
        wrappers := wrappers[currentFile := EmptyWrapper];
        currentFile := currentFile + 1;
      }
    }

    /** main after the file loop: the manifest written to the last unit,
        then the wrappers padded; the result is the number of real units. */
    method Finish(files: seq<SourceFile>, minCount: int) returns (units: nat)
      requires bytes == Sizes(Visible(files)) && currentFile >= 1
      requires wrappers == IncludeWrappers(className, currentFile)
      modifies this`cpp, this`currentFile, this`wrappers
      ensures units == old(currentFile)
      ensures cpp == old(cpp) + Manifest(className, Visible(files), addPath)
      ensures wrappers == FinalWrappers(className, units, minCount)
    {
      var rows, cnt := ManifestRows(files, bytes, className, addPath);
      cpp := cpp + (ManifestHead(className) + rows + ManifestFoot(className, cnt));
      units := currentFile;
      PadWrappers(minCount);
    }

    /** main from the opening of the header to its end, once the header
        could be created: open unit 1 and write its wrapper, run the file
        loop, then finish the last unit. */
    method Generate(files: seq<SourceFile>, minCount: int, unopenable: set<int>) returns (outcome: Outcome)
      requires Initial()
      modifies this
      ensures outcome.UnitOpenFailed? || outcome.Generated?
      ensures outcome.UnitOpenFailed? ==>
                outcome.unit in unopenable && forall k :: 1 <= k < outcome.unit ==> k !in unopenable
      ensures outcome == UnitOpenFailed(1) ==> Initial()
      ensures outcome.UnitOpenFailed? && outcome.unit != 1 ==>
                var s := Fold(Config(className, addPath, unopenable), files);
                && s.failed && s.currentFile == outcome.unit && sealed == s.sealed
                && header == s.header && tempNum == s.tempNum && wrappers == s.wrappers
                && wrappers == IncludeWrappers(className, outcome.unit)
      ensures outcome.Generated? ==>
                var s := Fold(Config(className, addPath, unopenable), files);
                && !s.failed && 1 !in unopenable && outcome.units == s.currentFile
                && tempNum == s.tempNum && header == s.header && sealed == s.sealed
                && cpp == s.cpp + Manifest(className, Visible(files), addPath)
                && wrappers == FinalWrappers(className, outcome.units, minCount)
    {
      if 1 in unopenable {
        return UnitOpenFailed(1);
      }
      ghost var c := Config(className, addPath, unopenable);
      cpp := UnitPreamble(className);
      wrappers := map[1 := WrapperText(className, 1)];
      var ok := FileLoop(c, files, unopenable);
      ghost var s := Fold(c, files);
      FoldOutcome(c, files);
      if !ok {
        return UnitOpenFailed(currentFile);
      }
      var units := Finish(files, minCount);
      outcome := Generated(units);
    }

    /** main after its argument and directory checks: nothing is written
        unless there are files and the staleness gate asks for regeneration
        and the header can be created. */
    method Run(files: seq<SourceFile>, headerExists: bool, headerTime: int, minCount: int,
               headerOpens: bool, unopenable: set<int>) returns (outcome: Outcome)
      requires Initial()
      modifies this
      ensures outcome == NoFilesFound <==> files == []
      ensures outcome == UpToDate <==>
                files != [] && !NeedsRegeneration(headerExists, headerTime, Times(files))
      ensures outcome == HeaderOpenFailed <==>
                files != [] && NeedsRegeneration(headerExists, headerTime, Times(files)) && !headerOpens
      ensures outcome.NoFilesFound? || outcome.UpToDate? || outcome.HeaderOpenFailed? ==> Initial()
      ensures outcome.UnitOpenFailed? ==>
                outcome.unit in unopenable && forall k :: 1 <= k < outcome.unit ==> k !in unopenable
      ensures outcome == UnitOpenFailed(1) ==> Initial()
      ensures outcome.UnitOpenFailed? && outcome.unit != 1 ==>
                var s := Fold(Config(className, addPath, unopenable), files);
                && s.failed && s.currentFile == outcome.unit && sealed == s.sealed
                && header == s.header && tempNum == s.tempNum && wrappers == s.wrappers
                && wrappers == IncludeWrappers(className, outcome.unit)
      ensures outcome.Generated? ==>
                var s := Fold(Config(className, addPath, unopenable), files);
                && !s.failed && 1 !in unopenable && outcome.units == s.currentFile
                && tempNum == s.tempNum && header == s.header && sealed == s.sealed
                && cpp == s.cpp + Manifest(className, Visible(files), addPath)
                && wrappers == FinalWrappers(className, outcome.units, minCount)
    {
      if files == [] {
        return NoFilesFound;
      }
      var needsProcessing := CheckStaleness(headerExists, headerTime, Times(files));
      if !needsProcessing {
        return UpToDate;
      }
      if !headerOpens {
        return HeaderOpenFailed;
      }
      outcome := Generate(files, minCount, unopenable);
    }
  }
}

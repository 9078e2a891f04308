# BinaryBuilder: a Dafny model of the generator core

BinaryBuilder turns the files below a source directory into C++ source:
a header `<className>.h` that declares one accessor and one size constant per
file, and one or more units `<className><n>.cpp`. Each unit holds the files'
bytes as `static const unsigned char temp<k>[]` arrays, the accessor
definitions, and, in the last unit, an `info[]` table listing every embedded
file. Alongside each unit the tool writes a wrapper `<className><n>Wrapper.cpp`
that includes it. A new unit is started once the current one has reached
15 MiB. Empty wrappers are written up to a requested minimum count.

This project models `Source/Main.cpp`:

- `generateName`: the identifier derived from a file's name and, with
  `-addpath`, from its directory.
- `isHiddenFile`: the exclusion of `.scc` files, `.svn`, dot files, empty
  files and anything below an excluded directory.
- `addFile`: the header declaration, the array literal and the static
  `tempNum` counter.
- From `main`: the staleness gate, the file loop that splits the output into
  15 MiB units and writes their wrappers, the `info[]` manifest loop and the
  wrapper padding loop.

Modules, one per concern:

- `Text`: decimal rendering of integers as the streams print them, digit
  strings, prefix tests and ASCII case folding.
- `Names`: `replaceCharacter`/`retainCharacters` and `generateName`.
- `Scanner`: `isHiddenFile` over the chain of path components below the
  root, and the `SourceFile` record the enumeration delivers.
- `Staleness`: the header-timestamp loop.
- `Encoding`: the text `addFile` writes (array literal, binding,
  declaration), with a parser proving the literal reads back.
- `Units`: the unit preamble, the wrappers and the 15 MiB split.
- `Output`: what a run writes, as functions of the enumerated files, plus the
  manifest loop.
- `Run`: the file loop as a fold over the files, and what it guarantees.
- `Generator`: a class holding the state `main` and `addFile` update
  (`tempNum`, the header and unit streams as text, the sealed units, the
  wrappers, and `currentFile`, `bytes`, `totalBytes`, `currBytes`). Its
  methods are proved to follow `Run.Fold`.

Creating a stream is a call into the file system. Whether the header can be
created, and which unit numbers cannot be, are inputs of
`Generator.Generator.Run`. The enumerated files come in as a sequence of
`SourceFile` values. Each value carries its directory chain, its name, its
parent directory relative to the root (what `getRelativePathFrom` returns),
its modification time and its contents.

Where the project's description and the code differ, the model follows the
code. The description says a file at the source root gets an empty path in
the manifest. The code blanks the path only when it starts with `..`. JUCE
gives `.` for the root directory itself, so a root-level file keeps `"."` as
its path. With `-addpath` its identifier also gets the prefix `__`, which is
`.` sanitised followed by the joining `_`.

## Model

| member | source | states |
|---|---|---|
| Names.Sanitise | Source/Main.cpp:18-23 | the sanitised text holds only ASCII letters, digits and '_' and is no longer than the input |
| Names.SanitiseMatchesReference | Source/Main.cpp:18-23 | the chain of four replaceCharacter calls and retainCharacters equals one character-by-character map: space, '.', '/', '\\' become '_', identifier characters stay, everything else is dropped |
| Names.SanitiseAppend | Source/Main.cpp:18-23 | sanitising is done character by character, so it distributes over concatenation |
| Names.SanitiseFixpoint | Source/Main.cpp:18-23 | a text is left unchanged exactly when it consists of identifier characters only |
| Names.SanitiseIdempotent | Source/Main.cpp:18-23 | sanitising a sanitised text changes nothing |
| Names.GenerateName | Source/Main.cpp:16-44 | the generated name, possibly empty, holds only ASCII letters, digits and '_' and never starts with a digit |
| Names.GenerateNameShape | Source/Main.cpp:16-44 | the name is the sanitised file name, preceded by the sanitised relative path and '_' exactly when -addpath is set and the path does not start with "..", with '_' prepended exactly when that text starts with a digit; otherwise the directory has no influence |
| Names.GenerateNameWithPath | Source/Main.cpp:25-37 | with the directory prefix in force the name is non-empty and ends with '_' followed by the sanitised file name |
| Names.EmptyNamePossible | Source/Main.cpp:18-23 | without the directory prefix, a file name made only of dropped characters (such as "+" or "é") gives the empty name, which is not a C identifier |
| Names.NamesCanCollide | Source/Main.cpp:18-23 | two different files ("a b" and "a.b") get the same identifier; nothing makes names unique |
| Text.DecRoundTrip | Source/Main.cpp:75-82 | the decimal text of a byte value or size reads back as that number |
| Text.DecInjective | Source/Main.cpp:75-82 | different numbers print differently |
| Scanner.HiddenIffSomeExcluded | Source/Main.cpp:90-97 | a file is hidden exactly when it or one of its directories below the root has a hidden name (".scc" suffix in any case, ".svn", a leading '.') or is an empty regular file |
| Scanner.HiddenUnderDotDirectory | Source/Main.cpp:94-96 | everything below a directory whose name starts with '.' is hidden |
| Scanner.SccSuffixIgnoresCase | Source/Main.cpp:92 | "project.SCC" is hidden: the ".scc" test ignores case |
| Scanner.EscapingPathHidden | Source/Main.cpp:28 | a file whose relative path is built from its directories and starts with ".." lies below a directory named with a leading '.', so it is hidden: the ".." tests at lines 28 and 305 never succeed for an encoded file |
| Scanner.Hidden | Source/Main.cpp:90-97 | a file that is not hidden has at least one byte, so addFile's read of the last byte is defined |
| Scanner.EmptyFileHidden | Source/Main.cpp:95 | every empty file is hidden |
| Staleness.CheckStaleness | Source/Main.cpp:179-194 | the loop with its early break answers true exactly when the header is missing or some file, hidden or not, is strictly newer than it |
| Output.GateSeesHiddenFiles | Source/Main.cpp:179-194 | an existing header is stale exactly when some enumerated file is newer than it, and a newer hidden file is enough |
| Staleness.NewestDecides | Source/Main.cpp:179-194 | regeneration is needed exactly when the header is missing or the newest file is strictly newer than the header |
| Encoding.LiteralRoundTrip | Source/Main.cpp:67-82 | reading the array literal back gives the file's bytes followed by the two zero sentinels |
| Encoding.LiteralLineBreaks | Source/Main.cpp:72-80 | the literal of n bytes contains exactly (n - 1) / 40 line breaks |
| Encoding.TempNamesDistinct | Source/Main.cpp:65-67 | different counter values give different array names |
| Output.VisibleMembers | Source/Main.cpp:257-263 | the encoded files are exactly the enumerated files that are not hidden |
| Output.VisibleAppend | Source/Main.cpp:257-263 | filtering hidden files commutes with concatenating the enumeration |
| Output.ArrayDefOpens | Source/Main.cpp:65-67 | the k-th definition of a run opens the array numbered k + 1 after the arrays written before it |
| Output.ArrayNamesDistinct | Source/Main.cpp:65-67 | any two array definitions of a run open arrays with different names |
| Output.QuotedPathTest | Source/Main.cpp:304-305 | testing the quoted path for a leading quote followed by ".." is testing the path itself for "..", and the blanked column is the quoted empty string |
| Output.ManifestStep | Source/Main.cpp:306 | the cnt-th recorded size belongs to the file the manifest loop is at |
| Output.RowsSnoc | Source/Main.cpp:307 | one more encoded file adds exactly its row to the table |
| Output.RowsStep | Source/Main.cpp:295-310 | the rows after a file are those before it plus that file's row when it is encoded, unchanged when it is hidden |
| Output.Row | Source/Main.cpp:302-307 | a row holds the quoted file name, the quoted relative path (empty when it starts with ".."), the qualified accessor and the file's size |
| Output.RowStep | Source/Main.cpp:297-308 | one turn of the manifest loop leaves cnt and the rows describing exactly the encoded files seen so far |
| Output.ManifestRows | Source/Main.cpp:293-312 | given the sizes recorded by the file loop, the manifest has one row per encoded file, in enumeration order and with its own size, and cnt ends at the number of encoded files |
| Units.FinalWrappersCover | Source/Main.cpp:322-332 | after padding, every unit number from 1 to the requested minimum has a wrapper; real units' wrappers include them, the others are empty, and no other wrapper exists |
| Units.SplitAppend | Source/Main.cpp:264-268 | appending a definition to an open unit below the limit keeps every unit equal to its preamble and definitions, sealed units at or above the limit and every unit below the limit before its last definition |
| Units.SplitSeal | Source/Main.cpp:270-291 | sealing a unit that reached the limit and opening the next one with its preamble keeps the split |
| Units.SealedUnitsBound | Source/Main.cpp:271 | n sealed units hold at least n * 15 MiB of text |
| Units.CountedAdd | Source/Main.cpp:265-267 | adding a size keeps totalBytes the sum of all sizes and currBytes the sum of those since the unit was opened |
| Units.CountedRestart | Source/Main.cpp:290 | resetting currBytes when a unit opens keeps the counters in agreement |
| Run.FoldStep | Source/Main.cpp:257-292 | the loop after file i is the loop after the earlier files followed by one turn, unless a unit has already failed |
| Run.FoldAfterFailure | Source/Main.cpp:280-285 | once a unit cannot be created, no later file changes anything |
| Run.StartReady | Source/Main.cpp:247-255 | before the first file, unit 1 is open with its preamble and its wrapper, and nothing has been encoded |
| Run.AppendTracked | Source/Main.cpp:264-267 | appending a definition to a unit that can take it keeps units, wrappers and counters in agreement |
| Run.EncodeTracked | Source/Main.cpp:262-268 | the first half of a turn keeps units, wrappers and counters in agreement |
| Run.FlushReady | Source/Main.cpp:270-291 | after the size test either the open unit is below the limit or holds no array yet, or the loop stopped at the first unit number that could not be created, whose wrapper was already written |
| Run.DefinesSnoc | Source/Main.cpp:67-85 | the definitions written so far, with the next one added, are the definitions of the encoded files numbered from temp1 |
| Run.EncodeDefines | Source/Main.cpp:264 | the first half of a turn adds the file's definition, numbered next, to the open unit |
| Run.EncodeRecords | Source/Main.cpp:262-268 | the header, sizes, counter and definitions describe exactly the encoded files, with a hidden file adding nothing |
| Run.FlushRecords | Source/Main.cpp:270-291 | switching units writes no declaration, size or array |
| Run.StepFacts | Source/Main.cpp:257-292 | one turn of the loop keeps the loop's invariant, with the turn's file added to the encoded files when it is not hidden |
| Run.FoldFacts | Source/Main.cpp:257-292 | after any prefix of the files, either all needed units were created and the units, wrappers, counters, header, sizes and definitions describe exactly the non-hidden files in order, or the loop stopped at the first unit number that could not be created, with wrappers for every unit number up to it |
| Run.FoldOutcome | Source/Main.cpp:257-306 | after the loop, bytes holds the encoded files' sizes and the wrappers of units 1..currentFile exist, or the failed unit is the first that could not be created and has a wrapper, as have all before it |
| Run.RunUnitsSplit | Source/Main.cpp:270-291 | in a completed run every sealed unit reached 15 MiB, no unit received a file after reaching it, and the sealed units hold at least 15 MiB each |
| Generator.Generator.constructor | Source/Main.cpp:65 | a fresh generator has written nothing and its counter is 0 |
| Generator.Generator.AddFile | Source/Main.cpp:46-88 | the counter goes up by one, the size returned is the file's byte count, the header gets the file's declaration and the unit gets array temp<tempNum> with the literal and the binding of the accessor |
| Generator.Generator.WriteLiteral | Source/Main.cpp:69-82 | the literal loop writes exactly the literal the parser reads back |
| Generator.Generator.EncodeFile | Source/Main.cpp:259-268 | the first half of a turn calls addFile and records the size exactly when the file is not hidden, as the fold describes |
| Generator.Generator.FlushUnit | Source/Main.cpp:270-291 | the size test seals the unit, writes the next wrapper and opens the next unit, reporting failure exactly when that unit cannot be created, as the fold describes |
| Generator.Generator.FileLoop | Source/Main.cpp:257-292 | the file loop leaves the state the fold describes, and reports whether every unit could be created |
| Generator.Generator.PadWrappers | Source/Main.cpp:322-332 | the padding loop writes empty wrappers for unit numbers after the last real unit up to the minimum, keeping the real ones |
| Generator.Generator.Finish | Source/Main.cpp:293-332 | the manifest with one row per encoded file and the entry count is appended to the last unit, then the wrappers are padded |
| Generator.Generator.Generate | Source/Main.cpp:228-332 | generation fails at the first unit number that cannot be created. When that is unit 1 nothing has been written. Otherwise the header holds the declarations written so far, never closed; the counter and the sealed units are those of the fold; and the wrappers of all units up to the failed one, that one included, have been written. Without a failure the header, counter and units are those of the fold, the last unit ends with the manifest and the wrappers are final |
| Generator.Generator.Run | Source/Main.cpp:172-332 | nothing is written when no file was found, when the header is up to date or when the header cannot be created (each exactly in its case); otherwise the result and the state are those of the generation, including the partial header and wrappers left behind when a unit cannot be created |

## Left out

- Console output (`std::cout`) is not modelled.
- Command-line parsing (Source/Main.cpp:105-133) is left out. So are the
  directory checks (136-157) and the trimming of the class name (159-160).
  The class name, the `-addpath` flag and the minimum unit count are inputs.
  `getIntValue` of a non-numeric argument is not modelled; the count is an
  `int`.
- The file enumeration (`findChildFiles` with its wildcard, 165-166) is not
  modelled. The files arrive as a sequence in enumeration order, regular
  files only.
- The deletion of the old header, units and wrappers (208-217) is left out,
  because it only removes files and writes nothing.
- The header's fixed boilerplate (237-245) and its closing lines (314-315)
  are left out. The header is modelled as its declarations only. The unit
  preamble (247-248, 287-288) is kept, because it counts towards a unit's
  size.
- Generator.Generator.FlushUnit: the unit's size is the length of its text,
  not the byte size on disk after `flush`. The two agree for ASCII class
  names; a non-ASCII class name's UTF-8 encoding is not modelled.
- Generator.Generator.Run: the static `tempNum` outlives a run in the
  source. The model starts each run from a fresh generator, which is what a
  single process invocation does.
- The `int` arithmetic of `totalBytes`, `currBytes` and `(int) mb.getSize()`
  is modelled with unbounded integers. Overflow for files or totals of 2 GiB
  and more is not modelled.
- Scanner.SccSuffixIgnoresCase: `endsWithIgnoreCase` folds ASCII letters
  only. Unicode case folding is not modelled.
- The relative path of a file's directory is an input of each
  `SourceFile`, the string `getRelativePathFrom` returns. The model does not
  require it to agree with the file's directories, so the lemmas about
  `generateName` and the manifest also cover paths starting with "..".
  Scanner.EscapingPathHidden shows what happens when the path is built from
  the directories ("." at the root, the names joined by '/'): no encoded file
  then has such a path. Path normalisation and Windows separators are not
  modelled.
- Reading a file (`loadFileAsData`) is modelled by the file's contents in
  `SourceFile`; read failures are not modelled.

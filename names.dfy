// Identifier generation (generateName in Source/Main.cpp): a file name, and
// optionally its directory relative to the source root, become a C++ symbol.
// The source does this with a chain of JUCE string calls: four
// `replaceCharacter` calls turn ' ', '.', '/' and '\' into '_', then
// `retainCharacters` drops everything outside [A-Za-z_0-9].

module Names {
  import opened Text

  /** The characters kept by `retainCharacters`: the source passes the 63
      ASCII letters, digits and '_' as a string literal. */
  predicate IsIdentifierChar(c: char) {
    IsAsciiLetter(c) || IsDigit(c) || c == '_'
  }

  /** A generated identifier: identifier characters only, and no leading digit. */
  predicate IsIdentifier(s: string) {
    (forall i :: 0 <= i < |s| ==> IsIdentifierChar(s[i])) &&
    (s != [] ==> !IsDigit(s[0]))
  }

  /** JUCE `replaceCharacter`: every occurrence of `from` becomes `to`. */
  function ReplaceCharacter(s: string, from: char, to: char): (r: string)
    ensures |r| == |s|
    ensures forall i :: 0 <= i < |s| ==> r[i] == if s[i] == from then to else s[i]
  {
    if s == [] then []
    else [if s[0] == from then to else s[0]] + ReplaceCharacter(s[1..], from, to)
  }

  /** JUCE `retainCharacters` with the identifier character set: keep, in
      order, the identifier characters. */
  function RetainCharacters(s: string): (r: string)
    ensures |r| <= |s|
    ensures forall i :: 0 <= i < |r| ==> IsIdentifierChar(r[i])
  {
    if s == [] then []
    else (if IsIdentifierChar(s[0]) then [s[0]] else []) + RetainCharacters(s[1..])
  }

  /** The transformation applied to the file name, and to the relative path. */
  function Sanitise(s: string): (r: string)
    ensures |r| <= |s|
    ensures forall i :: 0 <= i < |r| ==> IsIdentifierChar(r[i])
  {
    var replaced := ReplaceCharacter(ReplaceCharacter(ReplaceCharacter(
                      ReplaceCharacter(s, ' ', '_'), '.', '_'), '/', '_'), '\\', '_');
    RetainCharacters(replaced)
  }

  predicate IsSeparator(c: char) {
    c == ' ' || c == '.' || c == '/' || c == '\\'
  }

  /** What one input character contributes to the sanitised text. */
  function SanitiseChar(c: char): string {
    if IsSeparator(c) then "_" else if IsIdentifierChar(c) then [c] else []
  }

  /** Single-pass reference definition of the sanitiser. */
  function SanitiseRef(s: string): string {
    if s == [] then [] else SanitiseChar(s[0]) + SanitiseRef(s[1..])
  }

  /** The chain of library calls is the single-pass, character-by-character map. */
  lemma {:induction false} SanitiseMatchesReference(s: string)
    ensures Sanitise(s) == SanitiseRef(s)
    decreases |s|
  {
    if s != [] {
      SanitiseMatchesReference(s[1..]);
      var c := s[0];
      var c' := if IsSeparator(c) then '_' else c;
      var replaced := ReplaceCharacter(ReplaceCharacter(ReplaceCharacter(
                        ReplaceCharacter(s, ' ', '_'), '.', '_'), '/', '_'), '\\', '_');
      var rest := ReplaceCharacter(ReplaceCharacter(ReplaceCharacter(
                    ReplaceCharacter(s[1..], ' ', '_'), '.', '_'), '/', '_'), '\\', '_');
      assert replaced == [c'] + rest;
      assert RetainCharacters(replaced)
          == (if IsIdentifierChar(c') then [c'] else []) + RetainCharacters(rest);
    }
  }

  /** Sanitising works piecewise over concatenation. */
  lemma {:induction false} SanitiseAppend(a: string, b: string)
    ensures Sanitise(a + b) == Sanitise(a) + Sanitise(b)
    decreases |a|
  {
    SanitiseMatchesReference(a + b);
    SanitiseMatchesReference(a);
    SanitiseMatchesReference(b);
    RefAppend(a, b);
  }

  lemma {:induction false} RefAppend(a: string, b: string)
    ensures SanitiseRef(a + b) == SanitiseRef(a) + SanitiseRef(b)
    decreases |a|
  {
    if a == [] {
      assert a + b == b;
    } else {
      assert (a + b)[0] == a[0];
      assert (a + b)[1..] == a[1..] + b;
      RefAppend(a[1..], b);
      calc {
        SanitiseRef(a + b);
        SanitiseChar(a[0]) + SanitiseRef(a[1..] + b);
        SanitiseChar(a[0]) + (SanitiseRef(a[1..]) + SanitiseRef(b));
        (SanitiseChar(a[0]) + SanitiseRef(a[1..])) + SanitiseRef(b);
      }
    }
  }

  /** A text is left unchanged by the sanitiser exactly when it already
      consists of identifier characters only. */
  lemma {:induction false} SanitiseFixpoint(s: string)
    ensures Sanitise(s) == s <==> forall i :: 0 <= i < |s| ==> IsIdentifierChar(s[i])
    decreases |s|
  {
    SanitiseMatchesReference(s);
    if forall i :: 0 <= i < |s| ==> IsIdentifierChar(s[i]) {
      RefIdentity(s);
    }
  }

  lemma {:induction false} RefIdentity(s: string)
    requires forall i :: 0 <= i < |s| ==> IsIdentifierChar(s[i])
    ensures SanitiseRef(s) == s
    decreases |s|
  {
    if s != [] {
      RefIdentity(s[1..]);
    }
  }

  /** Sanitising twice is sanitising once. */
  lemma SanitiseIdempotent(s: string)
    ensures Sanitise(Sanitise(s)) == Sanitise(s)
  {
    SanitiseFixpoint(Sanitise(s));
  }

  /** The leading-digit guard. On an empty name JUCE's character access
      yields the terminating 0, which is not a digit, so "" stays "". */
  function DigitGuard(s: string): string {
    if s != [] && IsDigit(s[0]) then "_" + s else s
  }

  /** The identifier for a file called `fileName` whose parent directory,
      relative to the source root, is `relPath`. */
  function GenerateName(fileName: string, relPath: string, addPath: bool): (r: string)
    ensures IsIdentifier(r)
  {
    var name := Sanitise(fileName);
    var name := if addPath && !StartsWith(relPath, "..")
                then Sanitise(relPath) + "_" + name
                else name;
    DigitGuard(name)
  }

  /** Without the directory prefix (flag off, or a path escaping the root) the
      identifier is the sanitised file name, '_'-prefixed exactly when that
      starts with a digit; with it, the sanitised path and '_' come first. */
  lemma GenerateNameShape(fileName: string, relPath: string, addPath: bool)
    ensures var base := if addPath && !StartsWith(relPath, "..")
                        then Sanitise(relPath) + "_" + Sanitise(fileName)
                        else Sanitise(fileName);
            var r := GenerateName(fileName, relPath, addPath);
            (r == base || r == "_" + base) &&
            (r == "_" + base <==> base != [] && IsDigit(base[0]))
    ensures !addPath || StartsWith(relPath, "..") ==>
            GenerateName(fileName, relPath, addPath) == GenerateName(fileName, "", false)
  {
  }

  /** With the prefix in force the identifier is never empty, and it ends with
      '_' followed by the sanitised file name. */
  lemma GenerateNameWithPath(fileName: string, relPath: string)
    requires !StartsWith(relPath, "..")
    ensures var r := GenerateName(fileName, relPath, true);
            var tail := "_" + Sanitise(fileName);
            r != [] && |tail| <= |r| && r[|r| - |tail|..] == tail
  {
    var r := GenerateName(fileName, relPath, true);
    var tail := "_" + Sanitise(fileName);
    var base := Sanitise(relPath) + "_" + Sanitise(fileName);
    assert base == Sanitise(relPath) + tail;
    assert base[|base| - |tail|..] == tail;
    if r != base {
      assert r == "_" + base;
      assert r[|r| - |tail|..] == base[|base| - |tail|..];
    }
  }

  /** Characters that are neither separators nor identifier characters
      contribute nothing. */
  lemma {:induction false} RefDropsAll(s: string)
    requires forall i :: 0 <= i < |s| ==> !IsSeparator(s[i]) && !IsIdentifierChar(s[i])
    ensures SanitiseRef(s) == ""
    decreases |s|
  {
    if s != [] {
      RefDropsAll(s[1..]);
    }
  }

  /** The generated name can be empty: without the directory prefix, a file
      name made only of dropped characters ("+", "é") gives "", which is not
      a C identifier. Nothing in the generator rejects it. */
  lemma EmptyNamePossible(fileName: string, relPath: string)
    requires forall i :: 0 <= i < |fileName| ==> !IsSeparator(fileName[i]) && !IsIdentifierChar(fileName[i])
    ensures GenerateName(fileName, relPath, false) == ""
  {
    SanitiseMatchesReference(fileName);
    RefDropsAll(fileName);
  }

  /** Distinct files can share an identifier: the source does not detect this. */
  lemma NamesCanCollide()
    ensures GenerateName("a b", "", false) == GenerateName("a.b", "", false)
  {
    SanitiseMatchesReference("a b");
    SanitiseMatchesReference("a.b");
    assert SanitiseRef("a b") == "a_b";
    assert SanitiseRef("a.b") == "a_b";
  }
}

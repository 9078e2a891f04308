// How main (Source/Main.cpp) spreads the array definitions over numbered
// output units: after each file it compares the current unit's size with
// 15 MiB and, once the unit has reached it, seals the unit and opens the
// next, writing a one-line wrapper file for every unit it opens. After the
// run it pads the wrapper files with empty ones up to a requested count.
//
// A unit is its text; its size is the length of that text.

module Units {
  import opened Text

  /** 15 MiB: a unit this large after a file is sealed and a new one opened. */
  const UnitLimit: nat := 15 * 1024 * 1024

  /** The two lines every unit starts with. */
  function UnitPreamble(className: string): string {
    "/* (Auto-generated binary data file). */\r\n\r\n#include \"" + className + ".h\"\r\n\r\n"
  }

  /** The wrapper of a unit that exists: one line including it. */
  function WrapperText(className: string, unit: nat): string {
    "#include \"" + className + Dec(unit) + ".cpp\"\n"
  }

  /** The wrapper written for a unit number beyond the last real unit. */
  const EmptyWrapper: string := "\n"

  function Max(a: int, b: int): int {
    if a < b then b else a
  }

  /** Wrappers 1..n, each including its unit. */
  function IncludeWrappers(className: string, n: int): map<int, string> {
    map k | 1 <= k <= n :: WrapperText(className, k)
  }

  /** Opening unit n + 1 adds its wrapper to those of units 1..n. */
  lemma IncludeWrappersNext(className: string, n: int)
    requires n >= 0
    ensures IncludeWrappers(className, n)[n + 1 := WrapperText(className, n + 1)]
         == IncludeWrappers(className, n + 1)
  {
  }

  /** The wrapper files after a run that produced `units` units and was asked
      for at least `minCount`. */
  function FinalWrappers(className: string, units: int, minCount: int): map<int, string> {
    map k | 1 <= k <= Max(units, minCount) ::
      if k <= units then WrapperText(className, k) else EmptyWrapper
  }

  /** Every unit number from 1 to the requested minimum has a wrapper, the
      wrapper of each real unit includes that unit, the others are empty, and
      there are no further wrappers. */
  lemma FinalWrappersCover(className: string, units: int, minCount: int)
    requires units >= 1
    ensures forall k :: 1 <= k <= minCount ==> k in FinalWrappers(className, units, minCount)
    ensures forall k :: 1 <= k <= units ==>
              k in FinalWrappers(className, units, minCount) &&
              FinalWrappers(className, units, minCount)[k] == WrapperText(className, k)
    ensures forall k :: units < k <= minCount ==>
              FinalWrappers(className, units, minCount)[k] == EmptyWrapper
    ensures forall k :: k in FinalWrappers(className, units, minCount) ==>
              1 <= k <= Max(units, minCount)
  {
    var w := FinalWrappers(className, units, minCount);
    forall k | 1 <= k <= minCount
      ensures k in w
    {
      assert 1 <= k <= Max(units, minCount);
    }
    forall k | 1 <= k <= units
      ensures k in w && w[k] == WrapperText(className, k)
    {
      assert 1 <= k <= Max(units, minCount);
    }
  }

  // ---------------------------------------------------------------------------
  // Sequences of texts.

  lemma Assoc4(a: string, b: string, c: string, d: string, e: string)
    ensures a + b + c + d + e == a + (b + c + d + e)
  {
  }

  function Concat(ds: seq<string>): string {
    if ds == [] then "" else Concat(ds[..|ds| - 1]) + ds[|ds| - 1]
  }

  function Flatten(us: seq<seq<string>>): seq<string> {
    if us == [] then [] else Flatten(us[..|us| - 1]) + us[|us| - 1]
  }

  function Sum(s: seq<nat>): nat {
    if s == [] then 0 else Sum(s[..|s| - 1]) + s[|s| - 1]
  }

  lemma ConcatSnoc(ds: seq<string>, d: string)
    ensures Concat(ds + [d]) == Concat(ds) + d
  {
    assert (ds + [d])[..|ds|] == ds;
  }

  lemma SumSnoc(s: seq<nat>, x: nat)
    ensures Sum(s + [x]) == Sum(s) + x
  {
    assert (s + [x])[..|s|] == s;
  }

  /** The definitions of all units with one more definition in the last. */
  function Grow(us: seq<seq<string>>, d: string): (r: seq<seq<string>>)
    requires |us| >= 1
    ensures |r| == |us|
  {
    us[..|us| - 1] + [us[|us| - 1] + [d]]
  }

  lemma FlattenSnoc(us: seq<seq<string>>, u: seq<string>)
    ensures Flatten(us + [u]) == Flatten(us) + u
  {
    assert (us + [u])[..|us|] == us;
  }

  lemma FlattenGrow(us: seq<seq<string>>, d: string)
    requires |us| >= 1
    ensures Flatten(Grow(us, d)) == Flatten(us) + [d]
  {
    var init, last := us[..|us| - 1], us[|us| - 1];
    var fi := Flatten(init);
    assert Flatten(us) == fi + last;
    FlattenSnoc(init, last + [d]);
    assert fi + (last + [d]) == fi + last + [d];
  }

  lemma FlattenOpen(us: seq<seq<string>>)
    ensures Flatten(us + [[]]) == Flatten(us)
  {
    FlattenSnoc(us, []);
  }

  // ---------------------------------------------------------------------------
  // The split invariant.

  /** Every size the unit reached before its last definition was below the
      limit: the unit was not sealed while definitions were still coming. */
  predicate FilledBelowLimit(preamble: string, defs: seq<string>) {
    forall m :: 1 <= m < |defs| ==> |preamble| + |Concat(defs[..m])| < UnitLimit
  }

  lemma FilledSnoc(preamble: string, defs: seq<string>, d: string)
    requires FilledBelowLimit(preamble, defs)
    requires defs != [] ==> |preamble| + |Concat(defs)| < UnitLimit
    ensures FilledBelowLimit(preamble, defs + [d])
  {
    var defs' := defs + [d];
    forall m | 1 <= m < |defs'|
      ensures |preamble| + |Concat(defs'[..m])| < UnitLimit
    {
      assert defs'[..m] == defs[..m];
      if m == |defs| {
        assert defs[..m] == defs;
      }
    }
  }

  /** The units while files are being encoded: `sealed` are the units already
      closed, `cpp` the open one, and `defs[k]` the array definitions written
      to unit k + 1. Each unit is the preamble followed by its definitions;
      each sealed unit reached the limit; no unit received a definition after
      it had reached the limit. */
  predicate Split(preamble: string, sealed: seq<string>, defs: seq<seq<string>>, cpp: string) {
    && |defs| == |sealed| + 1
    && (forall j :: 0 <= j < |sealed| ==>
          sealed[j] == preamble + Concat(defs[j]) && |sealed[j]| >= UnitLimit)
    && cpp == preamble + Concat(defs[|sealed|])
    && (forall j :: 0 <= j < |defs| ==> FilledBelowLimit(preamble, defs[j]))
  }

  /** The open unit, if it holds a definition, is below the limit. */
  predicate OpenBelowLimit(defs: seq<seq<string>>, cpp: string) {
    |defs| >= 1 && (defs[|defs| - 1] != [] ==> |cpp| < UnitLimit)
  }

  /** The first unit, just opened. */
  lemma SplitStart(preamble: string)
    ensures Split(preamble, [], [[]], preamble) && OpenBelowLimit([[]], preamble)
    ensures Flatten([[]]) == []
  {
    assert Concat([]) == "";
    var us: seq<seq<string>> := [[]];
    assert us[..0] == [];
  }

  /** Writing a definition to the open unit, when it is below the limit or
      still empty, keeps the invariant. */
  lemma SplitAppend(preamble: string, sealed: seq<string>, defs: seq<seq<string>>, cpp: string, d: string)
    requires Split(preamble, sealed, defs, cpp) && OpenBelowLimit(defs, cpp)
    ensures Split(preamble, sealed, Grow(defs, d), cpp + d)
    ensures Flatten(Grow(defs, d)) == Flatten(defs) + [d]
  {
    var n := |defs|;
    var last := defs[n - 1];
    var g := Grow(defs, d);
    assert forall j :: 0 <= j < n - 1 ==> g[j] == defs[j];
    assert g[n - 1] == last + [d];
    ConcatSnoc(last, d);
    FilledSnoc(preamble, last, d);
    FlattenGrow(defs, d);
    var c := Concat(last);
    assert cpp + d == preamble + (c + d);
  }

  /** Sealing a unit that has reached the limit and opening an empty one
      keeps the invariant and writes no definition. */
  lemma SplitSeal(preamble: string, sealed: seq<string>, defs: seq<seq<string>>, cpp: string)
    requires Split(preamble, sealed, defs, cpp) && |cpp| >= UnitLimit
    ensures Split(preamble, sealed + [cpp], defs + [[]], preamble)
    ensures OpenBelowLimit(defs + [[]], preamble)
    ensures Flatten(defs + [[]]) == Flatten(defs)
  {
    assert Concat([]) == "";
    FlattenOpen(defs);
  }

  /** Each sealed unit holds at least the limit, so a run that fills k units
      besides the last one wrote at least k times the limit. */
  lemma {:induction false} SealedUnitsBound(sealed: seq<string>)
    requires forall j :: 0 <= j < |sealed| ==> |sealed[j]| >= UnitLimit
    ensures |sealed| * UnitLimit <= |Concat(sealed)|
  {
    if sealed != [] {
      var init := sealed[..|sealed| - 1];
      assert forall j :: 0 <= j < |init| ==> init[j] == sealed[j];
      SealedUnitsBound(init);
    }
  }

  // ---------------------------------------------------------------------------
  // The byte counters.

  /** `total` counts all recorded sizes, `current` those from `start` on. */
  predicate Counted(sizes: seq<nat>, start: nat, total: nat, current: nat) {
    start <= |sizes| && total == Sum(sizes) && current == Sum(sizes[start..])
  }

  lemma CountedAdd(sizes: seq<nat>, start: nat, total: nat, current: nat, sz: nat)
    requires Counted(sizes, start, total, current)
    ensures Counted(sizes + [sz], start, total + sz, current + sz)
  {
    SumSnoc(sizes, sz);
    assert (sizes + [sz])[start..] == sizes[start..] + [sz];
    SumSnoc(sizes[start..], sz);
  }

  lemma CountedRestart(sizes: seq<nat>, total: nat)
    requires total == Sum(sizes)
    ensures Counted(sizes, |sizes|, total, 0)
  {
    assert sizes[|sizes|..] == [];
  }
}

// The staleness gate of main (Source/Main.cpp): regenerate when the header
// does not exist, or when some enumerated file -- hidden or not -- was
// modified strictly after the header. Timestamps are integers here.

module Staleness {

  /** The regeneration condition, stated directly. */
  predicate NeedsRegeneration(headerExists: bool, headerTime: int, times: seq<int>) {
    !headerExists || exists i :: 0 <= i < |times| && times[i] > headerTime
  }

  /** The loop of main: scan the modification times, stop at the first one
      newer than the header's. */
  method CheckStaleness(headerExists: bool, headerTime: int, times: seq<int>)
    returns (needsProcessing: bool)
    ensures needsProcessing == NeedsRegeneration(headerExists, headerTime, times)
  {
    needsProcessing := false;
    if !headerExists {
      needsProcessing := true;
    } else {
      var i := 0;
      while i < |times|
        invariant 0 <= i <= |times|
        invariant !needsProcessing
        invariant forall j :: 0 <= j < i ==> times[j] <= headerTime
      {
        if times[i] > headerTime {
          needsProcessing := true;
          break;
        }
        i := i + 1;
      }
    }
  }

  function Newest(times: seq<int>): (m: int)
    requires |times| >= 1
    ensures forall i :: 0 <= i < |times| ==> times[i] <= m
    ensures exists i :: 0 <= i < |times| && times[i] == m
  {
    if |times| == 1 then times[0]
    else
      var rest := Newest(times[1..]);
      assert forall i :: 1 <= i < |times| ==> times[i] == times[1..][i - 1];
      if times[0] >= rest then times[0] else rest
  }

  /** Equivalently: regenerate iff the header is missing or the newest file
      is strictly newer than it. In particular a file stamped with exactly the
      header's time does not trigger a rebuild, and a run that leaves the
      header newest is followed by a run that writes nothing. */
  lemma NewestDecides(headerExists: bool, headerTime: int, times: seq<int>)
    ensures NeedsRegeneration(headerExists, headerTime, times)
        <==> !headerExists || (|times| >= 1 && Newest(times) > headerTime)
  {
    if headerExists && |times| >= 1 && Newest(times) > headerTime {
      var i :| 0 <= i < |times| && times[i] == Newest(times);
      assert times[i] > headerTime;
    }
  }
}

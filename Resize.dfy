/** engine/TerminalResizeEventHandler.java: remembers the last terminal size,
    raises a flag on every resize that the game loop tests and clears, and
    runs the subscribed callbacks, in subscription order, on each resize. */
module Resize {

  /** Lanterna's `TerminalSize`, whose constructor refuses negative
      dimensions. */
  datatype TerminalSize = TerminalSize(columns: nat, rows: nat)

  /** A subscribed `Runnable`. Its effect lies outside the handler, so the
      model only tells callbacks apart (by reference, as `List.remove` does
      for objects that do not override `equals`). */
  datatype Runnable = Runnable(id: nat)

  /** What `List.remove(Object)` leaves: `s` without its first element equal
      to `r`, or `s` itself when there is none. */
  function RemoveFirst(s: seq<Runnable>, r: Runnable): seq<Runnable>
  {
    if s == [] then []
    else if s[0] == r then s[1..]
    else [s[0]] + RemoveFirst(s[1..], r)
  }

  /** Removing a callback that was never subscribed changes nothing. */
  lemma {:induction false} RemoveFirstAbsent(s: seq<Runnable>, r: Runnable)
    requires r !in s
    ensures RemoveFirst(s, r) == s
  {
    if s != [] {
      RemoveFirstAbsent(s[1..], r);
    }
  }

  /** Otherwise exactly the first occurrence goes, and the others keep their
      order: the list is cut at the first index holding `r`. */
  lemma {:induction false} RemoveFirstCut(s: seq<Runnable>, r: Runnable, i: nat)
    requires i < |s| && s[i] == r && r !in s[..i]
    ensures RemoveFirst(s, r) == s[..i] + s[i + 1..]
  {
    if i > 0 {
      var t := s[1..];
      assert s[0] in s[..i];
      assert t[..i - 1] == s[1..i];
      RemoveFirstCut(t, r, i - 1);
      assert s[..i] == [s[0]] + t[..i - 1];
      assert s[i + 1..] == t[i..];
    }
  }

  /** So removing a subscribed callback takes one copy of it out of the
      list and nothing else. */
  lemma RemoveFirstPresent(s: seq<Runnable>, r: Runnable, i: nat)
    requires i < |s| && s[i] == r && r !in s[..i]
    ensures RemoveFirst(s, r) == s[..i] + s[i + 1..]
    ensures multiset(RemoveFirst(s, r)) == multiset(s) - multiset{r}
    ensures |RemoveFirst(s, r)| == |s| - 1
  {
    var before, after := s[..i], s[i + 1..];
    RemoveFirstCut(s, r, i);
    assert s == before + [r] + after;
    assert multiset(s) == multiset(before) + multiset{r} + multiset(after);
    assert multiset(before + after) == multiset(before) + multiset(after);
  }

  /** Unsubscribing right after subscribing a new callback restores the
      list. */
  lemma {:induction false} SubscribeUnsubscribe(s: seq<Runnable>, r: Runnable)
    requires r !in s
    ensures RemoveFirst(s + [r], r) == s
  {
    assert (s + [r])[..|s|] == s;
    RemoveFirstPresent(s + [r], r, |s|);
  }

  class TerminalResizeEventHandler {
    var wasResized: bool
    var lastKnownSize: TerminalSize
    var resizeRunnables: seq<Runnable>

    /** `new TerminalResizeEventHandler(initialSize)`. */
    constructor (initialSize: TerminalSize)
      ensures lastKnownSize == initialSize
      ensures !wasResized && resizeRunnables == []
    {
      wasResized := false;
      lastKnownSize := initialSize;
      resizeRunnables := [];
    }

    /** `isTerminalResized()`: tells whether a resize happened since the last
        call, and forgets it. */
    method IsTerminalResized() returns (resized: bool)
      modifies this`wasResized
      ensures resized == old(wasResized)
      ensures !wasResized
    {
      if wasResized {
        wasResized := false;
        return true;
      } else {
        return false;
      }
    }

    function GetLastKnownSize(): (r: TerminalSize)
      reads this
      ensures r == lastKnownSize
    {
      lastKnownSize
    }

    /** `onResized(terminal, newSize)`: records the size, raises the flag and
        runs every subscribed callback once, in order; `ran` is the sequence
        of callbacks run. */
    method OnResized(newSize: TerminalSize) returns (ran: seq<Runnable>)
      modifies this`wasResized, this`lastKnownSize
      ensures wasResized
      ensures GetLastKnownSize() == newSize
      ensures ran == resizeRunnables
    {
      wasResized := true;
      lastKnownSize := newSize;
      ran := [];
      for i := 0 to |resizeRunnables|
        invariant ran == resizeRunnables[..i]
      {
        ran := ran + [resizeRunnables[i]];
      }
    }

    /** `subscribe(runnable)`: appends, keeping duplicates. */
    method Subscribe(runnable: Runnable)
      modifies this`resizeRunnables
      ensures resizeRunnables == old(resizeRunnables) + [runnable]
    {
      resizeRunnables := resizeRunnables + [runnable];
    }

    /** `unsubscribe(runnable)`: scans for the first equal entry and removes
        it, if there is one. */
    method Unsubscribe(runnable: Runnable)
      modifies this`resizeRunnables
      ensures resizeRunnables == RemoveFirst(old(resizeRunnables), runnable)
    {
      var i := 0;
      while i < |resizeRunnables| && resizeRunnables[i] != runnable
        invariant 0 <= i <= |resizeRunnables|
        invariant runnable !in resizeRunnables[..i]
      {
        i := i + 1;
      }
      if i < |resizeRunnables| {
        RemoveFirstPresent(resizeRunnables, runnable, i);
        resizeRunnables := resizeRunnables[..i] + resizeRunnables[i + 1..];
      } else {
        assert resizeRunnables[..i] == resizeRunnables;
        RemoveFirstAbsent(resizeRunnables, runnable);
      }
    }
  }

  /** A resize is reported exactly once: the first test after it answers
      true, the next one false. */
  method ResizeReportedOnce(h: TerminalResizeEventHandler, size: TerminalSize) returns (first: bool, second: bool)
    modifies h
    ensures first && !second
    ensures h.GetLastKnownSize() == size
  {
    var _ := h.OnResized(size);
    first := h.IsTerminalResized();
    second := h.IsTerminalResized();
  }
}

/**
  * The trail update of doIntercept: integrating the current crumb into the session's stack
  * under a resolved comparator and rewind mode. Step is the specification of one update,
  * for any index the trail's indexOf may report; UpdateCrumbs is the in-place update,
  * proved to produce Step with the index the trail's IndexOf returns.
  */
module TrailUpdate {
  import opened Wrappers
  import opened Crumbs
  import opened Trail

  /** After a push: drop the single oldest entry when the stack is over the bound. */
  function Evict(s: seq<Crumb>, maxCrumbs: int): (r: seq<Crumb>)
    requires s != []
    ensures |r| == if |s| > maxCrumbs then |s| - 1 else |s|
    ensures r == s[|s| - |r|..]
  {
    if |s| > maxCrumbs then s[1..] else s
  }

  /**
    * The stack after one update. If the comparator reports current equal to the top (the
    * absent top when the stack is empty), the top is replaced and an empty stack stays
    * empty. Otherwise, in AUTO mode with a duplicate at dupIdx, the duplicate and every
    * later entry are discarded; current is pushed and the oldest entry evicted if needed.
    */
  function Step(s: seq<Crumb>, current: Crumb, cmp: Comparator, mode: RewindMode,
                maxCrumbs: int, dupIdx: int): seq<Crumb>
    requires IsIndexOf(s, current, cmp, dupIdx)
  {
    if cmp(current, Last(s)) != 0 then
      var kept := if mode == AUTO && dupIdx != -1 then s[..dupIdx] else s;
      Evict(kept + [current], maxCrumbs)
    else if s != [] then
      s[..|s| - 1] + [current]
    else
      s
  }

  /** A refresh of the top: same size, current on top, every entry below unchanged. */
  lemma ReplaceTop(s: seq<Crumb>, current: Crumb, cmp: Comparator, mode: RewindMode,
                   maxCrumbs: int, dupIdx: int)
    requires IsIndexOf(s, current, cmp, dupIdx)
    requires s != [] && cmp(current, Last(s)) == 0
    ensures var r := Step(s, current, cmp, mode, maxCrumbs, dupIdx);
      |r| == |s| && r[|r| - 1] == current && r[..|r| - 1] == s[..|s| - 1]
  {
  }

  /** A refresh against an empty stack pushes nothing. */
  lemma RefreshOfEmpty(current: Crumb, cmp: Comparator, mode: RewindMode,
                       maxCrumbs: int, dupIdx: int)
    requires IsIndexOf([], current, cmp, dupIdx)
    requires cmp(current, None) == 0
    ensures Step([], current, cmp, mode, maxCrumbs, dupIdx) == []
  {
  }

  /** The top was compared first, so a reported duplicate is always strictly below it. */
  lemma DuplicateBelowTop(s: seq<Crumb>, current: Crumb, cmp: Comparator, dupIdx: int)
    requires IsIndexOf(s, current, cmp, dupIdx)
    requires cmp(current, Last(s)) != 0 && dupIdx != -1
    ensures 0 <= dupIdx < |s| - 1
  {
  }

  /** With a positive bound, a crumb that differs from the top ends up as the new top. */
  lemma PushedOnTop(s: seq<Crumb>, current: Crumb, cmp: Comparator, mode: RewindMode,
                    maxCrumbs: int, dupIdx: int)
    requires IsIndexOf(s, current, cmp, dupIdx)
    requires cmp(current, Last(s)) != 0 && maxCrumbs >= 1
    ensures var r := Step(s, current, cmp, mode, maxCrumbs, dupIdx);
      r != [] && Last(r) == Some(current)
  {
  }

  /** An update never takes a stack within its bound over it. */
  lemma StaysBounded(s: seq<Crumb>, current: Crumb, cmp: Comparator, mode: RewindMode,
                     maxCrumbs: int, dupIdx: int)
    requires IsIndexOf(s, current, cmp, dupIdx)
    requires |s| <= maxCrumbs
    ensures |Step(s, current, cmp, mode, maxCrumbs, dupIdx)| <= maxCrumbs
  {
  }

  /**
    * Without AUTO rewind the update is a push onto the whole old stack, less the oldest
    * entry exactly when that push goes over the bound: a deeper duplicate is kept.
    */
  lemma PushWithoutRewind(s: seq<Crumb>, current: Crumb, cmp: Comparator, mode: RewindMode,
                          maxCrumbs: int, dupIdx: int)
    requires IsIndexOf(s, current, cmp, dupIdx)
    requires cmp(current, Last(s)) != 0 && (mode != AUTO || dupIdx == -1)
    ensures var r := Step(s, current, cmp, mode, maxCrumbs, dupIdx);
      (|s| + 1 > maxCrumbs ==> r == (s + [current])[1..]) &&
      (|s| + 1 <= maxCrumbs ==> r == s + [current])
  {
  }

  /**
    * AUTO rewind to a duplicate at dupIdx: the duplicate and everything after it are
    * discarded and current is pushed; nothing is evicted when the stack was within bound.
    */
  lemma RewindToDuplicate(s: seq<Crumb>, current: Crumb, cmp: Comparator,
                          maxCrumbs: int, dupIdx: int)
    requires IsIndexOf(s, current, cmp, dupIdx)
    requires cmp(current, Last(s)) != 0 && dupIdx != -1
    requires |s| <= maxCrumbs
    ensures Step(s, current, cmp, AUTO, maxCrumbs, dupIdx) == s[..dupIdx] + [current]
  {
  }

  /**
    * Refreshing twice in a row with crumbs equal to the top leaves the size as after once,
    * whatever indices indexOf reports.
    */
  lemma RepeatedRefresh(s: seq<Crumb>, c1: Crumb, c2: Crumb, cmp: Comparator,
                        mode: RewindMode, maxCrumbs: int, k1: int, k2: int)
    requires IsIndexOf(s, c1, cmp, k1)
    requires s != [] && cmp(c1, Last(s)) == 0
    requires cmp(c2, Some(c1)) == 0
    requires IsIndexOf(Step(s, c1, cmp, mode, maxCrumbs, k1), c2, cmp, k2)
    ensures var r1 := Step(s, c1, cmp, mode, maxCrumbs, k1);
      var r2 := Step(r1, c2, cmp, mode, maxCrumbs, k2);
      |r2| == |r1| == |s| && Last(r2) == Some(c2)
  {
  }

  /**
    * Rewind on the trail [a, b, c]: a crumb equal to b alone collapses it to [a, b2] in
    * AUTO mode, and is appended as a repeat of b without rewind.
    */
  lemma RewindCollapsesHistory(a: Crumb, b: Crumb, c: Crumb, b2: Crumb, cmp: Comparator,
                               maxCrumbs: int)
    requires !SameStep(cmp, b2, a) && SameStep(cmp, b2, b) && !SameStep(cmp, b2, c)
    requires maxCrumbs >= 4
    ensures Step([a, b, c], b2, cmp, AUTO, maxCrumbs, FirstMatch([a, b, c], b2, cmp)) == [a, b2]
    ensures Step([a, b, c], b2, cmp, NEVER, maxCrumbs, FirstMatch([a, b, c], b2, cmp))
            == [a, b, c, b2]
  {
  }

  /** With a bound of 3, pushing a new d onto [a, b, c] evicts a. */
  lemma OldestEvicted(a: Crumb, b: Crumb, c: Crumb, d: Crumb, cmp: Comparator, mode: RewindMode)
    requires !SameStep(cmp, d, a) && !SameStep(cmp, d, b) && !SameStep(cmp, d, c)
    ensures Step([a, b, c], d, cmp, mode, 3, FirstMatch([a, b, c], d, cmp)) == [b, c, d]
  {
  }

  /** One navigation event as the update sees it: the crumb, comparator and mode. */
  datatype Event = Event(current: Crumb, cmp: Comparator, mode: RewindMode)

  /** The stack after a sequence of updates against one trail, oldest event first. */
  function Run(s: seq<Crumb>, events: seq<Event>, maxCrumbs: int): seq<Crumb>
    decreases |events|
  {
    if events == [] then s
    else
      var e := events[0];
      Run(Step(s, e.current, e.cmp, e.mode, maxCrumbs, FirstMatch(s, e.current, e.cmp)),
          events[1..], maxCrumbs)
  }

  /** For any number of updates, a trail that starts within its bound stays within it. */
  lemma {:induction false} RunStaysBounded(s: seq<Crumb>, events: seq<Event>, maxCrumbs: int)
    requires |s| <= maxCrumbs
    ensures |Run(s, events, maxCrumbs)| <= maxCrumbs
    decreases |events|
  {
    if events != [] {
      var e := events[0];
      var k := FirstMatch(s, e.current, e.cmp);
      StaysBounded(s, e.current, e.cmp, e.mode, maxCrumbs, k);
      RunStaysBounded(Step(s, e.current, e.cmp, e.mode, maxCrumbs, k), events[1..], maxCrumbs);
    }
  }

  /**
    * The update of doIntercept, in place on the trail's stack: compare with the top, then
    * either replace the top or look for a duplicate, rewind to it in AUTO mode, push and
    * evict the oldest entry when the stack is over the trail's bound.
    */
  method UpdateCrumbs(trail: BreadCrumbTrail, current: Crumb, cmp: Comparator, mode: RewindMode)
    modifies trail`crumbs
    ensures trail.crumbs == Step(old(trail.crumbs), current, cmp, mode, trail.maxCrumbs,
                                 FirstMatch(old(trail.crumbs), current, cmp))
  {
    var maxCrumbs := trail.maxCrumbs;
    var last := if |trail.crumbs| == 0 then None else Some(trail.crumbs[|trail.crumbs| - 1]);
    if cmp(current, last) != 0 {
      var dupIdx := trail.IndexOf(current, cmp);
      if mode == AUTO && dupIdx != -1 {
        trail.RewindAt(dupIdx - 1);
      }
      trail.crumbs := trail.crumbs + [current];
      if |trail.crumbs| > maxCrumbs {
        trail.crumbs := trail.crumbs[1..];
      }
    } else {
      if |trail.crumbs| > 0 {
        trail.crumbs := trail.crumbs[..|trail.crumbs| - 1];
        trail.crumbs := trail.crumbs + [current];
      }
    }
  }
}

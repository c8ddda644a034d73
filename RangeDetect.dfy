/** Automatic detection of the segment range (workers.py `_find_start` and
    `_find_end`), stated over an existence predicate `ex`. The functions here
    describe an uninterrupted search: the indices it probes, in order, and
    the index it settles on. The worker's methods are proved to follow them. */
module RangeDetect {

  /** Phase 1 never probes at or beyond this index. */
  const MaxProbe: nat := 100000
  const FirstStep: nat := 100
  const MaxStep: nat := 1000

  /** The start candidates `_find_start` tries, in order, and its fallback. */
  const StartCandidates: seq<nat> := [0, 1]
  const FallbackStart: nat := 1

  /** The outcome of a search: where it stopped, and every index it probed. */
  datatype Search = Search(last: nat, probes: seq<nat>)

  function Min(a: int, b: int): int { if a <= b then a else b }
  function Max(a: int, b: int): int { if a >= b then a else b }

  /** `min(step * 2, 1000)`. */
  function NextStep(step: nat): (r: nat)
    requires FirstStep <= step <= MaxStep
    ensures FirstStep <= r <= MaxStep && r >= step
  {
    Min(step * 2, MaxStep)
  }

  // ---------------------------------------------------------------------
  // _find_start

  /** The first candidate that exists, else the fallback. */
  function StartSearch(ex: nat -> bool): (r: nat)
    ensures r in StartCandidates
    ensures r == 0 <==> ex(0)
  {
    if ex(0) then 0 else if ex(1) then 1 else FallbackStart
  }

  // ---------------------------------------------------------------------
  // _find_end, phase 1: bracketing by growing steps

  function Bracket(ex: nat -> bool, probe: nat, step: nat): Search
    requires FirstStep <= step <= MaxStep
    decreases MaxProbe - probe
  {
    if probe >= MaxProbe then Search(probe, [])
    else if !ex(probe) then Search(probe, [probe])
    else
      var rest := Bracket(ex, probe + step, NextStep(step));
      Search(rest.last, [probe] + rest.probes)
  }

  /** Phase 1 stops at the first failed probe or at the ceiling; its probes
      start where it starts, stay below the ceiling, all but the last exist,
      and consecutive probes are between 100 and 1000 apart. */
  lemma {:induction false} BracketShape(ex: nat -> bool, probe: nat, step: nat)
    requires FirstStep <= step <= MaxStep
    ensures var r := Bracket(ex, probe, step);
      && r.last >= probe
      && (r.last >= MaxProbe || !ex(r.last))
      && (r.probes != [] ==> r.probes[0] == probe)
      && (r.last < MaxProbe ==> r.probes != [] && r.probes[|r.probes| - 1] == r.last)
      && (forall k :: 0 <= k < |r.probes| ==> probe <= r.probes[k] < MaxProbe)
      && (forall k :: 0 <= k < |r.probes| - 1 ==> ex(r.probes[k]))
      && (forall k :: 0 <= k < |r.probes| - 1 ==> FirstStep <= r.probes[k + 1] - r.probes[k] <= MaxStep)
    decreases MaxProbe - probe
  {
    if probe < MaxProbe && ex(probe) {
      BracketShape(ex, probe + step, NextStep(step));
      var rest := Bracket(ex, probe + step, NextStep(step));
      var r := Bracket(ex, probe, step);
      assert r.probes == [probe] + rest.probes;
      assert rest.probes != [] ==> r.probes[1] == probe + step;
      forall k | 0 <= k < |r.probes| - 1
        ensures ex(r.probes[k]) && FirstStep <= r.probes[k + 1] - r.probes[k] <= MaxStep
      {
        if k > 0 {
          assert r.probes[k] == rest.probes[k - 1] && r.probes[k + 1] == rest.probes[k];
        }
      }
    }
  }

  // ---------------------------------------------------------------------
  // _find_end, phase 2: binary search with the upper midpoint

  function Bisect(ex: nat -> bool, low: nat, high: nat): Search
    decreases high - low
  {
    if low >= high then Search(low, [])
    else
      var mid := (low + high + 1) / 2;
      if ex(mid) then
        var rest := Bisect(ex, mid, high);
        Search(rest.last, [mid] + rest.probes)
      else
        var rest := Bisect(ex, low, mid - 1);
        Search(rest.last, [mid] + rest.probes)
  }

  /** The search never leaves its interval, never returns below `low`, and
      returns either `low` itself or an index that was seen to exist. */
  lemma {:induction false} BisectBounds(ex: nat -> bool, low: nat, high: nat)
    ensures var r := Bisect(ex, low, high);
      && low <= r.last <= Max(low, high)
      && (r.last == low || ex(r.last))
      && (forall k :: 0 <= k < |r.probes| ==> low < r.probes[k] <= high)
    decreases high - low
  {
    if low < high {
      var mid := (low + high + 1) / 2;
      if ex(mid) { BisectBounds(ex, mid, high); } else { BisectBounds(ex, low, mid - 1); }
    }
  }

  /** On an interval where existence is "at most K", the binary search finds
      the last existing index that the interval allows. */
  lemma {:induction false} BisectFindsLast(ex: nat -> bool, low: nat, high: nat, k: nat)
    requires low <= k
    requires forall i :: low < i <= high ==> (ex(i) <==> i <= k)
    ensures Bisect(ex, low, high).last == Max(low, Min(k, high))
    decreases high - low
  {
    if low < high {
      var mid := (low + high + 1) / 2;
      if ex(mid) { BisectFindsLast(ex, mid, high, k); } else { BisectFindsLast(ex, low, mid - 1, k); }
    }
  }

  /** The number of binary digits of `n`: the number of halvings to reach 0. */
  function Bits(n: nat): nat
  {
    if n == 0 then 0 else 1 + Bits(n / 2)
  }

  lemma {:induction false} BitsMonotone(m: nat, n: nat)
    requires m <= n
    ensures Bits(m) <= Bits(n)
  {
    if m > 0 { BitsMonotone(m / 2, n / 2); }
  }

  /** Each probe at least halves the interval, so phase 2 makes at most
      logarithmically many probes. */
  lemma {:induction false} BisectProbeCount(ex: nat -> bool, low: nat, high: nat)
    ensures low < high ==> |Bisect(ex, low, high).probes| <= Bits(high - low)
    decreases high - low
  {
    if low < high {
      var mid := (low + high + 1) / 2;
      var d := high - low;
      if ex(mid) {
        BisectProbeCount(ex, mid, high);
        BitsMonotone(high - mid, d / 2);
      } else {
        BisectProbeCount(ex, low, mid - 1);
        BitsMonotone(mid - 1 - low, d / 2);
      }
    }
  }

  // ---------------------------------------------------------------------
  // _find_end as a whole

  /** Phase 1 from `start` with step 100, then phase 2 over
      `[start, min(bracket, ceiling)]`. */
  function EndSearch(ex: nat -> bool, start: nat): Search
  {
    var bracket := Bracket(ex, start, FirstStep);
    var high: nat := Min(bracket.last, MaxProbe);
    var bisect := Bisect(ex, start, high);
    Search(bisect.last, bracket.probes + bisect.probes)
  }

  /** `_find_end` never returns an index below `start`, and what it returns
      is `start` itself or an index that exists. */
  lemma EndSearchBounds(ex: nat -> bool, start: nat)
    ensures var r := EndSearch(ex, start);
      && start <= r.last <= Max(start, MaxProbe)
      && (r.last == start || ex(r.last))
  {
    BracketShape(ex, start, FirstStep);
    var bracket := Bracket(ex, start, FirstStep);
    BisectBounds(ex, start, Min(bracket.last, MaxProbe));
  }

  /** For existence "at most K" from `start` on, with `K >= start`, the
      detected end is K capped at the ceiling (or `start` when the start is
      already beyond the ceiling). */
  lemma EndSearchFindsLast(ex: nat -> bool, start: nat, k: nat)
    requires start <= k
    requires forall i :: start <= i ==> (ex(i) <==> i <= k)
    ensures EndSearch(ex, start).last == Max(start, Min(k, MaxProbe))
    ensures start <= MaxProbe ==> EndSearch(ex, start).last == Min(k, MaxProbe)
  {
    BracketShape(ex, start, FirstStep);
    var bracket := Bracket(ex, start, FirstStep);
    var high: nat := Min(bracket.last, MaxProbe);
    BisectFindsLast(ex, start, high, k);
  }

  /** With a ceiling-limited bracket, phase 2 makes at most 17 probes. */
  lemma EndSearchBisectProbes(ex: nat -> bool, start: nat)
    ensures |EndSearch(ex, start).probes| <= |Bracket(ex, start, FirstStep).probes| + Bits(MaxProbe)
  {
    var bracket := Bracket(ex, start, FirstStep);
    var high: nat := Min(bracket.last, MaxProbe);
    BisectProbeCount(ex, start, high);
    if start < high { BitsMonotone(high - start, MaxProbe); }
  }
}

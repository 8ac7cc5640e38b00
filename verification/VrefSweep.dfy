/**
 The two VREF sweeps of DDR training (exec_trainingVREF in ddr/common/ddr.c). Both walk down from a middle
 code and then up from it, using one loop that rewrites its own counter; both keep, for every byte lane,
 the smallest window difference and a capped list of the settings that attain it.
 */
module VrefSweep {

  const MAX_BEST_VREF_SAVED := 30
  const NO_WINDOW := 255

  /** The result of training at one setting on one byte lane: the two 6-bit window edges when it passed. */
  datatype Reading = Failed | Passed(window0: nat, window1: nat)

  type Observations = (nat, nat) -> Reading

  /** The edges are read through a mask of 0x3F. */
  function WindowDiff(r: Reading): (d: nat)
    requires r.Passed?
    ensures d < NO_WINDOW
  {
    var w0, w1 := r.window0 % 64, r.window1 % 64;
    if w0 > w1 then w0 - w1 else w1 - w0
  }

  function Min(a: int, b: int): int { if a < b then a else b }

  function Max(a: int, b: int): int { if a > b then a else b }

  function Abs(x: int): int { if x < 0 then -x else x }

  /** The difference is the one number that leads from one edge to the other. */
  lemma WindowDiffIs(r: Reading, d: nat)
    requires r.Passed?
    ensures d == WindowDiff(r) <==> r.window0 % 64 == r.window1 % 64 + d || r.window1 % 64 == r.window0 % 64 + d
  {
  }

  // ---------- the visited settings ----------

  function Descend(top: nat, n: nat): seq<nat>
    requires n <= top + 1
  {
    seq(n, i requires 0 <= i < n => top - i)
  }

  function Ascend(bottom: nat, n: nat): seq<nat> {
    seq(n, i requires 0 <= i < n => bottom + i)
  }

  /** How many settings the downward part visits: mid, mid - 1, ... while not below `low`. */
  function DownCount(low: nat, mid: nat, range: nat): (n: nat)
    ensures n <= mid + 1
  {
    if mid < low then 0 else Min(range, mid - low) + 1
  }

  /** How many settings the upward part visits: mid + 1, ... while not above `high`. */
  function UpCount(high: nat, mid: nat, range: nat): nat {
    if high <= mid then 0 else Min(range, high - mid)
  }

  function Visits(low: nat, high: nat, mid: nat, range: nat): seq<nat> {
    Descend(mid, DownCount(low, mid, range)) + Ascend(mid + 1, UpCount(high, mid, range))
  }

  /** Every value of [max(low, mid - range), min(high, mid + range)] exactly once, and nothing else. */
  ghost predicate CoversOnce(vs: seq<nat>, low: nat, high: nat, mid: nat, range: nat) {
    && (forall i, j :: 0 <= i < j < |vs| ==> vs[i] != vs[j])
    && (forall v: nat :: v in vs <==> Max(low, mid - range) <= v <= Min(high, mid + range))
  }

  /**
   The sweep covers the documented interval exactly when the middle code lies in it, or when it lies just
   below the lower bound, or when it lies below the lower bound and the sweep stops before reaching it.
   */
  lemma CoverageExact(low: nat, high: nat, mid: nat, range: nat)
    requires low <= high
    ensures CoversOnce(Visits(low, high, mid, range), low, high, mid, range)
      <==> mid <= high && (low <= mid + 1 || range == 0)
  {
    var vs := Visits(low, high, mid, range);
    var down, up := DownCount(low, mid, range), UpCount(high, mid, range);
    if mid <= high && (low <= mid + 1 || range == 0) {
      forall v: nat ensures v in vs <==> Max(low, mid - range) <= v <= Min(high, mid + range) {
        if Max(low, mid - range) <= v <= Min(high, mid + range) {
          if v <= mid { assert vs[mid - v] == v; } else { assert vs[down + (v - mid - 1)] == v; }
        }
      }
    } else if mid > high {
      assert vs[0] == mid && vs[0] in vs;
    } else {
      assert vs[0] == mid + 1 && vs[0] in vs;
    }
  }

  /** For every middle code: which settings are visited, and that they come downwards from it and then upwards. */
  lemma VisitsAre(low: nat, high: nat, mid: nat, range: nat, v: nat)
    ensures v in Visits(low, high, mid, range)
      <==> Max(low, mid - range) <= v <= mid || mid < v <= Min(high, mid + range)
    ensures var vs := Visits(low, high, mid, range);
      forall i, j :: 0 <= i < j < |vs| ==> if vs[i] <= mid then vs[j] < vs[i] || vs[j] > mid else vs[j] > vs[i]
  {
    var vs, down := Visits(low, high, mid, range), DownCount(low, mid, range);
    if Max(low, mid - range) <= v <= mid {
      assert vs[mid - v] == v;
    } else if mid < v <= Min(high, mid + range) {
      assert vs[down + (v - mid - 1)] == v;
    }
  }

  /**
   Every visited setting lies in the clipped interval; from a middle code below it, just above that code at least, and
   from one above it, at most at that code.
   */
  lemma VisitsInside(low: nat, high: nat, mid: nat, range: nat)
    requires low <= high
    ensures forall v :: v in Visits(low, high, mid, range) ==>
      Max(Min(low, mid + 1), mid - range) <= v <= Max(mid, Min(high, mid + range))
    ensures forall v :: mid <= high && v in Visits(low, high, mid, range) ==> v <= Min(high, mid + range)
  {
  }

  // ---------- the best settings of one lane ----------

  /** Setting `v` passed on `lane` with window difference `d`. */
  predicate Attains(obs: Observations, lane: nat, v: nat, d: nat) {
    obs(v, lane).Passed? && WindowDiff(obs(v, lane)) == d
  }

  /** The settings of `vs`, in order, whose window difference on `lane` is `d`. */
  function Attaining(obs: Observations, lane: nat, vs: seq<nat>, d: nat): (r: seq<nat>)
    ensures forall v :: v in r <==> v in vs && Attains(obs, lane, v, d)
  {
    if vs == [] then []
    else
      var last := vs[|vs| - 1];
      Attaining(obs, lane, vs[..|vs| - 1], d) + (if Attains(obs, lane, last, d) then [last] else [])
  }

  function FirstSaved(s: seq<nat>): (r: seq<nat>)
    ensures forall v :: v in r ==> v in s
  {
    if |s| <= MAX_BEST_VREF_SAVED then s else s[..MAX_BEST_VREF_SAVED]
  }

  /** What is saved for `lane` when `d` is the smallest difference over `vs`. */
  function Saved(obs: Observations, lane: nat, vs: seq<nat>, d: nat): (r: seq<nat>)
    ensures |r| <= MAX_BEST_VREF_SAVED
    ensures forall v :: v in r ==> v in vs && Attains(obs, lane, v, d)
  {
    FirstSaved(Attaining(obs, lane, vs, d))
  }

  /** No setting of `vs` has a smaller difference than `d`, and `d` is attained unless nothing passed. */
  ghost predicate IsBest(obs: Observations, lane: nat, vs: seq<nat>, d: nat) {
    && (forall v :: v in vs && obs(v, lane).Passed? ==> d <= WindowDiff(obs(v, lane)))
    && (d != NO_WINDOW ==> exists v :: v in vs && Attains(obs, lane, v, d))
    && d <= NO_WINDOW
  }

  /** Training passed on `lane` at some setting of `vs`. */
  ghost predicate Passes(obs: Observations, lane: nat, vs: seq<nat>) {
    exists v :: v in vs && obs(v, lane).Passed?
  }

  /** If some setting passed, one is saved. */
  lemma PassedIsSaved(obs: Observations, lane: nat, vs: seq<nat>, best: nat)
    requires IsBest(obs, lane, vs, best) && Passes(obs, lane, vs)
    ensures Saved(obs, lane, vs, best) != []
  {
    var passed :| passed in vs && obs(passed, lane).Passed?;
    assert best <= WindowDiff(obs(passed, lane)) < NO_WINDOW;
    var v :| v in vs && Attains(obs, lane, v, best);
    assert v in Attaining(obs, lane, vs, best);
  }

  // ---------- the same on the window edges ----------

  /** The edges of `a` are not further apart than those of `b`. */
  predicate NoWider(a: Reading, b: Reading)
    requires a.Passed? && b.Passed?
  {
    Abs(a.window0 % 64 - a.window1 % 64) <= Abs(b.window0 % 64 - b.window1 % 64)
  }

  /** Setting `v` of `vs` passed on `lane`, with edges no further apart than at any other setting that passed. */
  ghost predicate IsNarrowest(obs: Observations, lane: nat, vs: seq<nat>, v: nat) {
    && v in vs && obs(v, lane).Passed?
    && forall u :: u in vs && obs(u, lane).Passed? ==> NoWider(obs(v, lane), obs(u, lane))
  }

  /** Setting `a` is visited before setting `b`. */
  ghost predicate Before(vs: seq<nat>, a: nat, b: nat) {
    exists i, k :: 0 <= i < k < |vs| && vs[i] == a && vs[k] == b
  }

  lemma NarrowestIsBest(obs: Observations, lane: nat, vs: seq<nat>, best: nat, v: nat)
    requires IsBest(obs, lane, vs, best)
    ensures IsNarrowest(obs, lane, vs, v) <==> v in vs && Attains(obs, lane, v, best)
  {
    if v in vs && obs(v, lane).Passed? {
      var w :| w in vs && Attains(obs, lane, w, best);
      if IsNarrowest(obs, lane, vs, v) {
        assert NoWider(obs(v, lane), obs(w, lane));
      } else if u :| u in vs && obs(u, lane).Passed? && !NoWider(obs(v, lane), obs(u, lane)) {
        assert best <= WindowDiff(obs(u, lane));
      }
    }
  }

  lemma {:induction false} AttainingOrdered(obs: Observations, lane: nat, vs: seq<nat>, d: nat, i: nat, j: nat)
    requires i < j < |Attaining(obs, lane, vs, d)|
    ensures Before(vs, Attaining(obs, lane, vs, d)[i], Attaining(obs, lane, vs, d)[j])
  {
    var n := |vs| - 1;
    var rest := Attaining(obs, lane, vs[..n], d);
    if j < |rest| {
      AttainingOrdered(obs, lane, vs[..n], d, i, j);
      var p, q :| 0 <= p < q < n && vs[..n][p] == rest[i] && vs[..n][q] == rest[j];
      assert vs[p] == rest[i] && vs[q] == rest[j];
    } else {
      assert rest[i] in rest;
      var p :| 0 <= p < n && vs[..n][p] == rest[i];
      assert vs[p] == rest[i] && vs[n] == Attaining(obs, lane, vs, d)[j];
    }
  }

  lemma AttainingOneMore(obs: Observations, lane: nat, vs: seq<nat>, v: nat, d: nat)
    ensures Attaining(obs, lane, vs + [v], d) ==
      Attaining(obs, lane, vs, d) + (if Attains(obs, lane, v, d) then [v] else [])
  {
    assert (vs + [v])[..|vs|] == vs;
  }

  lemma {:induction false} NothingBelowBest(obs: Observations, lane: nat, vs: seq<nat>, best: nat, d: nat)
    requires d < best
    requires forall v :: v in vs && obs(v, lane).Passed? ==> best <= WindowDiff(obs(v, lane))
    ensures Attaining(obs, lane, vs, d) == []
  {
    if vs != [] {
      assert vs[|vs| - 1] in vs;
      NothingBelowBest(obs, lane, vs[..|vs| - 1], best, d);
    }
  }

  /** What one more setting does to the best difference of a lane, and to the settings saved for it. */
  lemma OneMoreSetting(obs: Observations, lane: nat, vs: seq<nat>, best: nat, v: nat)
    requires IsBest(obs, lane, vs, best)
    ensures var r, list := obs(v, lane), Saved(obs, lane, vs, best);
      var next := if r.Passed? && WindowDiff(r) < best then WindowDiff(r) else best;
      && IsBest(obs, lane, vs + [v], next)
      && Saved(obs, lane, vs + [v], next) ==
           if r.Failed? || WindowDiff(r) > best || (WindowDiff(r) == best && |list| == MAX_BEST_VREF_SAVED) then list
           else if WindowDiff(r) == best then list + [v]
           else [v]
  {
    hide WindowDiff;
    AttainingOneMore(obs, lane, vs, v, best);
    if obs(v, lane).Passed? && WindowDiff(obs(v, lane)) < best {
      NothingBelowBest(obs, lane, vs, best, WindowDiff(obs(v, lane)));
      AttainingOneMore(obs, lane, vs, v, WindowDiff(obs(v, lane)));
      assert Attains(obs, lane, v, WindowDiff(obs(v, lane)));
    }
  }

  class Training {
    const lanes: nat
    const best: array<nat>       // best_window_diff_so_far
    const num: array<nat>        // num_best_vref_matches
    const saved: array2<nat>     // all_best_vref_matches

    constructor (lanes: nat)
      ensures this.lanes == lanes && Valid()
      ensures fresh(best) && fresh(num) && fresh(saved)
    {
      this.lanes := lanes;
      best := new nat[lanes];
      num := new nat[lanes];
      saved := new nat[lanes, MAX_BEST_VREF_SAVED];
    }

    predicate Valid() {
      && best.Length == num.Length == saved.Length0 == lanes
      && saved.Length1 == MAX_BEST_VREF_SAVED
      && best != num
    }

    /** The arrays hold, for `lane`, the best difference over `vs` and the first settings attaining it. */
    ghost predicate Records(obs: Observations, lane: nat, vs: seq<nat>)
      requires Valid() && lane < lanes
      reads best, num, saved
    {
      && IsBest(obs, lane, vs, best[lane])
      && var list := Saved(obs, lane, vs, best[lane]);
      && num[lane] == |list|
      && forall j :: 0 <= j < |list| ==> saved[lane, j] == list[j]
    }

    /** On a lane where some setting passed, the saved list is not empty. */
    lemma RecordsSave(obs: Observations, lane: nat, vs: seq<nat>)
      requires Valid() && lane < lanes && Records(obs, lane, vs) && Passes(obs, lane, vs)
      ensures Saved(obs, lane, vs, best[lane]) != []
    {
      hide IsBest, Passes, Saved, Records;
      RecordsBest(obs, lane, vs);
      PassedIsSaved(obs, lane, vs, best[lane]);
    }

    lemma RecordsBest(obs: Observations, lane: nat, vs: seq<nat>)
      requires Valid() && lane < lanes && Records(obs, lane, vs)
      ensures IsBest(obs, lane, vs, best[lane])
    {
      hide IsBest, Saved;
    }

    /**
     The arrays hold, for `lane`, settings of `vs` whose window edges are nearest to each other: all of them, in the
     order in which they were visited, or, if there are more than 30, the first 30.
     */
    ghost predicate KeepsNarrowest(obs: Observations, lane: nat, vs: seq<nat>)
      requires Valid() && lane < lanes
      reads num, saved
    {
      && num[lane] <= 30
      && (forall j :: 0 <= j < num[lane] ==> IsNarrowest(obs, lane, vs, saved[lane, j]))
      && (forall i, j :: 0 <= i < j < num[lane] ==> Before(vs, saved[lane, i], saved[lane, j]))
      && forall v :: IsNarrowest(obs, lane, vs, v) ==>
           || (exists j :: 0 <= j < num[lane] && saved[lane, j] == v)
           || (num[lane] == 30 && Before(vs, saved[lane, 29], v))
    }

    lemma RecordsNarrowest(obs: Observations, lane: nat, vs: seq<nat>)
      requires Valid() && lane < lanes && Records(obs, lane, vs)
      ensures KeepsNarrowest(obs, lane, vs)
    {
      hide IsBest, IsNarrowest, Before, Attaining;
      var d := best[lane];
      var all := Attaining(obs, lane, vs, d);
      forall v ensures IsNarrowest(obs, lane, vs, v) <==> v in all {
        NarrowestIsBest(obs, lane, vs, d, v);
      }
      forall j | 0 <= j < num[lane] ensures saved[lane, j] == all[j] && all[j] in all {
      }
      forall i, j | 0 <= i < j < |all| ensures Before(vs, all[i], all[j]) {
        AttainingOrdered(obs, lane, vs, d, i, j);
      }
      forall v | IsNarrowest(obs, lane, vs, v)
        ensures || (exists j :: 0 <= j < num[lane] && saved[lane, j] == v)
                || (num[lane] == 30 && Before(vs, saved[lane, 29], v))
      {
        var k :| 0 <= k < |all| && all[k] == v;
        if k < num[lane] {
          assert saved[lane, k] == v;
        }
      }
    }

    /** Steps 4 and 15: forget earlier results. */
    method Clear(obs: Observations)
      requires Valid()
      modifies best, num
      ensures forall lane :: 0 <= lane < lanes ==> Records(obs, lane, [])
    {
      for i := 0 to lanes
        invariant forall lane :: 0 <= lane < i ==> best[lane] == NO_WINDOW && num[lane] == 0
      {
        best[i], num[i] := NO_WINDOW, 0;
      }
    }

    /** The inner loop body of steps 5.3 and 16.3. */
    method RecordLane(obs: Observations, lane: nat, ghost vs: seq<nat>, currentVref: nat)
      requires Valid() && lane < lanes && Records(obs, lane, vs)
      modifies best, num, saved
      ensures Records(obs, lane, vs + [currentVref])
      ensures forall l :: 0 <= l < lanes && l != lane ==> best[l] == old(best[l]) && num[l] == old(num[l])
      ensures forall l, j :: 0 <= l < lanes && l != lane && 0 <= j < saved.Length1 ==> saved[l, j] == old(saved[l, j])
    {
      hide WindowDiff, Saved, IsBest;
      OneMoreSetting(obs, lane, vs, best[lane], currentVref);
      match obs(currentVref, lane)
      case Failed =>
      case Passed(_, _) =>
        var diff := WindowDiff(obs(currentVref, lane));
        if diff < best[lane] {
          best[lane] := diff;
          saved[lane, 0] := currentVref;
          num[lane] := 1;
        } else if diff == best[lane] && num[lane] < MAX_BEST_VREF_SAVED {
          saved[lane, num[lane]] := currentVref;
          num[lane] := num[lane] + 1;
        }
    }

    method RecordSetting(obs: Observations, ghost vs: seq<nat>, currentVref: nat)
      requires Valid() && forall lane :: 0 <= lane < lanes ==> Records(obs, lane, vs)
      modifies best, num, saved
      ensures forall lane :: 0 <= lane < lanes ==> Records(obs, lane, vs + [currentVref])
    {
      for i := 0 to lanes
        invariant forall lane :: 0 <= lane < i ==> Records(obs, lane, vs + [currentVref])
        invariant forall lane :: i <= lane < lanes ==> Records(obs, lane, vs)
      {
        label before:
        RecordLane(obs, i, vs, currentVref);
        forall lane | i < lane < lanes ensures Records(obs, lane, vs) {
          assert old@before(Records(obs, lane, vs));
          assert best[lane] == old@before(best[lane]);
        }
        forall lane | 0 <= lane < i ensures Records(obs, lane, vs + [currentVref]) {
          assert old@before(Records(obs, lane, vs + [currentVref]));
          assert best[lane] == old@before(best[lane]);
        }
      }
    }

    /**
     One sweep. `low` and `high` are 2 and 126 on the PHY side, 0 and 73 on the DRAM side. The loop counter is
     overwritten with `range` as soon as the downward part would leave the interval.
     */
    method Sweep(low: nat, high: nat, mid: nat, range: nat, obs: Observations) returns (ghost visited: seq<nat>)
      requires Valid()
      modifies best, num, saved
      ensures visited == Visits(low, high, mid, range)
      ensures forall lane :: 0 <= lane < lanes ==> Records(obs, lane, visited)
    {
      Clear(obs);
      visited := [];
      var t := 0;
      while t < range * 2 + 1
        invariant t <= range ==> t <= DownCount(low, mid, range) && visited == Descend(mid, t)
        invariant t > range ==> t - range - 1 <= UpCount(high, mid, range) &&
                                visited == Descend(mid, DownCount(low, mid, range)) + Ascend(mid + 1, t - range - 1)
        invariant t <= range * 2 + 1
        invariant forall lane :: 0 <= lane < lanes ==> Records(obs, lane, visited)
        decreases range * 2 + 1 - t
      {
        var currentVref;
        if t < range + 1 {
          if mid < t + low {
            t := range;
            t := t + 1;   // `continue` still runs the loop's increment
            continue;
          }
          currentVref := mid - t;
        } else {
          if mid + t - range > high {
            break;
          }
          currentVref := mid + t - range;
        }
        RecordSetting(obs, visited, currentVref);
        visited := visited + [currentVref];
        t := t + 1;
      }
    }

    /** Steps 6 and 17: fold the saved settings of one lane into the running extremes. */
    method FoldLane(obs: Observations, ghost vs: seq<nat>, lane: nat, highest: nat, lowest: nat)
      returns (h: nat, l: nat)
      requires Valid() && lane < lanes && Records(obs, lane, vs)
      ensures var list := Saved(obs, lane, vs, best[lane]);
        && h >= highest && l <= lowest && (h == highest || h in list) && (l == lowest || l in list)
        && forall v :: v in list ==> l <= v <= h
    {
      ghost var list := Saved(obs, lane, vs, best[lane]);
      h, l := highest, lowest;
      for j := 0 to num[lane]
        invariant h >= highest && l <= lowest && (h == highest || h in list) && (l == lowest || l in list)
        invariant forall i :: 0 <= i < j ==> l <= list[i] <= h
      {
        assert saved[lane, j] == list[j];
        h := Max(saved[lane, j], h);
        l := Min(saved[lane, j], l);
      }
    }

    /** Step 6: one midpoint per lane. */
    method LaneMidpoints(obs: Observations, ghost vs: seq<nat>) returns (chosen: seq<nat>)
      requires Valid() && forall lane :: 0 <= lane < lanes ==> Records(obs, lane, vs)
      ensures |chosen| == lanes
      ensures forall lane :: 0 <= lane < lanes ==>
        IsMidpoint(Saved(obs, lane, vs, best[lane]), chosen[lane])
    {
      hide IsMidpoint, Saved, Records;
      chosen := [];
      for i := 0 to lanes
        invariant |chosen| == i
        invariant forall lane :: 0 <= lane < i ==>
          IsMidpoint(Saved(obs, lane, vs, best[lane]), chosen[lane])
      {
        var highest, lowest := FoldLane(obs, vs, i, 0, 0x7F);
        FoldGivesMidpoint(Saved(obs, i, vs, best[i]), highest, lowest);
        chosen := chosen + [(highest + lowest) / 2];
      }
    }

    /** Step 17: one midpoint over the saved settings of all lanes. */
    method CommonMidpoint(obs: Observations, ghost vs: seq<nat>) returns (chosen: nat)
      requires Valid() && forall lane :: 0 <= lane < lanes ==> Records(obs, lane, vs)
      ensures IsMidpoint(AllSaved(obs, vs, lanes), chosen)
    {
      var highest, lowest := 0, 0x7F;
      for i := 0 to lanes
        invariant IsFold(AllSaved(obs, vs, i), highest, lowest)
      {
        highest, lowest := FoldLane(obs, vs, i, highest, lowest);
      }
      SavedWereVisited(obs, vs, lanes);
      FoldGivesMidpoint(AllSaved(obs, vs, lanes), highest, lowest);
      chosen := (highest + lowest) / 2;
    }

    /**
     PHY side: a sweep over 2..126, then one midpoint per lane (steps 4 to 6). From a middle code of 0 the sweep
     also visits 1, from one above 126 it visits that code, and then the choice is the midpoint with 127.
     */
    method PhySide(mid: nat, range: nat, obs: Observations) returns (chosen: seq<nat>)
      requires Valid()
      modifies best, num, saved
      ensures forall lane :: 0 <= lane < lanes ==> Records(obs, lane, Visits(2, 126, mid, range))
      ensures forall lane :: 0 <= lane < lanes ==> KeepsNarrowest(obs, lane, Visits(2, 126, mid, range))
      ensures |chosen| == lanes
      ensures forall lane :: 0 <= lane < lanes ==>
        IsMidpoint(Saved(obs, lane, Visits(2, 126, mid, range), best[lane]), chosen[lane])
      ensures forall lane :: 0 <= lane < lanes && Passes(obs, lane, Visits(2, 126, mid, range)) ==>
        && Min(0x7F, Max(if mid == 0 then 1 else 2, mid - range)) <= chosen[lane]
        && chosen[lane] <= if mid <= 126 then Min(126, mid + range) else mid
    {
      hide Visits, IsMidpoint, Saved, Passes, Records, KeepsNarrowest;
      ghost var vs := Sweep(2, 126, mid, range, obs);
      VisitsInside(2, 126, mid, range);
      chosen := LaneMidpoints(obs, vs);
      forall lane | 0 <= lane < lanes ensures KeepsNarrowest(obs, lane, vs) {
        RecordsNarrowest(obs, lane, vs);
      }
      forall lane | 0 <= lane < lanes && Passes(obs, lane, vs)
        ensures Min(0x7F, Max(if mid == 0 then 1 else 2, mid - range)) <= chosen[lane]
        ensures chosen[lane] <= if mid <= 126 then Min(126, mid + range) else mid
      {
        RecordsSave(obs, lane, vs);
        MidpointInside(Saved(obs, lane, vs, best[lane]), chosen[lane], Max(Min(2, mid + 1), mid - range),
                       if mid <= 126 then Min(126, mid + range) else mid);
      }
    }

    /** DRAM side: a sweep over 0..73, then one midpoint over all lanes (steps 15 to 17). */
    method DramSide(mid: nat, range: nat, obs: Observations) returns (chosen: nat)
      requires Valid()
      modifies best, num, saved
      ensures forall lane :: 0 <= lane < lanes ==> Records(obs, lane, Visits(0, 73, mid, range))
      ensures forall lane :: 0 <= lane < lanes ==> KeepsNarrowest(obs, lane, Visits(0, 73, mid, range))
      ensures IsMidpoint(AllSaved(obs, Visits(0, 73, mid, range), lanes), chosen)
      ensures (exists lane :: 0 <= lane < lanes && Passes(obs, lane, Visits(0, 73, mid, range))) ==>
        Min(0x7F, mid - range) <= chosen <= if mid <= 73 then Min(73, mid + range) else mid
    {
      hide Visits, IsMidpoint, Saved, Passes, Records, KeepsNarrowest;
      ghost var vs := Sweep(0, 73, mid, range, obs);
      VisitsInside(0, 73, mid, range);
      chosen := CommonMidpoint(obs, vs);
      forall lane | 0 <= lane < lanes ensures KeepsNarrowest(obs, lane, vs) {
        RecordsNarrowest(obs, lane, vs);
      }
      if lane :| 0 <= lane < lanes && Passes(obs, lane, vs) {
        RecordsSave(obs, lane, vs);
        SavedOfLane(obs, vs, lane, lanes);
        SavedWereVisited(obs, vs, lanes);
        MidpointInside(AllSaved(obs, vs, lanes), chosen, mid - range, if mid <= 73 then Min(73, mid + range) else mid);
      }
    }

    lemma {:induction false} SavedOfLane(obs: Observations, vs: seq<nat>, lane: nat, n: nat)
      requires Valid() && lane < n <= lanes && Saved(obs, lane, vs, best[lane]) != []
      ensures AllSaved(obs, vs, n) != []
    {
      hide Saved;
      if lane < n - 1 {
        SavedOfLane(obs, vs, lane, n - 1);
      }
    }

    lemma {:induction false} SavedWereVisited(obs: Observations, vs: seq<nat>, n: nat)
      requires Valid() && n <= lanes
      ensures forall v :: v in AllSaved(obs, vs, n) ==> v in vs
    {
      if n > 0 {
        SavedWereVisited(obs, vs, n - 1);
      }
    }

    /** The settings saved for the first `n` lanes. */
    ghost function AllSaved(obs: Observations, vs: seq<nat>, n: nat): seq<nat>
      requires Valid() && n <= lanes
      reads best
    {
      if n == 0 then [] else AllSaved(obs, vs, n - 1) + Saved(obs, n - 1, vs, best[n - 1])
    }
  }

  // ---------- the chosen midpoint ----------

  /** The extremes found by folding a list from 0 and 0x7F. */
  ghost predicate IsFold(list: seq<nat>, highest: nat, lowest: nat) {
    && (highest == 0 || highest in list) && (lowest == 0x7F || lowest in list) && lowest <= 0x7F
    && forall v :: v in list ==> lowest <= v <= highest
  }

  /** The least and the greatest element. */
  ghost predicate IsSpan(list: seq<nat>, lo: nat, hi: nat) {
    lo in list && hi in list && forall v :: v in list ==> lo <= v <= hi
  }

  /** Half-way between the least element, but at most 127, and the greatest; 63 when nothing passed. */
  ghost predicate IsMidpoint(list: seq<nat>, chosen: nat) {
    if list == [] then chosen == 0x3F
    else
      exists lo: nat, hi: nat :: IsSpan(list, lo, hi) && chosen == (Min(lo, 0x7F) + hi) / 2
  }

  lemma FoldGivesMidpoint(list: seq<nat>, highest: nat, lowest: nat)
    requires IsFold(list, highest, lowest)
    ensures IsMidpoint(list, (highest + lowest) / 2)
  {
    if list != [] {
      var lo := Least(list);
      assert highest in list && lowest == Min(lo, 0x7F);
      assert IsSpan(list, lo, highest);
    }
  }

  lemma {:induction false} Least(list: seq<nat>) returns (lo: nat)
    requires list != []
    ensures lo in list && forall v :: v in list ==> lo <= v
  {
    lo := list[0];
    if |list| > 1 {
      var rest := Least(list[1..]);
      lo := Min(lo, rest);
      assert forall v :: v in list ==> v == list[0] || v in list[1..];
    }
  }

  /** A midpoint lies between any bounds of its settings, but may be as low as 127 when they are above it. */
  lemma MidpointInside(list: seq<nat>, chosen: nat, least: int, greatest: int)
    requires list != [] && IsMidpoint(list, chosen)
    requires forall v :: v in list ==> least <= v <= greatest
    ensures Min(0x7F, least) <= chosen <= greatest
  {
    var lo: nat, hi: nat :| IsSpan(list, lo, hi) && chosen == (Min(lo, 0x7F) + hi) / 2;
    Between(Min(lo, 0x7F), hi, Min(0x7F, least), greatest);
  }

  lemma Between(lo: int, hi: int, least: int, greatest: int)
    requires least <= lo <= greatest && least <= hi <= greatest
    ensures least <= (lo + hi) / 2 <= greatest
  {
  }
}

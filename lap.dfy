/**
 * What pass 1 of setNode measures: the path through the non-skipped nodes met in one
 * lap from `start`, each visited once, without the hop that closes the lap.
 */
module Lap {
  import opened Nodes
  import opened Walk

  /** The non-skipped nodes reached after j, j+1, ..., n-1 steps from `start`, in walk order. */
  ghost function LapStopsFrom(s: seq<Node>, start: nat, j: nat): (r: seq<nat>)
    requires start < |s|
    ensures forall k :: 0 <= k < |r| ==> r[k] < |s|
    decreases |s| - j
  {
    if j >= |s| then []
    else
      var to := Ahead(start, j, |s|);
      if s[to].skip then LapStopsFrom(s, start, j + 1) else [to] + LapStopsFrom(s, start, j + 1)
  }

  /** The stops of one lap from `start`. */
  ghost function LapStops(s: seq<Node>, start: nat): seq<nat>
    requires start < |s|
  {
    LapStopsFrom(s, start, 1)
  }

  /** The losses of walking from `from` through `stops` in order. */
  ghost function PathCost(losses: seq<int>, n: nat, from: nat, stops: seq<nat>): int
    requires |losses| == n * n && from < n && forall k :: 0 <= k < |stops| ==> stops[k] < n
    decreases |stops|
  {
    if stops == [] then 0
    else Edge(losses, n, from, stops[0]) + PathCost(losses, n, stops[0], stops[1..])
  }

  /** Pass 1's sum is the cost of the path through the lap's stops. */
  lemma {:induction false} LapCostIsPath(s: seq<Node>, losses: seq<int>, start: nat, j: nat, from: nat)
    requires |losses| == |s| * |s| && start < |s| && from < |s|
    ensures LapCostFrom(s, losses, start, j, from) == PathCost(losses, |s|, from, LapStopsFrom(s, start, j))
    decreases |s| - j
  {
    if j < |s| {
      var to := Ahead(start, j, |s|);
      if s[to].skip {
        LapCostIsPath(s, losses, start, j + 1, from);
      } else {
        LapCostIsPath(s, losses, start, j + 1, to);
        assert ([to] + LapStopsFrom(s, start, j + 1))[1..] == LapStopsFrom(s, start, j + 1);
      }
    }
  }

  /** The stops from step j on are the non-skipped nodes reached after j..n-1 steps. */
  lemma {:induction false} LapStopsFromElems(s: seq<Node>, start: nat, j: nat, x: nat)
    requires start < |s|
    ensures x in LapStopsFrom(s, start, j) <==>
      exists e :: j <= e < |s| && Ahead(start, e, |s|) == x && !s[x].skip
    decreases |s| - j
  {
    if j < |s| {
      LapStopsFromElems(s, start, j + 1, x);
    }
  }

  /** Stops reached at different steps of one lap are different nodes. */
  lemma {:induction false} LapStopsFromDistinct(s: seq<Node>, start: nat, j: nat)
    requires start < |s| && 1 <= j
    ensures forall a, b :: 0 <= a < b < |LapStopsFrom(s, start, j)| ==>
      LapStopsFrom(s, start, j)[a] != LapStopsFrom(s, start, j)[b]
    decreases |s| - j
  {
    if j < |s| {
      LapStopsFromDistinct(s, start, j + 1);
      var to := Ahead(start, j, |s|);
      if !s[to].skip {
        var q := LapStopsFrom(s, start, j + 1);
        if to in q {
          LapStopsFromElems(s, start, j + 1, to);
          var e :| j + 1 <= e < |s| && Ahead(start, e, |s|) == to;
          AheadInjective(start, j, e, |s|);
        }
        var r := [to] + q;
        forall a, b | 0 <= a < b < |r| ensures r[a] != r[b] {
          assert r[b] == q[b - 1];
          if a > 0 {
            assert r[a] == q[a - 1];
          }
        }
      }
    }
  }

  /**
   * One lap from `start` stops at every non-skipped node other than `start` exactly once,
   * and never at `start`: the hop that would close the lap is not part of pass 1's sum.
   */
  lemma LapStopsCover(s: seq<Node>, start: nat)
    requires start < |s|
    ensures forall a, b :: 0 <= a < b < |LapStops(s, start)| ==> LapStops(s, start)[a] != LapStops(s, start)[b]
    ensures forall x: nat :: x in LapStops(s, start) <==> x < |s| && !s[x].skip && x != start
  {
    LapStopsFromDistinct(s, start, 1);
    forall x: nat ensures x in LapStops(s, start) <==> x < |s| && !s[x].skip && x != start {
      LapStopsFromElems(s, start, 1, x);
      if x < |s| && !s[x].skip && x != start {
        AheadReaches(start, x, |s|);
      }
      if x in LapStops(s, start) {
        var e :| 1 <= e < |s| && Ahead(start, e, |s|) == x && !s[x].skip;
        AheadInjective(start, 0, e, |s|);
      }
    }
  }

  /** With non-negative losses, pass 1's sum is non-negative. */
  lemma {:induction false} LapCostNonNegative(s: seq<Node>, losses: seq<int>, start: nat, j: nat, from: nat)
    requires |losses| == |s| * |s| && start < |s| && from < |s|
    requires forall k :: 0 <= k < |losses| ==> losses[k] >= 0
    ensures LapCostFrom(s, losses, start, j, from) >= 0
    decreases |s| - j
  {
    if j < |s| {
      var to := Ahead(start, j, |s|);
      LapCostNonNegative(s, losses, start, j + 1, if s[to].skip then from else to);
      FlatIndex(|s|, from, to);
    }
  }
}

/**
 * The specification of setNode: the cyclic walk over the node array, the dry
 * lap (pass 1), the live walk (pass 2) and the recursion that clears one node
 * per call.
 */
module Walk {
  import opened Config
  import opened Nodes
  import opened Search
  import opened Budget

  /** The C step `to++; if (to == count) to = 0;`. */
  function Step(i: nat, n: nat): (r: nat)
    requires i < n
    ensures r < n
  {
    if i + 1 == n then 0 else i + 1
  }

  /** The index reached from `i` after `d` steps around a cycle of `n` nodes (d <= n). */
  function Ahead(i: nat, d: nat, n: nat): (r: nat)
    requires i < n && d <= n
    ensures r < n
  {
    if i + d < n then i + d else i + d - n
  }

  /** `from * n + to` indexes a flattened n-by-n matrix. */
  lemma FlatIndex(n: nat, from: nat, to: nat)
    requires from < n && to < n
    ensures 0 <= from * n + to < n * n
  {
    assert (n - 1 - from) * n >= 0;
  }

  /** The C matrix access `m[from * count + to]`. */
  function Edge(m: seq<int>, n: nat, from: nat, to: nat): int
    requires |m| == n * n && from < n && to < n
  {
    FlatIndex(n, from, to);
    m[from * n + to]
  }

  /** A node still to be cleared: it has events and is not skipped. */
  predicate Active(nd: Node)
  {
    nd.test && !nd.skip
  }

  /** The indices of the active nodes. */
  ghost function ActiveSet(s: seq<Node>): set<nat>
  {
    set i: nat | i < |s| && Active(s[i])
  }

  /** Some node is not skipped, so a walk always has somewhere to land. */
  ghost predicate HasOpen(s: seq<Node>)
  {
    exists j :: 0 <= j < |s| && !s[j].skip
  }

  /** The inputs setNode needs: a non-empty node array, two n-by-n matrices and a full table. */
  ghost predicate Shape(s: seq<Node>, losses: seq<int>, gains: seq<int>, table: seq<int>)
  {
    |s| >= 1 && |losses| == |s| * |s| && |gains| == |s| * |s| && |table| > MaxTotal
  }

  /** Every index j != i is reached from i after some number of steps in [1, n). */
  lemma AheadReaches(i: nat, j: nat, n: nat)
    requires i < n && j < n && i != j
    ensures var e := if i < j then j - i else j + n - i; 1 <= e < n && Ahead(i, e, n) == j
  {}

  /** Steps from i that land on distinct counts within one lap land on distinct indices. */
  lemma AheadInjective(i: nat, d: nat, e: nat, n: nat)
    requires i < n && d <= n && e <= n && d != e && !(d == 0 && e == n) && !(d == n && e == 0)
    ensures Ahead(i, d, n) != Ahead(i, e, n)
  {}

  /**
   * The number of steps from `i` to the first non-skipped node, searching from step `d`.
   */
  ghost function GapFrom(s: seq<Node>, i: nat, d: nat): (r: nat)
    requires i < |s| && 1 <= d <= |s| && HasOpen(s)
    requires forall e :: 1 <= e < d ==> s[Ahead(i, e, |s|)].skip
    ensures d <= r <= |s| && !s[Ahead(i, r, |s|)].skip
    ensures forall e :: 1 <= e < r ==> s[Ahead(i, e, |s|)].skip
    decreases |s| - d
  {
    if !s[Ahead(i, d, |s|)].skip then d
    else
      NotAllSkipped(s, i, d);
      GapFrom(s, i, d + 1)
  }

  /** If the first d steps from i all land on skipped nodes, d is less than a full lap. */
  lemma NotAllSkipped(s: seq<Node>, i: nat, d: nat)
    requires i < |s| && 1 <= d <= |s| && HasOpen(s)
    requires forall e :: 1 <= e <= d ==> s[Ahead(i, e, |s|)].skip
    ensures d < |s|
  {
    var j :| 0 <= j < |s| && !s[j].skip;
    if j == i {
      assert Ahead(i, |s|, |s|) == i;
    } else {
      AheadReaches(i, j, |s|);
    }
  }

  /** Steps from `i` to the next non-skipped node: the inner do-while of both passes. */
  ghost function Gap(s: seq<Node>, i: nat): (d: nat)
    requires i < |s| && HasOpen(s)
    ensures 1 <= d <= |s| && !s[Ahead(i, d, |s|)].skip
    ensures forall e :: 1 <= e < d ==> s[Ahead(i, e, |s|)].skip
  {
    GapFrom(s, i, 1)
  }

  /**
   * Whether a hop of `d` steps from `i` lands on index n-1 by a plain increment
   * (the C `else if (to == count - 1)`); landing on 0 by wrapping never adds.
   */
  predicate LandsOnLast(i: nat, d: nat, n: nat)
    requires i < n && 1 <= d <= n
  {
    n >= 2 && (if i < n - 1 then n - 1 - i <= d else d == n)
  }

  /** A hop adds the bonus exactly when one of its steps lands on index n-1 (and n >= 2). */
  lemma LandsOnLastIff(i: nat, d: nat, n: nat)
    requires i < n && 1 <= d <= n
    ensures LandsOnLast(i, d, n) <==> n >= 2 && exists e :: 1 <= e <= d && Ahead(i, e, n) == n - 1
  {
    if n >= 2 && LandsOnLast(i, d, n) {
      var e := if i < n - 1 then n - 1 - i else n;
      assert Ahead(i, e, n) == n - 1;
    }
  }

  /**
   * Pass 1 from step `j` on: the losses of the hops to the non-skipped nodes reached
   * after j, j+1, ..., n-1 steps from `start`, the walk being at `from`.
   */
  ghost function LapCostFrom(s: seq<Node>, losses: seq<int>, start: nat, j: nat, from: nat): int
    requires |losses| == |s| * |s| && start < |s| && from < |s|
    decreases |s| - j
  {
    if j >= |s| then 0
    else
      var to := Ahead(start, j, |s|);
      if s[to].skip then LapCostFrom(s, losses, start, j + 1, from)
      else Edge(losses, |s|, from, to) + LapCostFrom(s, losses, start, j + 1, to)
  }

  /** The total pass 1 computes: the cost of one lap from `start`, without the closing hop. */
  ghost function LapCost(s: seq<Node>, losses: seq<int>, start: nat): int
    requires |losses| == |s| * |s| && start < |s|
  {
    LapCostFrom(s, losses, start, 1, start)
  }

  /** How a call's outcome ends: a total, a negative table index, or the hop budget running out. */
  datatype Outcome = Cost(total: int) | BadIndex(index: int) | OutOfFuel

  /** How pass 2 ends: a node was cleared after a running total, or it halted. */
  datatype PassEnd = Cleared(at: nat, total: int) | Halted(why: Outcome)

  /** The end of pass 2, the node array after it and the next unread draw. */
  datatype Pass = Pass(end: PassEnd, nodes: seq<Node>, next: nat)

  /** Bits of `a` are among those of `b`. */
  predicate SubMask(a: Bits, b: Bits)
  {
    a & !b == 0
  }

  lemma SubMaskTrans(a: Bits, b: Bits, c: Bits)
    requires SubMask(a, b) && SubMask(b, c)
    ensures SubMask(a, c)
  {}

  lemma SubMaskRefl(a: Bits)
    ensures SubMask(a, a)
  {}

  /** `t` arises from `s` by reloads only: same shape, flags and thresholds, bits only cleared. */
  ghost predicate Reloaded(s: seq<Node>, t: seq<Node>)
  {
    && |t| == |s|
    && forall i :: 0 <= i < |s| ==>
         && t[i].thresholds == s[i].thresholds && t[i].test == s[i].test && t[i].skip == s[i].skip
         && SubMask(t[i].outstanding, s[i].outstanding)
  }

  /**
   * Pass 2 from `from` with running total `total` and at most `fuel` more hops: each hop
   * lands on the next non-skipped node, adds the bonus if it passed index n-1, adds the
   * hop's losses and subtracts its gains, then reloads the landing node with
   * table[Clamp(total)] rolls; the pass ends at the first landing node that has events
   * and no outstanding bit left.
   */
  ghost function LiveWalk(s: seq<Node>, losses: seq<int>, gains: seq<int>, table: seq<int>, bonus: int,
                          rand: Draws, pos: nat, from: nat, total: int, fuel: nat): (r: Pass)
    requires Shape(s, losses, gains, table) && from < |s| && HasOpen(s)
    ensures Reloaded(s, r.nodes)
    ensures r.end.Cleared? ==>
      r.end.at < |s| && Active(s[r.end.at]) && r.nodes[r.end.at].outstanding == 0 && r.end.total >= 0
    ensures r.end.Halted? ==> !r.end.why.Cost?
    decreases fuel
  {
    if fuel == 0 then Pass(Halted(OutOfFuel), s, pos)
    else
      var n := |s|;
      var d := Gap(s, from);
      var to := Ahead(from, d, n);
      var t := total + (if LandsOnLast(from, d, n) then bonus else 0)
               + Edge(losses, n, from, to) - Edge(gains, n, from, to);
      if t < 0 then Pass(Halted(BadIndex(t)), s, pos)
      else
        var r := Searched(s[to], table[Clamp(t)], rand, pos);
        var s' := s[to := r.node];
        SearchedOnlyClears(s[to], table[Clamp(t)], rand, pos);
        ReloadedStep(s, to, r.node);
        if r.node.outstanding == 0 && r.node.test then Pass(Cleared(to, t), s', r.next)
        else
          var rest := LiveWalk(s', losses, gains, table, bonus, rand, r.next, to, t, fuel - 1);
          ReloadedTrans(s, s', rest.nodes);
          rest
  }

  /** Replacing one node by a reloaded copy of itself is a reload of the array. */
  lemma ReloadedStep(s: seq<Node>, k: nat, nd: Node)
    requires k < |s|
    requires nd.thresholds == s[k].thresholds && nd.test == s[k].test && nd.skip == s[k].skip
    requires SubMask(nd.outstanding, s[k].outstanding)
    ensures Reloaded(s, s[k := nd])
  {
    forall i | 0 <= i < |s| ensures SubMask(s[k := nd][i].outstanding, s[i].outstanding) {
      if i != k {
        SubMaskRefl(s[i].outstanding);
      }
    }
  }

  lemma ReloadedTrans(a: seq<Node>, b: seq<Node>, c: seq<Node>)
    requires Reloaded(a, b) && Reloaded(b, c)
    ensures Reloaded(a, c)
  {
    forall i | 0 <= i < |a| ensures SubMask(c[i].outstanding, a[i].outstanding) {
      SubMaskTrans(c[i].outstanding, b[i].outstanding, a[i].outstanding);
    }
  }

  /** The result of setNode's specification: outcome, final nodes, next unread draw, and the cleared nodes in order. */
  datatype Run = Run(outcome: Outcome, nodes: seq<Node>, next: nat, order: seq<nat>)

  /** Some active node is not skipped. */
  lemma ActiveHasOpen(s: seq<Node>)
    requires ActiveSet(s) != {}
    ensures HasOpen(s)
  {
    var i :| i in ActiveSet(s);
    assert !s[i].skip;
  }

  /** Marking the node a pass cleared as skipped removes exactly it from the active set. */
  lemma MarkSkipShrinks(s: seq<Node>, t: seq<Node>, at: nat)
    requires Reloaded(s, t) && at < |s| && Active(s[at])
    ensures ActiveSet(t[at := t[at].(skip := true)]) == ActiveSet(s) - {at}
    ensures ActiveSet(t[at := t[at].(skip := true)]) < ActiveSet(s)
  {
    var u := t[at := t[at].(skip := true)];
    forall i: nat ensures i in ActiveSet(u) <==> i in ActiveSet(s) - {at} {
      if i < |s| && i != at {
        assert u[i] == t[i];
      }
    }
    assert at in ActiveSet(s);
  }

  /**
   * setNode: when no node is active the call returns 0 and changes nothing; otherwise
   * pass 1 measures one lap from `start`, the bonus is table[Clamp(lap)] * 18, pass 2
   * walks until a node is cleared, that node is marked skipped, and the call returns the
   * pass's total plus the total of the recursive call started from the cleared node.
   */
  ghost function ClearAll(s: seq<Node>, losses: seq<int>, gains: seq<int>, table: seq<int>,
                          rand: Draws, pos: nat, start: nat, fuel: nat): Run
    requires Shape(s, losses, gains, table) && start < |s|
    decreases ActiveSet(s)
  {
    if ActiveSet(s) == {} then Run(Cost(0), s, pos, [])
    else
      ActiveHasOpen(s);
      var lap := LapCost(s, losses, start);
      if lap < 0 then Run(BadIndex(lap), s, pos, [])
      else
        var bonus := table[Clamp(lap)] * LastNodeMultiplier;
        var p := LiveWalk(s, losses, gains, table, bonus, rand, pos, start, 0, fuel);
        match p.end
        case Halted(why) => Run(why, p.nodes, p.next, [])
        case Cleared(at, t) =>
          var s' := p.nodes[at := p.nodes[at].(skip := true)];
          MarkSkipShrinks(s, p.nodes, at);
          var rest := ClearAll(s', losses, gains, table, rand, p.next, at, fuel);
          Run(if rest.outcome.Cost? then Cost(t + rest.outcome.total) else rest.outcome,
              rest.nodes, rest.next, [at] + rest.order)
  }

  /** `t` arises from `s` by reloads and skips: thresholds and test kept, skips kept, bits only cleared. */
  ghost predicate Evolved(s: seq<Node>, t: seq<Node>)
  {
    && |t| == |s|
    && forall i :: 0 <= i < |s| ==>
         && t[i].thresholds == s[i].thresholds && t[i].test == s[i].test && (s[i].skip ==> t[i].skip)
         && SubMask(t[i].outstanding, s[i].outstanding)
  }

  /** No index occurs twice. */
  ghost predicate Distinct(q: seq<nat>)
  {
    forall a, b :: 0 <= a < b < |q| ==> q[a] != q[b]
  }

  /** The set of indices occurring in q. */
  ghost function Elems(q: seq<nat>): set<nat>
  {
    set k | 0 <= k < |q| :: q[k]
  }
}

/**
 * setNode in place on the node array: the base-case scan, the dry lap (pass 1), the
 * live walk (pass 2) and the recursion, each proved to compute what module Walk specifies.
 */
module Walker {
  import opened Config
  import opened Nodes
  import opened Search
  import opened Budget
  import opened Walk

  /**
   * The base-case scan of setNode: `found` is false exactly when no node both has
   * events and is not skipped (the case in which setNode returns 0).
   */
  method HasActive(nodes: array<Node>) returns (found: bool)
    requires nodes.Length >= 1
    ensures found <==> ActiveSet(nodes[..]) != {}
  {
    var i := 0;
    while true
      invariant 0 <= i < nodes.Length
      invariant forall j :: 0 <= j < i ==> !Active(nodes[j])
      decreases nodes.Length - i
    {
      if nodes[i].test && !nodes[i].skip {
        assert i in ActiveSet(nodes[..]);
        return true;
      }
      if i == nodes.Length - 1 {
        assert forall j: nat :: j in ActiveSet(nodes[..]) ==> j < nodes.Length && !Active(nodes[j]);
        return false;
      }
      i := i + 1;
    }
  }

  /** Stepping d steps and then e more is stepping d + e, within one lap. */
  lemma AheadAdd(i: nat, d: nat, e: nat, n: nat)
    requires i < n && d + e <= n
    ensures Ahead(Ahead(i, d, n), e, n) == Ahead(i, d + e, n)
  {}

  /** Pass 1 steps over skipped nodes without adding anything. */
  lemma {:induction false} LapSkips(s: seq<Node>, losses: seq<int>, start: nat, j: nat, c: nat, from: nat)
    requires |losses| == |s| * |s| && start < |s| && from < |s| && j <= c
    requires forall e :: j <= e < c && e < |s| ==> s[Ahead(start, e, |s|)].skip
    ensures LapCostFrom(s, losses, start, j, from) == LapCostFrom(s, losses, start, c, from)
    decreases c - j
  {
    if j < c {
      LapSkips(s, losses, start, j + 1, c, from);
    }
  }

  /**
   * One hop of pass 1: from the walk's position after `c0` steps, the next non-skipped
   * node lies `k` steps further on; the hop is added when c0 + k < n and ends the lap
   * otherwise.
   */
  lemma DryHop(s: seq<Node>, losses: seq<int>, start: nat, c0: nat, k: nat, from: nat)
    requires |losses| == |s| * |s| && start < |s| && from < |s| && c0 < |s| && 1 <= k <= |s|
    requires forall e :: 1 <= e < k ==> s[Ahead(Ahead(start, c0, |s|), e, |s|)].skip
    requires !s[Ahead(Ahead(start, c0, |s|), k, |s|)].skip
    ensures c0 + k >= |s| ==> LapCostFrom(s, losses, start, c0 + 1, from) == 0
    ensures c0 + k < |s| ==>
      var to := Ahead(start, c0 + k, |s|);
      && Ahead(Ahead(start, c0, |s|), k, |s|) == to
      && LapCostFrom(s, losses, start, c0 + 1, from)
         == Edge(losses, |s|, from, to) + LapCostFrom(s, losses, start, c0 + k + 1, to)
  {
    var n := |s|;
    var last := if c0 + k < n then c0 + k else n;
    forall e | c0 + 1 <= e < last && e < n ensures s[Ahead(start, e, n)].skip {
      AheadAdd(start, c0, e - c0, n);
    }
    LapSkips(s, losses, start, c0 + 1, last, from);
    if c0 + k < n {
      AheadAdd(start, c0, k, n);
    }
  }

  /**
   * Pass 1 of setNode: walks one lap from `start` over the non-skipped nodes, summing
   * the losses of every hop whose cumulative step count stays below the node count.
   */
  method DryPass(nodes: array<Node>, losses: seq<int>, start: nat) returns (total: int)
    requires nodes.Length >= 1 && |losses| == nodes.Length * nodes.Length && start < nodes.Length
    requires HasOpen(nodes[..])
    ensures total == LapCost(nodes[..], losses, start)
  {
    var n := nodes.Length;
    ghost var s := nodes[..];
    total := 0;
    var from: nat := start;
    var to: nat := from;
    var checked := 0;
    while true
      invariant 0 <= checked < n && from < n
      invariant to == from == Ahead(start, checked, n)
      invariant total + LapCostFrom(s, losses, start, checked + 1, from) == LapCost(s, losses, start)
      decreases n - checked
    {
      ghost var c0 := checked;
      ghost var to0 := to;
      ghost var gap := Gap(s, to0);
      to := Step(to, n);
      checked := checked + 1;
      while nodes[to].skip
        invariant 1 <= checked - c0 <= gap
        invariant to == Ahead(to0, checked - c0, n)
        decreases gap - (checked - c0)
      {
        to := Step(to, n);
        checked := checked + 1;
      }
      DryHop(s, losses, start, c0, checked - c0, from);
      if checked >= n {
        return;
      }
      FlatIndex(n, from, to);
      total := total + losses[from * n + to];
      from := to;
    }
  }

  /** How the bonus count changes when a hop from `i` is extended by one step. */
  lemma LandsOnLastStep(i: nat, k: nat, n: nat)
    requires i < n && 1 <= k < n
    ensures LandsOnLast(i, k + 1, n) <==>
      LandsOnLast(i, k, n) || (Step(Ahead(i, k, n), n) != 0 && Step(Ahead(i, k, n), n) == n - 1)
    ensures !(LandsOnLast(i, k, n) && Step(Ahead(i, k, n), n) != 0 && Step(Ahead(i, k, n), n) == n - 1)
  {}

  /** Replacing the node at k by its reload leaves some node open. */
  lemma ReloadedHasOpen(s: seq<Node>, t: seq<Node>)
    requires Reloaded(s, t) && HasOpen(s)
    ensures HasOpen(t)
  {
    var j :| 0 <= j < |s| && !s[j].skip;
    assert !t[j].skip;
  }

  /**
   * The inner do-while of pass 2: step to the next non-skipped node after `from`,
   * accumulating the bonus for a step that lands on index n-1 by an increment.
   */
  method Hop(nodes: array<Node>, from: nat, bonus: int) returns (to: nat, added: int)
    requires from < nodes.Length && HasOpen(nodes[..])
    ensures to == Ahead(from, Gap(nodes[..], from), nodes.Length)
    ensures added == if LandsOnLast(from, Gap(nodes[..], from), nodes.Length) then bonus else 0
  {
    var n := nodes.Length;
    ghost var gap := Gap(nodes[..], from);
    var k := 1;
    added := 0;
    to := Step(from, n);
    if to != 0 && to == n - 1 {
      added := added + bonus;
    }
    while nodes[to].skip
      invariant 1 <= k <= gap
      invariant to == Ahead(from, k, n)
      invariant added == if LandsOnLast(from, k, n) then bonus else 0
      decreases gap - k
    {
      LandsOnLastStep(from, k, n);
      to := Step(to, n);
      k := k + 1;
      if to != 0 && to == n - 1 {
        added := added + bonus;
      }
    }
    assert k == gap;
  }

  /** One hop of the live walk, taken apart into the three ways it can go. */
  lemma LiveWalkStep(s: seq<Node>, losses: seq<int>, gains: seq<int>, table: seq<int>, bonus: int,
                     rand: Draws, pos: nat, from: nat, total: int, fuel: nat, to: nat, t: int)
    requires Shape(s, losses, gains, table) && from < |s| && HasOpen(s) && fuel > 0
    requires to == Ahead(from, Gap(s, from), |s|)
    requires t == total + (if LandsOnLast(from, Gap(s, from), |s|) then bonus else 0)
                    + Edge(losses, |s|, from, to) - Edge(gains, |s|, from, to)
    ensures var w := LiveWalk(s, losses, gains, table, bonus, rand, pos, from, total, fuel);
      && (t < 0 ==> w == Pass(Halted(BadIndex(t)), s, pos))
      && (t >= 0 ==>
            var r := Searched(s[to], table[Clamp(t)], rand, pos);
            && Reloaded(s, s[to := r.node])
            && (r.node.outstanding == 0 && r.node.test ==> w == Pass(Cleared(to, t), s[to := r.node], r.next))
            && (!(r.node.outstanding == 0 && r.node.test) ==>
                  w == LiveWalk(s[to := r.node], losses, gains, table, bonus, rand, r.next, to, t, fuel - 1)))
  {
    if t >= 0 {
      var r := Searched(s[to], table[Clamp(t)], rand, pos);
      SearchedOnlyClears(s[to], table[Clamp(t)], rand, pos);
      ReloadedStep(s, to, r.node);
    }
  }

  /**
   * Pass 2 of setNode: from `start`, hop to the next non-skipped node, adding the bonus
   * when a step lands on index n-1 by an increment, then that hop's losses minus its
   * gains; reload the landing node with table[Clamp(total)] rolls; stop at the first
   * landing node with events and no outstanding bit. At most `fuel` hops are made.
   */
  method LivePass(nodes: array<Node>, losses: seq<int>, gains: seq<int>, table: seq<int>, bonus: int,
                  rand: Draws, pos: nat, start: nat, fuel: nat) returns (end: PassEnd, next: nat)
    requires Shape(nodes[..], losses, gains, table) && start < nodes.Length && HasOpen(nodes[..])
    modifies nodes
    ensures Pass(end, nodes[..], next) == LiveWalk(old(nodes[..]), losses, gains, table, bonus, rand, pos, start, 0, fuel)
  {
    var n := nodes.Length;
    ghost var goal := LiveWalk(nodes[..], losses, gains, table, bonus, rand, pos, start, 0, fuel);
    var total := 0;
    var from: nat := start;
    var left: nat := fuel;
    next := pos;
    while true
      invariant from < n && Shape(nodes[..], losses, gains, table) && HasOpen(nodes[..])
      invariant LiveWalk(nodes[..], losses, gains, table, bonus, rand, next, from, total, left) == goal
      decreases left
    {
      if left == 0 {
        end := Halted(OutOfFuel);
        return;
      }
      ghost var s := nodes[..];
      var to, added := Hop(nodes, from, bonus);
      FlatIndex(n, from, to);
      var t := total + added + losses[from * n + to] - gains[from * n + to];
      LiveWalkStep(s, losses, gains, table, bonus, rand, next, from, total, left, to, t);
      total := t;
      if total < 0 {
        end := Halted(BadIndex(total));
        return;
      }
      next := SearchNode(nodes, to, table[Clamp(total)], rand, next);
      from := to;
      if nodes[to].outstanding == 0 && nodes[to].test {
        end := Cleared(to, total);
        return;
      }
      ReloadedHasOpen(s, nodes[..]);
      left := left - 1;
    }
  }

  /**
   * setNode: returns the outcome and leaves the array and the draw cursor exactly as
   * ClearAll specifies; each non-base call marks one cleared node skipped and recurses
   * from it.
   */
  method SetNode(nodes: array<Node>, start: nat, losses: seq<int>, gains: seq<int>, table: seq<int>,
                 rand: Draws, pos: nat, fuel: nat) returns (outcome: Outcome, next: nat)
    requires Shape(nodes[..], losses, gains, table) && start < nodes.Length
    modifies nodes
    ensures var r := ClearAll(old(nodes[..]), losses, gains, table, rand, pos, start, fuel);
      outcome == r.outcome && nodes[..] == r.nodes && next == r.next
    decreases ActiveSet(nodes[..])
  {
    var any := HasActive(nodes);
    if !any {
      return Cost(0), pos;
    }
    ghost var s := nodes[..];
    ActiveHasOpen(s);
    var lap := DryPass(nodes, losses, start);
    if lap < 0 {
      return BadIndex(lap), pos;
    }
    var bonus := table[Clamp(lap)] * LastNodeMultiplier;
    var end;
    end, next := LivePass(nodes, losses, gains, table, bonus, rand, pos, start, fuel);
    match end {
      case Halted(why) =>
        outcome := why;
      case Cleared(at, total) =>
        ghost var p := nodes[..];
        nodes[at] := nodes[at].(skip := true);
        assert nodes[..] == p[at := p[at].(skip := true)];
        MarkSkipShrinks(s, p, at);
        var rest;
        rest, next := SetNode(nodes, at, losses, gains, table, rand, next, fuel);
        outcome := if rest.Cost? then Cost(total + rest.total) else rest;
    }
  }
}

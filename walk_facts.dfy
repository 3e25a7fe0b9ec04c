/** What the walk and the recursion of setNode guarantee. */
module WalkFacts {
  import opened Config
  import opened Nodes
  import opened Budget
  import opened Walk

  /** A mask with no bit outside those of the empty mask is empty. */
  lemma SubMaskOfZero(a: Bits)
    requires SubMask(a, 0)
    ensures a == 0
  {}

  /**
   * Every call of setNode, taken with its recursive calls: thresholds and test never
   * change, bits are only cleared, no skip flag is ever cleared, the nodes that become
   * skipped are exactly those of `order`, each of which was active, and the active set
   * shrinks by exactly those nodes.
   */
  lemma {:induction false} ClearAllEvolves(s: seq<Node>, losses: seq<int>, gains: seq<int>, table: seq<int>,
                                           rand: Draws, pos: nat, start: nat, fuel: nat)
    requires Shape(s, losses, gains, table) && start < |s|
    ensures var r := ClearAll(s, losses, gains, table, rand, pos, start, fuel);
      && Evolved(s, r.nodes)
      && Elems(r.order) <= ActiveSet(s)
      && (forall i :: 0 <= i < |s| ==> (r.nodes[i].skip <==> s[i].skip || i in Elems(r.order)))
      && ActiveSet(r.nodes) == ActiveSet(s) - Elems(r.order)
    decreases ActiveSet(s)
  {
    var r := ClearAll(s, losses, gains, table, rand, pos, start, fuel);
    if ActiveSet(s) == {} || LapCost(s, losses, start) < 0 {
      EvolvedRefl(s);
      return;
    }
    ActiveHasOpen(s);
    var bonus := table[Clamp(LapCost(s, losses, start))] * LastNodeMultiplier;
    var p := LiveWalk(s, losses, gains, table, bonus, rand, pos, start, 0, fuel);
    ReloadedEvolved(s, p.nodes);
    if p.end.Halted? {
      ReloadedSameActive(s, p.nodes);
      return;
    }
    var at := p.end.at;
    var s' := p.nodes[at := p.nodes[at].(skip := true)];
    MarkSkipShrinks(s, p.nodes, at);
    ClearAllEvolves(s', losses, gains, table, rand, p.next, at, fuel);
    var rest := ClearAll(s', losses, gains, table, rand, p.next, at, fuel);
    assert r.order == [at] + rest.order && r.nodes == rest.nodes;
    MarkEvolved(p.nodes, at);
    EvolvedTrans(s, p.nodes, s');
    EvolvedTrans(s, s', rest.nodes);
    ElemsCons(at, rest.order);
    forall i | 0 <= i < |s| ensures r.nodes[i].skip <==> s[i].skip || i in Elems(r.order) {
      assert s'[i].skip == (p.nodes[i].skip || i == at);
    }
  }

  /** The nodes cleared by a call and its recursive calls are distinct. */
  lemma {:induction false} ClearAllDistinct(s: seq<Node>, losses: seq<int>, gains: seq<int>, table: seq<int>,
                                            rand: Draws, pos: nat, start: nat, fuel: nat)
    requires Shape(s, losses, gains, table) && start < |s|
    ensures Distinct(ClearAll(s, losses, gains, table, rand, pos, start, fuel).order)
    decreases ActiveSet(s)
  {
    var r := ClearAll(s, losses, gains, table, rand, pos, start, fuel);
    if ActiveSet(s) == {} || LapCost(s, losses, start) < 0 {
      return;
    }
    ActiveHasOpen(s);
    var bonus := table[Clamp(LapCost(s, losses, start))] * LastNodeMultiplier;
    var p := LiveWalk(s, losses, gains, table, bonus, rand, pos, start, 0, fuel);
    if p.end.Halted? {
      return;
    }
    var at := p.end.at;
    var s' := p.nodes[at := p.nodes[at].(skip := true)];
    MarkSkipShrinks(s, p.nodes, at);
    ClearAllDistinct(s', losses, gains, table, rand, p.next, at, fuel);
    ClearAllEvolves(s', losses, gains, table, rand, p.next, at, fuel);
    var rest := ClearAll(s', losses, gains, table, rand, p.next, at, fuel);
    assert r.order == [at] + rest.order;
    ConsDistinct(at, rest.order);
  }

  lemma ConsDistinct(x: nat, q: seq<nat>)
    requires Distinct(q) && x !in Elems(q)
    ensures Distinct([x] + q)
  {
    var r := [x] + q;
    forall a, b | 0 <= a < b < |r| ensures r[a] != r[b] {
      assert r[b] == q[b - 1];
      if a == 0 {
        assert r[b] in Elems(q);
      } else {
        assert r[a] == q[a - 1];
      }
    }
  }

  /** Every node cleared by a call or its recursive calls ends with no outstanding bit. */
  lemma {:induction false} ClearAllEmptied(s: seq<Node>, losses: seq<int>, gains: seq<int>, table: seq<int>,
                                           rand: Draws, pos: nat, start: nat, fuel: nat)
    requires Shape(s, losses, gains, table) && start < |s|
    ensures var r := ClearAll(s, losses, gains, table, rand, pos, start, fuel);
      forall k :: 0 <= k < |r.order| ==> r.order[k] < |r.nodes| && r.nodes[r.order[k]].outstanding == 0
    decreases ActiveSet(s)
  {
    var r := ClearAll(s, losses, gains, table, rand, pos, start, fuel);
    if ActiveSet(s) == {} || LapCost(s, losses, start) < 0 {
      return;
    }
    ActiveHasOpen(s);
    var bonus := table[Clamp(LapCost(s, losses, start))] * LastNodeMultiplier;
    var p := LiveWalk(s, losses, gains, table, bonus, rand, pos, start, 0, fuel);
    if p.end.Halted? {
      return;
    }
    var at := p.end.at;
    var s' := p.nodes[at := p.nodes[at].(skip := true)];
    MarkSkipShrinks(s, p.nodes, at);
    ClearAllEmptied(s', losses, gains, table, rand, p.next, at, fuel);
    ClearAllEvolves(s', losses, gains, table, rand, p.next, at, fuel);
    var rest := ClearAll(s', losses, gains, table, rand, p.next, at, fuel);
    assert r.order == [at] + rest.order && r.nodes == rest.nodes;
    assert s'[at].outstanding == 0;
    SubMaskOfZero(r.nodes[at].outstanding);
    forall k | 0 <= k < |r.order| ensures r.order[k] < |r.nodes| && r.nodes[r.order[k]].outstanding == 0 {
      if k > 0 {
        assert r.order[k] == rest.order[k - 1];
      }
    }
  }

  /**
   * A call that returns a total leaves no active node and returns a non-negative total:
   * every pass ends on a hop whose running total passed the table lookup.
   */
  lemma {:induction false} ClearAllCost(s: seq<Node>, losses: seq<int>, gains: seq<int>, table: seq<int>,
                                        rand: Draws, pos: nat, start: nat, fuel: nat)
    requires Shape(s, losses, gains, table) && start < |s|
    ensures var r := ClearAll(s, losses, gains, table, rand, pos, start, fuel);
      r.outcome.Cost? ==> ActiveSet(r.nodes) == {} && r.outcome.total >= 0
    decreases ActiveSet(s)
  {
    if ActiveSet(s) == {} || LapCost(s, losses, start) < 0 {
      return;
    }
    ActiveHasOpen(s);
    var bonus := table[Clamp(LapCost(s, losses, start))] * LastNodeMultiplier;
    var p := LiveWalk(s, losses, gains, table, bonus, rand, pos, start, 0, fuel);
    if p.end.Halted? {
      return;
    }
    var at := p.end.at;
    var s' := p.nodes[at := p.nodes[at].(skip := true)];
    MarkSkipShrinks(s, p.nodes, at);
    ClearAllCost(s', losses, gains, table, rand, p.next, at, fuel);
  }

  /**
   * The recursion depth: the number of nodes cleared never exceeds the number of nodes
   * active at the start, and equals it when the call returns a total.
   */
  lemma ClearAllDepth(s: seq<Node>, losses: seq<int>, gains: seq<int>, table: seq<int>,
                      rand: Draws, pos: nat, start: nat, fuel: nat)
    requires Shape(s, losses, gains, table) && start < |s|
    ensures var r := ClearAll(s, losses, gains, table, rand, pos, start, fuel);
      && |r.order| <= |ActiveSet(s)|
      && (r.outcome.Cost? ==> |r.order| == |ActiveSet(s)|)
  {
    var r := ClearAll(s, losses, gains, table, rand, pos, start, fuel);
    ClearAllEvolves(s, losses, gains, table, rand, pos, start, fuel);
    ClearAllDistinct(s, losses, gains, table, rand, pos, start, fuel);
    ClearAllCost(s, losses, gains, table, rand, pos, start, fuel);
    DepthFromFacts(r.order, ActiveSet(s), ActiveSet(r.nodes));
  }

  lemma DepthFromFacts(order: seq<nat>, before: set<nat>, after: set<nat>)
    requires Distinct(order) && Elems(order) <= before && after == before - Elems(order)
    ensures |order| <= |before|
    ensures after == {} ==> |order| == |before|
  {
    DistinctCard(order);
    SubsetCard(Elems(order), before);
    if after == {} {
      forall x | x in before ensures x in Elems(order) {
        assert x !in after;
      }
      assert Elems(order) == before;
    }
  }

  lemma SubsetCard(a: set<nat>, b: set<nat>)
    requires a <= b
    ensures |a| <= |b|
  {
    assert b == a + (b - a);
  }

  /** A sequence without repetitions has as many elements as its set of elements. */
  lemma {:induction false} DistinctCard(q: seq<nat>)
    requires Distinct(q)
    ensures |Elems(q)| == |q|
  {
    if q != [] {
      DistinctCard(q[1..]);
      assert q == [q[0]] + q[1..];
      ElemsCons(q[0], q[1..]);
    }
  }

  /**
   * The base case: when every node is skipped or has no event, setNode returns 0,
   * changes no node and reads no draw.
   */
  lemma ClearAllBase(s: seq<Node>, losses: seq<int>, gains: seq<int>, table: seq<int>,
                     rand: Draws, pos: nat, start: nat, fuel: nat)
    requires Shape(s, losses, gains, table) && start < |s|
    requires forall i :: 0 <= i < |s| ==> s[i].skip || !s[i].test
    ensures ClearAll(s, losses, gains, table, rand, pos, start, fuel) == Run(Cost(0), s, pos, [])
  {
    assert ActiveSet(s) == {} by {
      forall i: nat | i in ActiveSet(s) ensures false {}
    }
  }

  /**
   * A node with no outstanding bit (in particular one initialised without events)
   * still has none after setNode and all its recursive calls.
   */
  lemma ClearAllKeepsEmpty(s: seq<Node>, losses: seq<int>, gains: seq<int>, table: seq<int>,
                           rand: Draws, pos: nat, start: nat, fuel: nat, i: nat)
    requires Shape(s, losses, gains, table) && start < |s| && i < |s| && s[i].outstanding == 0
    ensures var r := ClearAll(s, losses, gains, table, rand, pos, start, fuel);
      i < |r.nodes| && r.nodes[i].outstanding == 0
  {
    ClearAllEvolves(s, losses, gains, table, rand, pos, start, fuel);
    SubMaskOfZero(ClearAll(s, losses, gains, table, rand, pos, start, fuel).nodes[i].outstanding);
  }

  /** A reload of the array keeps the active set. */
  lemma ReloadedSameActive(s: seq<Node>, t: seq<Node>)
    requires Reloaded(s, t)
    ensures ActiveSet(t) == ActiveSet(s)
  {
    forall i: nat ensures i in ActiveSet(t) <==> i in ActiveSet(s) {
      if i < |s| {
        assert t[i].test == s[i].test && t[i].skip == s[i].skip;
      }
    }
  }

  lemma EvolvedRefl(s: seq<Node>)
    ensures Evolved(s, s)
  {
    forall i | 0 <= i < |s| ensures SubMask(s[i].outstanding, s[i].outstanding) {
      SubMaskRefl(s[i].outstanding);
    }
  }

  lemma ReloadedEvolved(s: seq<Node>, t: seq<Node>)
    requires Reloaded(s, t)
    ensures Evolved(s, t)
  {}

  lemma MarkEvolved(t: seq<Node>, at: nat)
    requires at < |t|
    ensures Evolved(t, t[at := t[at].(skip := true)])
  {
    EvolvedRefl(t);
  }

  lemma EvolvedTrans(a: seq<Node>, b: seq<Node>, c: seq<Node>)
    requires Evolved(a, b) && Evolved(b, c)
    ensures Evolved(a, c)
  {
    forall i | 0 <= i < |a| ensures SubMask(c[i].outstanding, a[i].outstanding) {
      SubMaskTrans(c[i].outstanding, b[i].outstanding, a[i].outstanding);
    }
  }

  lemma ElemsCons(x: nat, q: seq<nat>)
    ensures Elems([x] + q) == {x} + Elems(q)
  {
    var r := [x] + q;
    forall y ensures y in Elems(r) <==> y in {x} + Elems(q) {
      if y == x {
        assert r[0] == x;
      }
      if y in Elems(q) {
        var k :| 0 <= k < |q| && q[k] == y;
        assert r[k + 1] == y;
      }
      if y in Elems(r) {
        var k :| 0 <= k < |r| && r[k] == y;
        if k > 0 {
          assert q[k - 1] == y;
        }
      }
    }
  }
}

/**
 * One trial of the simulator: every node is initialised from its probability row,
 * then setNode clears them all starting from the last node (the reloading spot).
 */
module Trial {
  import opened Config
  import opened Nodes
  import opened Search
  import opened Budget
  import opened Walk
  import opened WalkFacts
  import opened Lap
  import opened Walker

  /** The node array after initialising node j from row j of `events`. */
  ghost function InitAll(events: seq<Slots>): seq<Node>
  {
    seq(|events|, j requires 0 <= j < |events| => Initialized(events[j]))
  }

  /** The trial's loop `for (j = 0; j < NODE_COUNT; j++) initNode(&nodes[j], events[j])`. */
  method InitNodes(nodes: array<Node>, events: seq<Slots>)
    requires nodes.Length == |events|
    modifies nodes
    ensures nodes[..] == InitAll(events)
  {
    for j := 0 to nodes.Length
      invariant forall k :: 0 <= k < j ==> nodes[k] == Initialized(events[k])
    {
      nodes[j] := InitNode(events[j]);
    }
  }

  /**
   * One trial: initialise every node, then run setNode from the last node. The outcome
   * and the draws consumed are those of ClearAll on the freshly initialised array; a
   * trial that returns a total returns a non-negative one.
   */
  method RunTrial(events: seq<Slots>, losses: seq<int>, gains: seq<int>, table: seq<int>,
                  rand: Draws, pos: nat, fuel: nat) returns (outcome: Outcome, next: nat)
    requires Shape(InitAll(events), losses, gains, table)
    ensures var r := ClearAll(InitAll(events), losses, gains, table, rand, pos, |events| - 1, fuel);
      outcome == r.outcome && next == r.next
    ensures outcome.Cost? ==> outcome.total >= 0
  {
    var nodes := new Node[|events|](_ => Node([0, 0, 0], 0, false, false));
    InitNodes(nodes, events);
    outcome, next := SetNode(nodes, |events| - 1, losses, gains, table, rand, pos, fuel);
    ClearAllCost(InitAll(events), losses, gains, table, rand, pos, |events| - 1, fuel);
  }

  /** The shipped loss matrix: time lost travelling from node `from` to node `to`. */
  const Losses: seq<int> :=
    [0, 10, 19, 22, 35, 51, 0] +
    [0, 0, 16, 15, 35, 51, 0] +
    [0, 0, 0, 22, 39, 51, 7] +
    [0, 0, 0, 0, 20, 51, 0] +
    [0, 0, 0, 0, 0, 51, 0] +
    [0, 0, 0, 0, 0, 0, 14] +
    [10, 10, 17, 10, 17, 51, 0]

  /** The shipped gain matrix: time recovered travelling from node `from` to node `to`. */
  const Gains: seq<int> :=
    [0, 15, 16, 14, 18, 21, 0] +
    [0, 0, 5, 21, 18, 21, 0] +
    [0, 0, 0, 19, 17, 21, 0] +
    [0, 0, 0, 0, 18, 21, 0] +
    [0, 0, 0, 0, 0, 21, 0] +
    [0, 0, 0, 0, 0, 0, 0] +
    [0, 0, 0, 0, 3, 0, 0]

  /** The shipped event probabilities, in tenths of a percent; node 6 is the reloading spot. */
  const Events: seq<Slots> := [
    [10, 20, 20],
    [40, 150, 0],
    [10, 40, 150],
    [10, 30, 150],
    [10, 40, 40],
    [40, 0, 0],
    [0, 0, 0]
  ]

  /** The shipped data fit setNode's inputs, and every loss is non-negative. */
  lemma ShippedShape()
    ensures |Events| == NodeCount
    ensures Shape(InitAll(Events), Losses, Gains, Table())
    ensures forall k :: 0 <= k < |Losses| ==> Losses[k] >= 0
  {}

  /**
   * With the shipped matrices, a call of setNode started from node 0 (as after node 0
   * has been cleared) while node 1 is not skipped reaches a negative running total on
   * its first hop, 0 -> 1: 10 lost minus 15 gained is -5, and the table lookup with
   * index -5 is out of bounds.
   */
  lemma ShippedNegativeIndex(s: seq<Node>, rand: Draws, pos: nat, fuel: nat)
    requires |s| == NodeCount && ActiveSet(s) != {} && !s[1].skip && fuel > 0
    ensures ClearAll(s, Losses, Gains, Table(), rand, pos, 0, fuel).outcome == BadIndex(-5)
  {
    ShippedShape();
    LapCostNonNegative(s, Losses, 0, 1, 0);
    ActiveHasOpen(s);
    assert Gap(s, 0) == 1;
    assert Edge(Losses, 7, 0, 1) == 10 && Edge(Gains, 7, 0, 1) == 15;
  }

  /** Two nodes: node 0 has no event, node 1 has one certain event; 10 lost each way. */
  const PairEvents: seq<Slots> := [[0, 0, 0], [1000, 0, 0]]
  const PairLosses: seq<int> := [0, 10, 10, 0]
  const PairGains: seq<int> := [0, 0, 0, 0]

  /**
   * The two-node walk from node 0 with every draw 0: pass 1 sums the one hop 0 -> 1
   * (10), so the bonus is table[10] * 18 = 90; pass 2's first hop lands on node 1,
   * the last index, so it adds the bonus and the hop's 10 and clears node 1's only
   * event; the recursive call finds no active node. The call returns 100.
   */
  lemma PairScenario(fuel: nat)
    requires fuel > 0
    ensures ClearAll(InitAll(PairEvents), PairLosses, PairGains, Table(), _ => 0, 0, 0, fuel).outcome == Cost(100)
  {
    var s := InitAll(PairEvents);
    InitializedSpec(PairEvents[0]);
    InitializedSpec(PairEvents[1]);
    assert |s| == 2 && !s[1].skip && 1 in ActiveSet(s);
    assert LapCostFrom(s, PairLosses, 0, 2, 1) == 0;
    assert LapCost(s, PairLosses, 0) == 10;
    assert Table()[10] == 5;
    ActiveHasOpen(s);
    assert Gap(s, 0) == 1;
    assert Edge(PairLosses, 2, 0, 1) == 10;
    var rand: Draws := _ => 0;
    var r := Searched(s[1], Table()[Clamp(100)], rand, 0);
    assert Rolled(rand, 0, Table()[Clamp(100)]) by {
      RolledIff(rand, 0, Table()[Clamp(100)]);
      assert rand(0) % DrawRange < EventRollProb;
    }
    assert PairEvents[1][..1] == [1000] && Sum([1000]) == 1000;
    assert FirstSlot(s[1].thresholds, 0, 0) == 0;
    assert r.node.outstanding == 0;
    var p := LiveWalk(s, PairLosses, PairGains, Table(), 90, rand, 0, 0, 0, fuel);
    assert p.end == Cleared(1, 100);
    var s' := p.nodes[1 := p.nodes[1].(skip := true)];
    assert ActiveSet(s') == {} by {
      MarkSkipShrinks(s, p.nodes, 1);
      assert 0 !in ActiveSet(s);
    }
  }

  /** The two nodes after initialisation: node 0 has no event, node 1 one outstanding slot. */
  const PairNodes: seq<Node> := [Node([0, 0, 0], 0, false, false), Node([1000, 1000, 1000], 1, true, false)]

  lemma PairInitialized()
    ensures InitAll(PairEvents) == PairNodes
  {
    var s := InitAll(PairEvents);
    InitializedSpec(PairEvents[0]);
    InitializedSpec(PairEvents[1]);
    assert PairEvents[0][..1] == [0] && PairEvents[0][..2] == [0, 0] && PairEvents[0][..3] == [0, 0, 0];
    assert PairEvents[1][..1] == [1000] && PairEvents[1][..2] == [1000, 0] && PairEvents[1][..3] == [1000, 0, 0];
    assert Sum([0, 0]) == 0 && Sum([1000, 0]) == 1000;
    assert s[0].thresholds == [0, 0, 0] && s[1].thresholds == [1000, 1000, 1000];
    SlotMaskZero(s[0].outstanding);
    SlotMaskZero(s[1].outstanding);
  }

  /**
   * The trial's second hop, 0 -> 1 with running total 10 after six draws: it lands on
   * the last index, adds the bonus 90 and 10 lost, and the reload with table[110] = 14
   * rolls clears node 1.
   */
  lemma PairSecondHop(fuel: nat)
    requires fuel > 0
    ensures HasOpen(PairNodes)
    ensures LiveWalk(PairNodes, PairLosses, PairGains, Table(), 90, _ => 0, 6, 0, 10, fuel).end == Cleared(1, 110)
  {
    var s := PairNodes;
    var rand: Draws := _ => 0;
    assert !s[0].skip;
    assert Table()[Clamp(110)] == 14;
    assert Gap(s, 0) == 1 && LandsOnLast(0, 1, 2);
    assert Edge(PairLosses, 2, 0, 1) == 10 && Edge(PairGains, 2, 0, 1) == 0;
    assert Rolled(rand, 6, 14) by {
      RolledIff(rand, 6, 14);
      assert rand(6) % DrawRange < EventRollProb;
    }
    assert FirstSlot(s[1].thresholds, 0, 0) == 0;
    assert Searched(s[1], 14, rand, 6).node.outstanding == 0;
  }

  /**
   * The trial's first hop, 1 -> 0: it wraps (no bonus), loses 10 and reloads node 0 with
   * table[10] = 5 rolls and one selector draw, which has nothing to clear.
   */
  lemma PairFirstHop(fuel: nat)
    requires fuel > 1
    ensures HasOpen(PairNodes)
    ensures LiveWalk(PairNodes, PairLosses, PairGains, Table(), 90, _ => 0, 0, 1, 0, fuel)
         == LiveWalk(PairNodes, PairLosses, PairGains, Table(), 90, _ => 0, 6, 0, 10, fuel - 1)
  {
    var s := PairNodes;
    var rand: Draws := _ => 0;
    assert !s[0].skip;
    assert Table()[10] == 5;
    assert Gap(s, 1) == 1 && !LandsOnLast(1, 1, 2);
    assert Edge(PairLosses, 2, 1, 0) == 10 && Edge(PairGains, 2, 1, 0) == 0;
    assert Rolled(rand, 0, 5) by {
      RolledIff(rand, 0, 5);
      assert rand(0) % DrawRange < EventRollProb;
    }
    assert FirstSlot(s[0].thresholds, 0, 0) == MaxEvents;
    assert Searched(s[0], 5, rand, 0) == Reload(s[0], 6);
    assert s[0 := s[0]] == s;
  }

  /**
   * The same two nodes as a trial, which starts from the last node, node 1: pass 1
   * sums 10 (hop 1 -> 0), so the bonus is 90. Pass 2's first hop wraps 1 -> 0, which
   * adds no bonus, loses 10 and finds nothing to clear at node 0; the second hop 0 -> 1
   * lands on the last index, adds the bonus and 10 more and clears node 1. The trial
   * returns 10 + 90 + 10 = 110.
   */
  lemma PairTrial(fuel: nat)
    requires fuel > 1
    ensures ClearAll(InitAll(PairEvents), PairLosses, PairGains, Table(), _ => 0, 0, 1, fuel).outcome == Cost(110)
  {
    PairInitialized();
    var s := PairNodes;
    assert 1 in ActiveSet(s);
    assert LapCostFrom(s, PairLosses, 1, 2, 0) == 0;
    assert LapCost(s, PairLosses, 1) == 10;
    assert Table()[10] == 5;
    PairFirstHop(fuel);
    PairSecondHop(fuel - 1);
    var p := LiveWalk(s, PairLosses, PairGains, Table(), 90, _ => 0, 0, 1, 0, fuel);
    var s' := p.nodes[1 := p.nodes[1].(skip := true)];
    assert ActiveSet(s') == {} by {
      MarkSkipShrinks(s, p.nodes, 1);
      assert 0 !in ActiveSet(s);
    }
  }
}

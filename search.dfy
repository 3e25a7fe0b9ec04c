/** searchNode: one reload step at a node, driven by the injected draw stream. */
module Search {
  import opened Config
  import opened Nodes

  /** True when one of the `tries` reload rolls read from draws pos, pos+1, ... succeeds. */
  ghost predicate Rolled(rand: Draws, pos: nat, tries: int)
    decreases tries
  {
    tries > 0 && (Rolled(rand, pos, tries - 1) || rand(pos + tries - 1) % DrawRange < EventRollProb)
  }

  /** The rolls succeed exactly when some draw among the `tries` read is below the roll probability. */
  lemma {:induction false} RolledIff(rand: Draws, pos: nat, tries: int)
    ensures Rolled(rand, pos, tries) <==>
      exists j :: pos <= j < pos + tries && rand(j) % DrawRange < EventRollProb
    decreases tries
  {
    if tries > 0 {
      RolledIff(rand, pos, tries - 1);
    }
  }

  /** The first slot at or after `i` whose threshold exceeds `x`, or MaxEvents when there is none. */
  function FirstSlot(th: Slots, x: int, i: nat): (r: nat)
    requires i <= MaxEvents
    ensures i <= r <= MaxEvents
    ensures r < MaxEvents ==> x < th[r]
    ensures forall j :: i <= j < r ==> th[j] <= x
    decreases MaxEvents - i
  {
    if i == MaxEvents then MaxEvents
    else if x < th[i] then i
    else FirstSlot(th, x, i + 1)
  }

  /** The node after one reload step, and the position of the next unread draw. */
  datatype Reload = Reload(node: Node, next: nat)

  /**
   * searchNode: `tries` rolls are always read (no early exit); if any succeeds, one
   * more draw selects the first slot whose threshold exceeds it, and that slot's bit
   * is cleared (nothing is cleared when no threshold exceeds the draw).
   */
  ghost function Searched(nd: Node, tries: int, rand: Draws, pos: nat): (r: Reload)
    ensures r.node.thresholds == nd.thresholds && r.node.test == nd.test && r.node.skip == nd.skip
    ensures !Rolled(rand, pos, tries) ==> r.node == nd
    ensures r.next == pos + (if tries > 0 then tries else 0) + (if Rolled(rand, pos, tries) then 1 else 0)
  {
    var after := pos + (if tries > 0 then tries else 0);
    if !Rolled(rand, pos, tries) then Reload(nd, after)
    else
      var slot := FirstSlot(nd.thresholds, rand(after) % DrawRange, 0);
      if slot < MaxEvents then
        Reload(nd.(outstanding := ClearBit(nd.outstanding, slot)), after + 1)
      else
        Reload(nd, after + 1)
  }

  /**
   * A reload step only clears bits: it sets no new bit and clears at most one.
   */
  lemma SearchedOnlyClears(nd: Node, tries: int, rand: Draws, pos: nat)
    ensures var r := Searched(nd, tries, rand, pos);
      && r.node.outstanding & !nd.outstanding == 0
      && AtMostOneBit(nd.outstanding & !r.node.outstanding)
  {}

  /**
   * When the selector draw `x` is non-negative and the thresholds are the prefix sums of a
   * probability row, the slot it selects has positive probability in that row.
   */
  lemma SelectedSlotHasPositiveProbability(raw: Slots, x: int)
    requires 0 <= x
    ensures var slot := FirstSlot(Initialized(raw).thresholds, x, 0);
      slot < MaxEvents ==> raw[slot] > 0
  {
    var th := Initialized(raw).thresholds;
    var slot := FirstSlot(th, x, 0);
    if slot < MaxEvents {
      assert raw[..slot + 1][..slot] == raw[..slot];
      if slot > 0 {
        assert th[slot - 1] <= x;
        assert Sum(raw[..slot + 1]) == Sum(raw[..slot]) + raw[slot];
      } else {
        assert Sum(raw[..1]) == raw[0];
      }
    }
  }

  /**
   * searchNode in place on `nodes[k]`: the roll loop, then the selector scan that
   * clears the first slot whose threshold exceeds the draw.
   */
  method SearchNode(nodes: array<Node>, k: nat, tries: int, rand: Draws, pos: nat) returns (next: nat)
    requires k < nodes.Length
    modifies nodes
    ensures nodes[..] == old(nodes[..])[k := Searched(old(nodes[k]), tries, rand, pos).node]
    ensures next == Searched(old(nodes[k]), tries, rand, pos).next
  {
    ghost var spec := Searched(nodes[k], tries, rand, pos);
    var success := false;
    var i := 0;
    next := pos;
    while i < tries
      invariant 0 <= i <= (if tries > 0 then tries else 0)
      invariant next == pos + i
      invariant success == Rolled(rand, pos, i)
    {
      if rand(next) % DrawRange < EventRollProb {
        success := true;
      }
      next := next + 1;
      i := i + 1;
    }
    if !success {
      assert spec.node == nodes[k];
      return;
    }
    var result := rand(next) % DrawRange;
    next := next + 1;
    ghost var th := nodes[k].thresholds;
    ghost var m := nodes[k].outstanding;
    var j := 0;
    while j < MaxEvents
      invariant j <= MaxEvents
      invariant forall m :: 0 <= m < j ==> th[m] <= result
      invariant nodes[..] == old(nodes[..])
    {
      if result < nodes[k].thresholds[j] {
        assert FirstSlot(th, result, 0) == j;
        assert spec.node == nodes[k].(outstanding := ClearBit(m, j));
        nodes[k] := nodes[k].(outstanding := ClearBit(nodes[k].outstanding, j));
        break;
      }
      j := j + 1;
    }
    assert j == MaxEvents ==> FirstSlot(th, result, 0) == MaxEvents && spec.node == nodes[k];
  }
}

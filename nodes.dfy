/** The node record of the simulator and its initialisation from a row of event probabilities. */
module Nodes {
  import opened Config

  /** A row of per-slot integers: raw probabilities or cumulative thresholds, in tenths of a percent. */
  type Slots = s: seq<int> | |s| == MaxEvents witness [0, 0, 0]

  /**
   * The C `int set` bitmap. It starts at 0, only ever gains bits `1 << i` with
   * i < MaxEvents and loses bits by masking, so every value it takes fits in
   * MaxEvents bits; the model uses exactly that width.
   */
  type Bits = bv3

  /**
   * One node (grotto). `thresholds` is the C field `probabilities`, which holds running
   * sums; `outstanding` is the C field `set`, a bitmap of slots not yet cleared.
   */
  datatype Node = Node(thresholds: Slots, outstanding: Bits, test: bool, skip: bool)

  /** The C expression `1 << i` for a slot index i. */
  function PowBit(i: nat): Bits
    requires i < MaxEvents
  {
    (1 as Bits) << i
  }

  /** Bit `i` of a bitmap. */
  predicate Bit(m: Bits, i: nat)
    requires i < MaxEvents
  {
    m & PowBit(i) != 0
  }

  /** At most one bit of `d` is set. */
  predicate AtMostOneBit(d: Bits)
  {
    d & (d - 1) == 0
  }

  /** The C expression `m & ~(1 << i)`: the mask with bit i cleared. */
  function ClearBit(m: Bits, i: nat): Bits
    requires i < MaxEvents
  {
    m & !PowBit(i)
  }

  /** Clearing a bit sets no bit, clears at most one, and leaves bit i clear. */
  lemma ClearBitSpec(m: Bits, i: nat)
    requires i < MaxEvents
    ensures ClearBit(m, i) & !m == 0
    ensures AtMostOneBit(m & !ClearBit(m, i))
    ensures !Bit(ClearBit(m, i), i)
  {}

  /** Sum of a sequence of integers. */
  function Sum(s: seq<int>): int
  {
    if s == [] then 0 else Sum(s[..|s| - 1]) + s[|s| - 1]
  }

  /** The C expression `(probabilities[i] > 0) << i`. */
  function SlotBit(raw: Slots, i: nat): Bits
    requires i < MaxEvents
  {
    if raw[i] > 0 then PowBit(i) else 0
  }

  /** The bits contributed by the first `k` slots. */
  function Mask(raw: Slots, k: nat): Bits
    requires k <= MaxEvents
  {
    if k == 0 then 0 else Mask(raw, k - 1) | SlotBit(raw, k - 1)
  }

  /** The record initNode produces from one row of raw probabilities. */
  ghost function Initialized(raw: Slots): Node
  {
    var m := Mask(raw, MaxEvents);
    Node(seq(MaxEvents, i requires 0 <= i < MaxEvents => Sum(raw[..i + 1])), m, m != 0, false)
  }

  /**
   * initNode: one pass over the slots accumulating the running total into the
   * thresholds and OR-ing one bit per slot with positive probability.
   */
  method InitNode(raw: Slots) returns (nd: Node)
    ensures nd == Initialized(raw)
  {
    var outstanding: Bits := 0;
    var total := 0;
    var thresholds: seq<int> := [];
    for i := 0 to MaxEvents
      invariant |thresholds| == i
      invariant total == Sum(raw[..i])
      invariant forall j :: 0 <= j < i ==> thresholds[j] == Sum(raw[..j + 1])
      invariant outstanding == Mask(raw, i)
    {
      assert raw[..i + 1][..i] == raw[..i];
      total := total + raw[i];
      thresholds := thresholds + [total];
      outstanding := outstanding | SlotBit(raw, i);
    }
    nd := Node(thresholds, outstanding, outstanding != 0, false);
  }

  /** Bit i of the mask of the first k slots is set exactly when i < k and slot i has positive probability. */
  lemma {:induction false} MaskBits(raw: Slots, k: nat, i: nat)
    requires k <= MaxEvents && i < MaxEvents
    ensures Bit(Mask(raw, k), i) <==> i < k && raw[i] > 0
  {
    if k > 0 {
      MaskBits(raw, k - 1, i);
    }
  }

  /** A mask is zero exactly when none of the slot bits is set. */
  lemma SlotMaskZero(m: Bits)
    ensures m == 0 <==> forall i :: 0 <= i < MaxEvents ==> !Bit(m, i)
  {
    if m != 0 && !Bit(m, 0) && !Bit(m, 1) {
      assert Bit(m, 2);
    }
  }

  /**
   * The initialised record: thresholds are prefix sums of the row, bit i is set iff
   * raw[i] > 0, test holds iff some slot has positive
   * probability, and skip is clear.
   */
  lemma InitializedSpec(raw: Slots)
    ensures var nd := Initialized(raw);
      && (forall i :: 0 <= i < MaxEvents ==> nd.thresholds[i] == Sum(raw[..i + 1]))
      && (forall i :: 0 <= i < MaxEvents ==> (Bit(nd.outstanding, i) <==> raw[i] > 0))
      && (nd.test <==> exists i :: 0 <= i < MaxEvents && raw[i] > 0)
      && !nd.skip
  {
    var nd := Initialized(raw);
    forall i | 0 <= i < MaxEvents
      ensures Bit(nd.outstanding, i) <==> raw[i] > 0
    {
      MaskBits(raw, MaxEvents, i);
    }
    SlotMaskZero(nd.outstanding);
  }
}

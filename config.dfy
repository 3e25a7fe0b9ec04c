/** Tuning constants of the grotto simulator and the injected random source. */
module Config {

  /** Number of nodes (grottos plus the reloading spot) in the shipped map. */
  const NodeCount: nat := 7

  /** Event slots per node; every node record holds exactly this many thresholds. */
  const MaxEvents: nat := 3

  /** Largest index of the reload-budget table; running totals are clamped to it from above. */
  const MaxTotal: nat := 127

  /** Steps per second while reloading: scales the per-lap reload bonus. */
  const LastNodeMultiplier: int := 18

  /** Chance, in tenths of a percent, that one reload roll succeeds. */
  const EventRollProb: int := 50

  /** Draws are taken modulo this, giving values in [0, 1000). */
  const DrawRange: int := 1000

  /**
   * The C library's rand(), made explicit: the k-th call of the whole run
   * returns Draws(k). Every value is a non-negative integer, as rand() gives.
   */
  type Draws = nat -> nat
}

/** The reload-budget table `setsPerLoss`: reload rolls per unit of lost time. */
module Budget {
  import opened Config

  /**
   * The step function the table is filled with: the number of 256-step reload rolls
   * for a clamped total of lost time `i`.
   */
  function Attempts(i: int): int
  {
    if i <= 15 then 5
    else if i <= 21 then 6
    else if i <= 29 then 7
    else if i <= 39 then 8
    else if i <= 49 then 9
    else if i <= 61 then 10
    else if i <= 75 then 11
    else if i <= 90 then 12
    else if i <= 107 then 13
    else if i < MaxTotal then 14
    else 15
  }

  /** The C lookup index `total > MAX_TOTAL ? MAX_TOTAL : total`: clamped from above only. */
  function Clamp(total: int): (r: int)
    ensures r <= MaxTotal
    ensures total > MaxTotal ==> r == MaxTotal
    ensures total <= MaxTotal ==> r == total
    ensures r < 0 <==> total < 0
  {
    if total > MaxTotal then MaxTotal else total
  }

  /** The table as main builds it. */
  ghost function Table(): seq<int>
  {
    seq(MaxTotal + 1, i requires 0 <= i <= MaxTotal => Attempts(i))
  }

  /**
   * One of main's fill loops, `for (i = 0; i <= last; i++) t[i + offset] = value`.
   * `writes` counts, per index, how many times the table has been assigned.
   */
  method Fill(t: array<int>, offset: nat, last: nat, value: int, ghost writes: seq<nat>)
    returns (ghost writes': seq<nat>)
    requires offset + last < t.Length && |writes| == t.Length
    modifies t
    ensures forall i :: offset <= i <= offset + last ==> t[i] == value
    ensures forall i :: 0 <= i < t.Length && !(offset <= i <= offset + last) ==> t[i] == old(t[i])
    ensures |writes'| == |writes|
    ensures forall i :: offset <= i <= offset + last ==> writes'[i] == writes[i] + 1
    ensures forall i :: 0 <= i < |writes| && !(offset <= i <= offset + last) ==> writes'[i] == writes[i]
  {
    writes' := writes;
    for i := 0 to last + 1
      invariant |writes'| == |writes|
      invariant forall j :: offset <= j < offset + i ==> t[j] == value && writes'[j] == writes[j] + 1
      invariant forall j :: 0 <= j < t.Length && !(offset <= j < offset + i) ==> t[j] == old(t[j]) && writes'[j] == writes[j]
    {
      t[i + offset] := value;
      writes' := writes'[i + offset := writes'[i + offset] + 1];
    }
  }

  /**
   * main's construction of `setsPerLoss`: ten fill loops and a last assignment.
   * Every index 0..MaxTotal is assigned exactly once and ends with Attempts(i).
   */
  method BuildSetsPerLoss() returns (t: array<int>, ghost writes: seq<nat>)
    ensures t.Length == MaxTotal + 1
    ensures forall i :: 0 <= i <= MaxTotal ==> t[i] == Attempts(i)
    ensures |writes| == t.Length && forall i :: 0 <= i <= MaxTotal ==> writes[i] == 1
  {
    t := new int[MaxTotal + 1];
    writes := seq(MaxTotal + 1, _ => 0);
    writes := Fill(t, 0, 15, 5, writes);
    writes := Fill(t, 16, 5, 6, writes);
    writes := Fill(t, 22, 7, 7, writes);
    writes := Fill(t, 30, 9, 8, writes);
    writes := Fill(t, 40, 9, 9, writes);
    writes := Fill(t, 50, 11, 10, writes);
    writes := Fill(t, 62, 13, 11, writes);
    writes := Fill(t, 76, 14, 12, writes);
    writes := Fill(t, 91, 16, 13, writes);
    writes := Fill(t, 108, 18, 14, writes);
    t[MaxTotal] := 15;
    writes := writes[MaxTotal := writes[MaxTotal] + 1];
  }

  /** Every entry lies in [5, 15] and the last one is 15. */
  lemma AttemptsRange(i: int)
    ensures 5 <= Attempts(i) <= 15
    ensures Attempts(MaxTotal) == 15
  {}

  /** More lost time never means fewer reload rolls. */
  lemma AttemptsMonotone(a: int, b: int)
    requires a <= b
    ensures Attempts(a) <= Attempts(b)
  {}

  /**
   * The lookup `setsPerLoss[Clamp(total)]` is defined exactly for non-negative totals,
   * and is non-decreasing in the total.
   */
  lemma LookupMonotone(a: int, b: int)
    requires 0 <= a <= b
    ensures 0 <= Clamp(a) <= Clamp(b) <= MaxTotal
    ensures Table()[Clamp(a)] <= Table()[Clamp(b)]
  {
    AttemptsMonotone(Clamp(a), Clamp(b));
  }
}

/** Positions in a ring of `n` places, for things counted without end. */
module RingIndex {
  import BigEndian

  function Slot(j: nat, n: nat): (s: nat)
    requires n > 0
    ensures s < n
    decreases j
  {
    if j < n then j else Slot(j - n, n)
  }

  /** The position as the program computes it. */
  lemma {:induction false} SlotIsRemainder(j: nat, n: nat)
    requires n > 0
    ensures Slot(j, n) == j % n
  {
    if j >= n {
      SlotIsRemainder(j - n, n);
      var q := (j - n) / n;
      assert j == n * (q + 1) + (j - n) % n;
      BigEndian.DivModUnique(j, n, q + 1, (j - n) % n);
    } else {
      BigEndian.DivModUnique(j, n, 0, j);
    }
  }

  method Position(j: nat, n: nat) returns (p: nat)
    requires n > 0
    ensures p == Slot(j, n)
  {
    SlotIsRemainder(j, n);
    p := j % n;
  }

  /** Going on within a lap, or exactly to its end. */
  lemma {:induction false} SlotStep(j: nat, k: nat, n: nat)
    requires n > 0 && Slot(j, n) + k <= n
    ensures Slot(j + k, n) == if Slot(j, n) + k == n then 0 else Slot(j, n) + k
  {
    if j >= n { SlotStep(j - n, k, n); }
  }

  /** Going on from a position is going on from its place. */
  lemma {:induction false} SlotAdd(j: nat, k: nat, n: nat)
    requires n > 0
    ensures Slot(Slot(j, n) + k, n) == Slot(j + k, n)
  {
    if j >= n { SlotAdd(j - n, k, n); }
  }

  /** How far two positions less than a lap apart are from one another. */
  lemma {:induction false} SlotDistance(g: nat, p: nat, n: nat)
    requires n > 0 && g <= p < g + n
    ensures p - g == if Slot(p, n) >= Slot(g, n) then Slot(p, n) - Slot(g, n) else Slot(p, n) + n - Slot(g, n)
  {
    if g >= n { SlotDistance(g - n, p - n, n); }
  }
}

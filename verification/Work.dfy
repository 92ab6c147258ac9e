/** What goes from the pool through the farm to a miner and back: `libethcore/EthashAux.h`. */
module Work {
  import opened Arith

  /** `header == 0` means no work. */
  datatype WorkPackage = WorkPackage(
    job: string, header: nat, boundary: nat, epoch: int, startNonce: nat, exSizeBytes: nat)

  const NO_WORK := WorkPackage("", 0, 0, -1, 0, 0)

  /** What a miner has found. The index of the miner goes with it, and is a parameter where it matters. */
  datatype Solution = Solution(nonce: nat, mixHash: nat, work: WorkPackage)

  const TWO192: nat := 0x1_0000_0000_0000_0000_0000_0000_0000_0000_0000_0000_0000_0000

  /** What the search kernel compares with: the upper 64 bits of a 256-bit number. */
  function TargetOf(boundary: nat): (t: nat) {
    boundary / TWO192
  }

  lemma TargetIsUpper(b: nat)
    ensures TargetOf(b) * TWO192 <= b < (TargetOf(b) + 1) * TWO192
    ensures b < TWO192 * TWO64 ==> TargetOf(b) < TWO64
  {
  }

  /** Comparing upper halves decides, unless they are equal: a value below the target is below the boundary, and one
      that is not above the boundary is not above the target. */
  lemma TargetDecides(value: nat, boundary: nat)
    ensures TargetOf(value) < TargetOf(boundary) ==> value < boundary
    ensures value <= boundary ==> TargetOf(value) <= TargetOf(boundary)
  {
    TargetIsUpper(value);
    TargetIsUpper(boundary);
  }
}

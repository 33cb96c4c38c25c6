/**
 Word sizes and the page size of the machine, and what several components say of lists of numbers.
*/
module Machine {

  const TWO_32: nat := 0x1_0000_0000
  const TWO_64: nat := 0x1_0000_0000_0000_0000
  const PAGE_SIZE: nat := 0x1000

  predicate Distinct(s: seq<nat>) {
    forall i, j | 0 <= i < j < |s| :: s[i] != s[j]
  }
}

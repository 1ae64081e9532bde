/** Ranges of addresses, both ends included. */
module AddressRanges {

  /** The comparison of both lookup loops, clause by clause. */
  predicate Overlap(start: int, end: int, a: int, b: int) {
    (start <= a <= end) || (start <= b <= end) || (a <= start <= b) || (a <= end <= b)
  }

  // The four clauses hold exactly when the ranges share an address.
  lemma OverlapIsSharing(start: int, end: int, a: int, b: int)
    requires start <= end && a <= b
    ensures Overlap(start, end, a, b) <==> start <= b && a <= end
  {
  }
}

/** The card slots the tracker keeps counts for. */
module Cards {
  /** A card slot: (rank, suit). */
  type Slot = (string, string)

  /** One entry of the seen-card ledger as `seen.items()` yields it: the slot and how many
      times it has been seen. */
  type Item = (Slot, nat)
}

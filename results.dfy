/** The outcome of a step that can throw: the detector's dictionary look-ups
    throw when a key is missing, and the exception ends the whole run. */
module Results {
  import opened Blocks

  /** `MissingBlock` is a failed look-up of a known-procedure address in the block
      index; `MissingDominator` a failed look-up of a block's immediate dominator. */
  datatype Outcome<T> = Ok(value: T) | MissingBlock(addr: nat) | MissingDominator(node: Node)
}

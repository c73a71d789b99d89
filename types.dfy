/** Vocabulary shared by every part of the paging simulator: the sizes of its
    fixed global arrays, the command-line choices, and the ways in which a step
    of the C program leaves defined behaviour. */
module Types {
  /** Length of the global `pageTable` array. */
  const MaxPages: nat := 1000
  /** Length of the global `frameToPage` array. */
  const MaxFrames: nat := 500
  /** Length of `fifoQueue`: the ring wraps after this many insertions. */
  const QueueSlots: nat := 500
  /** Length of `lruTimestamps`. */
  const StampSlots: nat := 500

  /** The marker (-1) for an unmapped page, an empty frame, an unused FIFO
      slot and an LRU slot that has never been stamped. */
  const Unmapped: int := -1

  /** The `algorithm` argument: "fifo", "lru", "rand", or any other string. */
  datatype Algorithm = Fifo | Lru | Rand | OtherAlgorithm

  /** The `locality` argument: "ll", "ml", "hl", or any other string. */
  datatype Locality = Low | Medium | High | OtherLocality

  /** The global arrays that a computed index can fall outside of. */
  datatype GlobalArray = PageTableArray | FrameToPageArray | LruTimestampsArray

  /** The result of a step: a value, or the point at which the C program has
      undefined behaviour (an index outside a global array, or `% 0`). */
  datatype Outcome<+T> = Ok(value: T) | OutOfBounds(target: GlobalArray, index: int) | DivisionByZero
  {
    predicate IsFailure() { !Ok? }

    function PropagateFailure<U>(): (r: Outcome<U>)
      requires IsFailure()
      ensures r.IsFailure()
    {
      if OutOfBounds? then OutOfBounds(target, index) else DivisionByZero
    }

    function Extract(): T
      requires Ok?
    {
      value
    }
  }
}

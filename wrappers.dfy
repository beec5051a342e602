/** Optional values, standing for C's nullable pointers and failed lookups. */
module Wrappers {

  datatype Option<+T> = None | Some(value: T)

  /** A pointer as a C caller sees it: NULL, or the address of some allocation. */
  datatype Ptr = Null | Addr(id: nat)

  /**
   * What the caller of a C allocate-and-initialise function receives when the
   * function reaches its closing brace without a `return` (undefined behaviour):
   * the explicit `return NULL` still runs on allocation failure, and otherwise the
   * caller gets whatever happens to be left in the return register, `leftover`; `block` is what the allocator returned.
   */
  function MissingReturnResult(block: Ptr, leftover: Ptr): (r: Ptr)
    ensures block == Null ==> r == Null
    ensures block != Null ==> r == leftover
  {
    if block == Null then Null else leftover
  }

  /** An allocation that succeeded can still reach the caller as NULL (or as any other address). */
  lemma MissingReturnLosesAllocation()
    ensures MissingReturnResult(Addr(1), Null) == Null
    ensures MissingReturnResult(Addr(1), Addr(2)) != Addr(1)
  {
  }
}

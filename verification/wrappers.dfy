/** Small failure-carrying datatypes shared by the tree modules. */
module Wrappers {

  /** A value that may be absent: `None` models Python's `None` result. */
  datatype Option<+T> = None | Some(value: T)

  /** Uncaught Python exceptions the core can raise. Each one ends the shell. */
  datatype Fault =
    | AssertionFailed      // `assert isinstance(next, PartialNode)` while building
    | LeafHasNoAddChild    // `ValueNode` has no `add_child`, reached through `insert`
    | NotInParentChildren  // `list.remove` of the root from its own children

  /** The result of an operation that either completes or crashes. */
  datatype Result<+T> = Ok(value: T) | Fail(fault: Fault)
}

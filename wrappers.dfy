/** The success/failure result used in place of the source's `bool` return value
    paired with reference out-parameters. */
module Wrappers {

  /** `None` stands for a conversion that returned `false`; `Some(v)` for one that
      returned `true` and wrote `v` to its out-parameters. */
  datatype Option<+T> = None | Some(value: T)
}

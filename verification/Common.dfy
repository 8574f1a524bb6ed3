/** What several parts of the model share. */
module Common {

  datatype Option<T> = None | Some(value: T)

  /** An operation of the system below: an allocation, a system call, or a handler of the program that
      embeds the library. It may fail at any time, unless times are `good`. */
  method Attempt(good: bool) returns (ok: bool)
    ensures good ==> ok
  {
    ok := *;
    if good { ok := true; }
  }
}

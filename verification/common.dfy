// Shared vocabulary: bytes, optional values and the answer of a fallible durable operation.
module Common {
  type byte = b: int | 0 <= b < 256

  datatype Option<+T> = None | Some(value: T)

  /// The answer of an operation on disk, database or network. `Crash` means the process died
  /// around it: the operation may or may not have taken effect, and no code runs after it.
  datatype Reply<+T> = Ok(value: T) | Err | Crash

  datatype Unit = Unit

  /// Disk, database and network, as far as nobody can predict them.
  class Environment {
    ghost var faults: nat   // answers that were not `Ok`, and changes by the user
    ghost var crashes: nat  // deaths of the process

    constructor ()
      ensures faults == 0 && crashes == 0
    {
      faults, crashes := 0, 0;
    }

    /// The answer of an operation that can only work if `possible`. A crash may come before or
    /// after the effect.
    method Answer(possible: bool) returns (r: Reply<Unit>, applied: bool)
      modifies this
      ensures faults == old(faults) + if r.Ok? then 0 else 1
      ensures crashes == old(crashes) + if r.Crash? then 1 else 0
      ensures (r.Ok? ==> applied) && (r.Err? ==> !applied) && (applied ==> possible)
    {
      r, applied := *, *;
      r := if r.Ok? && !possible then Err else r;
      applied := r.Ok? || (r.Crash? && applied && possible);
      faults := faults + if r.Ok? then 0 else 1;
      crashes := crashes + if r.Crash? then 1 else 0;
    }

    /// The same, but to fail at what is not possible is no fault.
    method Try(possible: bool) returns (r: Reply<Unit>, applied: bool)
      modifies this
      ensures faults == old(faults) + if r.Ok? || (r.Err? && !possible) then 0 else 1
      ensures crashes == old(crashes) + if r.Crash? then 1 else 0
      ensures (r.Ok? ==> applied) && (r.Err? ==> !applied) && (applied ==> possible)
    {
      r, applied := Answer(possible);
      faults := old(faults) + if r.Ok? || (r.Err? && !possible) then 0 else 1;
    }

    /// Counts something that went wrong, or that the user did.
    ghost method Count(happened: bool)
      modifies this`faults
      ensures faults == old(faults) + if happened then 1 else 0
    {
      faults := faults + if happened then 1 else 0;
    }
  }
}

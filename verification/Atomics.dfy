/** The two read-modify-write helpers of `arch_atomic_cm0`. Each runs with interrupts masked,
    so to any interrupt it is one step; the mask is left as it was found. */
module Atomics {
  import opened Bits

  /** The core's interrupt mask (PRIMASK). */
  class Core {
    var masked: bool

    constructor ()
      ensures !masked
    {
      masked := false;
    }

    method Enter() returns (saved: bool)
      modifies this
      ensures saved == old(masked) && masked
    {
      saved := masked;
      masked := true;
    }

    method Exit(saved: bool)
      modifies this
      ensures masked == saved
    {
      masked := saved;
    }
  }

  class Word {
    const core: Core
    var value: uint32

    constructor (core: Core, v: uint32)
      ensures this.core == core && value == v
    {
      this.core := core;
      value := v;
    }

    /** `__atomic_compare_exchange_4`: on failure `observed` is what the caller's copy
        becomes. The callers use the weak form of C11, which may also fail for no reason;
        the helper of this core never does, and passes `spurious` as false. */
    method CompareExchange(expected: uint32, desired: uint32, spurious: bool)
      returns (exchanged: bool, observed: uint32)
      modifies this, core
      ensures core.masked == old(core.masked)
      ensures exchanged == (old(value) == expected && !spurious)
      ensures value == if exchanged then desired else old(value)
      ensures observed == if exchanged then expected else old(value)
    {
      var saved := core.Enter();
      observed := value;
      if observed == expected && !spurious {
        value := desired;
        exchanged := true;
      } else {
        exchanged := false;
      }
      core.Exit(saved);
    }

    /** `__atomic_fetch_sub_4`. */
    method FetchSub(operand: uint32) returns (previous: uint32)
      modifies this, core
      ensures core.masked == old(core.masked)
      ensures previous == old(value) && value == Sub32(old(value), operand)
    {
      var saved := core.Enter();
      previous := value;
      value := Sub32(previous, operand);
      core.Exit(saved);
    }
  }
}

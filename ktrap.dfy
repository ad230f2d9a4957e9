/**
 * The kernel's (S-mode) trap tables: the static message tables and
 * `ktrap_init`, which points every interrupt and exception slot at the
 * general kernel trap handler. Writing `stvec` (the trap entry, direct
 * mode) and `sie` (all interrupts enabled) is a CSR side effect outside
 * this model.
 */
module Ktrap {
  import opened Options
  import opened TrapRegistry
  import opened Words
  import Csr

  /** `kintr_msg`: the S-mode interrupts the SBI delegates get their own text. */
  const KINTR_MSG: seq<Message> := [
    Some("Undelegated Interrupt"),
    Some("Supervisor Software Interrupt"),
    Some("Undelegated Interrupt"),
    Some("Undelegated Interrupt"),
    Some("Undelegated Interrupt"),
    Some("Supervisor Timer Interrupt"),
    Some("Undelegated Interrupt"),
    Some("Undelegated Interrupt"),
    Some("Undelegated Interrupt"),
    Some("Supervisor External Interrupt"),
    Some("Undelegated Interrupt"),
    Some("Undelegated Interrupt")
  ]

  /** `kexcp_msg`: likewise for the delegated exceptions. */
  const KEXCP_MSG: seq<Message> := [
    Some("Instrution Address Misaligned"),
    Some("Undelegated Exception"),
    Some("Undelegated Exception"),
    Some("Breakpoint"),
    Some("Undelegated Exception"),
    Some("Load access Fault"),
    Some("Undelegated Exception"),
    Some("Store/AMO Access Fault"),
    Some("Environment Call from U-Mode"),
    Some("Undelegated Exception"),
    Some("Undelegated Exception"),
    Some("Undelegated Exception"),
    Some("Instruction Page Fault"),
    Some("Load Page Fault"),
    Some("Undelegated Exception"),
    Some("Store/AMO Page Fault")
  ]

  /** The kernel's tables as loaded: NULL handlers, the static messages. */
  method KernelTables(size: nat) returns (r: Registry)
    requires |KEXCP_MSG| <= size
    ensures fresh(r) && r.Valid() && r.size == size && r.history == []
    ensures forall i :: 0 <= i < size ==> r.intrHandlers[i] == Unset && r.excpHandlers[i] == Unset
    ensures r.intrMsg == Padded(KINTR_MSG, size) && r.excpMsg == Padded(KEXCP_MSG, size)
  {
    r := new Registry(size, KINTR_MSG, KEXCP_MSG);
  }

  /**
   * `ktrap_init`: every exception slot, then every interrupt slot, is
   * registered with the general kernel trap handler and no message, so the
   * message tables keep their text.
   */
  method KtrapInit(r: Registry)
    requires r.Valid()
    modifies r
    ensures r.Valid()
    ensures r.history == old(r.history) + AllSlots(r.size, false, GeneralKtrapHandler) + AllSlots(r.size, true, GeneralKtrapHandler)
    ensures forall i :: 0 <= i < r.size ==> r.intrHandlers[i] == GeneralKtrapHandler && r.excpHandlers[i] == GeneralKtrapHandler
    ensures r.intrMsg == old(r.intrMsg) && r.excpMsg == old(r.excpMsg)
    ensures forall cause: u64 :: Csr.SplitCause(cause).1 < r.size ==> r.Dispatch(cause) == GeneralKtrapHandler
  {
    r.RegisterAll(GeneralKtrapHandler);
  }
}

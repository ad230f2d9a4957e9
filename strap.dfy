/**
 * The SBI's (M-mode) trap tables: the static message tables, `strap_init`,
 * which points every slot at the general SBI trap handler and then gives
 * the machine timer interrupt its own handler, and `delegate_traps`, which
 * computes the interrupts and exceptions handed down to S-mode. Writing
 * `mtvec`, `mie`, `mideleg` and `medeleg` is a CSR side effect outside this
 * model; `DelegateTraps` returns the two values written.
 *
 * The `CAUSE_*` and `MIP_S_*` constants come from a header that is not part
 * of this model; they are the RISC-V privileged architecture's cause codes
 * and `mip` bit positions, the same numbers as the `MCAUSE_*` codes.
 */
module Strap {
  import opened Options
  import opened Words
  import opened Csr
  import opened TrapRegistry

  const CAUSE_INTERRUPT_M_TIMER_INTERRUPT: nat := 7
  const MIP_S_SOFTWARE_INTERRUPT: u64 := Shl(1, 1)
  const MIP_S_TIMER_INTERRUPT: u64 := Shl(1, 5)
  const MIP_S_EXTERNAL_INTERRUPT: u64 := Shl(1, 9)

  /** `sintr_msg`: the architecture's name of every interrupt code below 12. */
  const SINTR_MSG: seq<Message> := [
    Some("User Software Interrupt"),
    Some("Supervisor Software Interrupt"),
    Some("Reserved for Future Standard Use"),
    Some("Machine Software Interrupt"),
    Some("User Timer Interrupt"),
    Some("Supervisor Timer Interrupt"),
    Some("Reserved for Future Standard Use"),
    Some("Machine Timer Interrupt"),
    Some("User External Interrupt"),
    Some("Supervisor External Interrupt"),
    Some("Reserved for Future Standard Use"),
    Some("Machine External Interrupt")
  ]

  /** `sexcp_msg`: the architecture's name of every exception code below 16. */
  const SEXCP_MSG: seq<Message> := [
    Some("Instrution Address Misaligned"),
    Some("Instrution Access Fault"),
    Some("Illegal Instruction"),
    Some("Breakpoint"),
    Some("Load address Misaligned"),
    Some("Load access Fault"),
    Some("Store/AMO address Misaligned"),
    Some("Store/AMO Access Fault"),
    Some("Environment Call from U-Mode"),
    Some("Environment Call from S-Mode"),
    Some("Reserved"),
    Some("Environment Call from M-Mode"),
    Some("Instruction Page Fault"),
    Some("Load Page Fault"),
    Some("Reserved for Future Standard Use"),
    Some("Store/AMO Page Fault")
  ]

  /** The SBI's tables as loaded: NULL handlers, the static messages. */
  method SbiTables(size: nat) returns (r: Registry)
    requires |SEXCP_MSG| <= size
    ensures fresh(r) && r.Valid() && r.size == size && r.history == []
    ensures forall i :: 0 <= i < size ==> r.intrHandlers[i] == Unset && r.excpHandlers[i] == Unset
    ensures r.intrMsg == Padded(SINTR_MSG, size) && r.excpMsg == Padded(SEXCP_MSG, size)
  {
    r := new Registry(size, SINTR_MSG, SEXCP_MSG);
  }

  /** The registration `strap_init` makes after its two loops. */
  const TIMER_REGISTRATION: Registration :=
    Registration(CAUSE_INTERRUPT_M_TIMER_INTERRUPT, true, Some("Machine Timer Interrupt"), StimerInterruptHandler)

  /**
   * `strap_init`: every exception slot, then every interrupt slot, gets the
   * general SBI trap handler; then interrupt 7, the machine timer, gets
   * `stimer_interrupt_handler` and its message is set again.
   */
  method StrapInit(r: Registry)
    requires r.Valid() && CAUSE_INTERRUPT_M_TIMER_INTERRUPT < r.size
    modifies r
    ensures r.Valid()
    ensures r.history == old(r.history) + AllSlots(r.size, false, GeneralStrapHandler) + AllSlots(r.size, true, GeneralStrapHandler)
                         + [TIMER_REGISTRATION]
    ensures forall i :: 0 <= i < r.size ==>
              && r.excpHandlers[i] == GeneralStrapHandler
              && r.intrHandlers[i] == if i == CAUSE_INTERRUPT_M_TIMER_INTERRUPT then StimerInterruptHandler else GeneralStrapHandler
    ensures r.intrMsg == old(r.intrMsg)[CAUSE_INTERRUPT_M_TIMER_INTERRUPT := Some("Machine Timer Interrupt")]
    ensures r.excpMsg == old(r.excpMsg)
    ensures forall cause: u64 :: SplitCause(cause).1 < r.size ==>
              r.Dispatch(cause) == if SplitCause(cause) == (true, CAUSE_INTERRUPT_M_TIMER_INTERRUPT) then StimerInterruptHandler
                                   else GeneralStrapHandler
  {
    r.RegisterAll(GeneralStrapHandler);
    r.Register(TIMER_REGISTRATION.code, TIMER_REGISTRATION.interrupt, TIMER_REGISTRATION.msg, TIMER_REGISTRATION.handler);
  }

  /**
   * After `strap_init` and any later registrations, the machine timer
   * interrupt runs the last handler registered for it since, or
   * `stimer_interrupt_handler`; every other slot in range runs the last
   * handler registered for it since, or the general SBI handler.
   */
  lemma DispatchAfterInit(before: seq<Registration>, size: nat, after: seq<Registration>, interrupt: bool, code: nat)
    requires CAUSE_INTERRUPT_M_TIMER_INTERRUPT < size && code < size
    ensures LatestHandler(before + AllSlots(size, false, GeneralStrapHandler) + AllSlots(size, true, GeneralStrapHandler)
                          + [TIMER_REGISTRATION] + after, interrupt, code)
            == if exists k :: 0 <= k < |after| && after[k].interrupt == interrupt && after[k].code == code
               then LatestHandler(after, interrupt, code)
               else if interrupt && code == CAUSE_INTERRUPT_M_TIMER_INTERRUPT then StimerInterruptHandler
               else GeneralStrapHandler
  {
    var fill := before + AllSlots(size, false, GeneralStrapHandler) + AllSlots(size, true, GeneralStrapHandler);
    assert fill + [TIMER_REGISTRATION] + after == fill + ([TIMER_REGISTRATION] + after);
    LatestAfterAll(before, size, GeneralStrapHandler, [TIMER_REGISTRATION] + after, interrupt, code);
    var all := [TIMER_REGISTRATION] + after;
    if exists k :: 0 <= k < |after| && after[k].interrupt == interrupt && after[k].code == code {
      var k :| 0 <= k < |after| && after[k].interrupt == interrupt && after[k].code == code;
      assert all[k + 1] == after[k];
      LatestInPrefixed(TIMER_REGISTRATION, after, interrupt, code, k);
    } else if interrupt && code == CAUSE_INTERRUPT_M_TIMER_INTERRUPT {
      assert all[0] == TIMER_REGISTRATION;
      LatestSkipsOthers([TIMER_REGISTRATION], after, interrupt, code);
    } else {
      forall k | 0 <= k < |all|
        ensures !(all[k].interrupt == interrupt && all[k].code == code)
      {
        if k > 0 {
          assert all[k] == after[k - 1];
        }
      }
    }
  }

  /** A registration in front of a suffix that registers a slot does not change that slot. */
  lemma {:induction false} LatestInPrefixed(first: Registration, after: seq<Registration>, interrupt: bool, code: nat, k: nat)
    requires k < |after| && after[k].interrupt == interrupt && after[k].code == code
    ensures LatestHandler([first] + after, interrupt, code) == LatestHandler(after, interrupt, code)
    decreases |after|
  {
    var all := [first] + after;
    assert all[|all| - 1] == after[|after| - 1];
    assert all[..|all| - 1] == [first] + after[..|after| - 1];
    var last := after[|after| - 1];
    if !(last.interrupt == interrupt && last.code == code) {
      assert k < |after| - 1;
      LatestInPrefixed(first, after[..|after| - 1], interrupt, code, k);
    }
  }

  /** The OR, left to right, of `1UL << c` for every code c. */
  function CodeMask(codes: seq<nat>): (m: u64)
    requires forall i :: 0 <= i < |codes| ==> codes[i] < 64
    decreases |codes|
  {
    if |codes| == 0 then 0
    else
      var prev := CodeMask(codes[..|codes| - 1]);
      OrWord(prev, Shl(1, codes[|codes| - 1]));
      Or(prev, Shl(1, codes[|codes| - 1]))
  }

  /** Below 64, `1UL << c` is the single bit c. */
  lemma SingleBit(c: nat)
    requires c < 64
    ensures Shl(1, c) == Pow2(c)
  {
    Pow2Mono(c + 1, 64);
    Pow2Word();
  }

  /** A code mask has exactly the bits of its codes. */
  lemma {:induction false} CodeMaskBits(codes: seq<nat>, n: nat)
    requires forall i :: 0 <= i < |codes| ==> codes[i] < 64
    ensures Bit(CodeMask(codes), n) <==> n in codes
    decreases |codes|
  {
    if |codes| == 0 {
      BitZero(n);
    } else {
      var init := codes[..|codes| - 1];
      var c := codes[|codes| - 1];
      CodeMaskBits(init, n);
      BitOr(CodeMask(init), Shl(1, c), n);
      SingleBit(c);
      BitPow2(c, n);
      assert codes == init + [c];
    }
  }

  /** The exceptions `delegate_traps` hands to S-mode, in its order. */
  const DELEGATED_EXCEPTIONS: seq<nat> := [
    MCAUSE_MISALIGNED_FETCH,
    MCAUSE_FETCH_PAGE_FAULT,
    MCAUSE_LOAD_PAGE_FAULT,
    MCAUSE_STORE_PAGE_FAULT,
    MCAUSE_LOAD_ACCESS,
    MCAUSE_STORE_ACCESS,
    MCAUSE_BREAKPOINT,
    MCAUSE_ILLEGAL_INSTRUCTION,
    MCAUSE_USER_ECALL
  ]

  /** `delegate_traps`: the values written to `mideleg` and `medeleg`. */
  function DelegateTraps(): (r: (u64, u64))
  {
    OrWord(MIP_S_SOFTWARE_INTERRUPT, MIP_S_TIMER_INTERRUPT);
    OrWord(Or(MIP_S_SOFTWARE_INTERRUPT, MIP_S_TIMER_INTERRUPT), MIP_S_EXTERNAL_INTERRUPT);
    (Or(Or(MIP_S_SOFTWARE_INTERRUPT, MIP_S_TIMER_INTERRUPT), MIP_S_EXTERNAL_INTERRUPT), CodeMask(DELEGATED_EXCEPTIONS))
  }

  /**
   * Exactly the S-mode software, timer and external interrupts (bits 1, 5
   * and 9) are delegated, and exactly the nine listed exceptions; every
   * other trap, the S-mode environment call (9) among them, stays in
   * M-mode.
   */
  lemma DelegatedBits(n: nat)
    ensures Bit(DelegateTraps().0, n) <==> n == 1 || n == 5 || n == 9
    ensures Bit(DelegateTraps().1, n) <==> n in {0, 2, 3, 5, 7, 8, 12, 13, 15}
  {
    var ints: seq<nat> := [1, 5, 9];
    SingleBit(1); SingleBit(5); SingleBit(9);
    assert ints[..1] == [1] && ints[..2] == [1, 5] && ints[..2][..1] == [1];
    assert CodeMask([1]) == Shl(1, 1);
    assert DelegateTraps().0 == CodeMask(ints);
    CodeMaskBits(ints, n);
    CodeMaskBits(DELEGATED_EXCEPTIONS, n);
  }
}

/**
 * The SBI's supervisor ecall service: `ecall_init` registers the handler
 * for the environment call from S-mode, and `sup_ecall_handler` serves the
 * call whose id the caller put in `a7`, with its argument in `a0`. What
 * goes to the UART is returned as a `Console` value; a handler that spins
 * forever is a `Halted` outcome.
 */
module Secall {
  import opened Words
  import opened Csr
  import TrapRegistry

  /** The SBI call ids. */
  const SBICALL_SETTIMER: u64 := 0
  const SBICALL_CONSOLE_PUTCHAR: u64 := 1
  const SBICALL_CONSOLE_PUTSTR: u64 := 2
  const SBICALL_CONSOLE_GETCHAR: u64 := 3

  /** Length of an `ecall` instruction. */
  const ECALL_LENGTH: u64 := 4

  /** What one ecall sends to the UART: a byte, the string at an address, or the error text. */
  datatype Console = PutChar(c: nat) | PutStr(str: u64) | EcallError

  /** The handler returns a value, or prints and hangs the hart. */
  datatype EcallOutcome = Returned(ret: int, out: Console) | Halted(out: Console)

  /** The saved registers of the trapped hart the handler reads and writes. */
  class StrapFrame {
    var a0: u64
    var a1: u64
    var a2: u64
    var a7: u64
    var mepc: u64

    constructor (a0: u64, a1: u64, a2: u64, a7: u64, mepc: u64)
      ensures this.a0 == a0 && this.a1 == a1 && this.a2 == a2 && this.a7 == a7 && this.mepc == mepc
    {
      this.a0 := a0;
      this.a1 := a1;
      this.a2 := a2;
      this.a7 := a7;
      this.mepc := mepc;
    }
  }

  /**
   * The outcome of the switch in `sup_ecall_handler` as written: the
   * character call prints the low byte of a0 and yields 0, the string
   * call prints but leaves the result at -1, and every other id (the
   * timer and getchar calls among them) prints an error and hangs.
   */
  function EcallOutcomeAsWritten(id: u64, a0: u64): (o: EcallOutcome)
    ensures o.Returned? <==> id == SBICALL_CONSOLE_PUTCHAR || id == SBICALL_CONSOLE_PUTSTR
    ensures o.Returned? ==> (o.ret == 0 <==> id == SBICALL_CONSOLE_PUTCHAR)
    ensures o.Halted? ==> o.out == EcallError
  {
    if id == SBICALL_CONSOLE_PUTCHAR then Returned(0, PutChar(a0 % 256))
    else if id == SBICALL_CONSOLE_PUTSTR then Returned(-1, PutStr(a0))
    else Halted(EcallError)
  }

  /** The outcome with the string call yielding 0 as well, as both console calls evidently should. */
  function EcallOutcomeOf(id: u64, a0: u64): (o: EcallOutcome)
    ensures o.Halted? <==> o.out == EcallError
  {
    if id == SBICALL_CONSOLE_PUTCHAR then Returned(0, PutChar(a0 % 256))
    else if id == SBICALL_CONSOLE_PUTSTR then Returned(0, PutStr(a0))
    else Halted(EcallError)
  }

  /**
   * `sup_ecall_handler`, with the string call corrected to yield 0: the
   * outcome of the call in a7, and `mepc` moved past the ecall exactly
   * when the result is 0; no other register changes.
   */
  method SupEcallHandler(f: StrapFrame) returns (o: EcallOutcome)
    modifies f`mepc
    ensures o == EcallOutcomeOf(f.a7, f.a0)
    ensures f.mepc == if o.Returned? && o.ret == 0 then Add(old(f.mepc), ECALL_LENGTH) else old(f.mepc)
  {
    var arg0 := f.a0;
    var id := f.a7;
    var ret: int := -1;
    var out: Console;
    if id == SBICALL_CONSOLE_PUTCHAR {
      out := PutChar(arg0 % 256);
      ret := 0;
    } else if id == SBICALL_CONSOLE_PUTSTR {
      out := PutStr(arg0);
      ret := 0;
    } else {
      return Halted(EcallError);
    }
    if ret == 0 {
      f.mepc := Add(f.mepc, ECALL_LENGTH);
    }
    o := Returned(ret, out);
  }

  /**
   * The console output of at most n trap round trips through one ecall:
   * after the handler returns, the hart resumes at `mepc`, which is the
   * same ecall again unless the result was 0. The dispatcher drops the
   * result, so a0 and a7 are unchanged for the next round.
   */
  function RoundsAsWritten(id: u64, a0: u64, n: nat): (r: seq<Console>)
    ensures |r| <= n
  {
    if n == 0 then []
    else match EcallOutcomeAsWritten(id, a0)
      case Halted(out) => [out]
      case Returned(ret, out) => if ret == 0 then [out] else [out] + RoundsAsWritten(id, a0, n - 1)
  }

  /** The same with the corrected outcome. */
  function Rounds(id: u64, a0: u64, n: nat): (r: seq<Console>)
    ensures |r| <= n
  {
    if n == 0 then []
    else match EcallOutcomeOf(id, a0)
      case Halted(out) => [out]
      case Returned(ret, out) => if ret == 0 then [out] else [out] + Rounds(id, a0, n - 1)
  }

  /** As written, a string call never gets past its ecall: every round prints the string again. */
  lemma {:induction false} PutStrRepeatsAsWritten(a0: u64, n: nat)
    ensures RoundsAsWritten(SBICALL_CONSOLE_PUTSTR, a0, n) == seq(n, _ => PutStr(a0))
  {
    if n > 0 {
      PutStrRepeatsAsWritten(a0, n - 1);
    }
  }

  /**
   * Corrected, every ecall prints exactly once, whatever its id: a console
   * call returns 0 and resumes after the ecall, any other call hangs.
   */
  lemma EcallPrintsOnce(id: u64, a0: u64, n: nat)
    requires n >= 1
    ensures Rounds(id, a0, n) == [EcallOutcomeOf(id, a0).out]
    ensures EcallOutcomeOf(id, a0).Returned? <==> id == SBICALL_CONSOLE_PUTCHAR || id == SBICALL_CONSOLE_PUTSTR
    ensures EcallOutcomeOf(id, a0).Returned? ==> EcallOutcomeOf(id, a0).ret == 0
  {
  }

  /** The two outcomes differ only in the string call's result. */
  lemma OutcomesAgree(id: u64, a0: u64)
    ensures EcallOutcomeAsWritten(id, a0).out == EcallOutcomeOf(id, a0).out
    ensures EcallOutcomeAsWritten(id, a0) != EcallOutcomeOf(id, a0) <==> id == SBICALL_CONSOLE_PUTSTR
  {
  }

  /**
   * `ecall_init`: the environment call from S-mode (exception 9) gets the
   * ecall handler and keeps its message; afterwards a trap with that cause
   * is dispatched to it.
   */
  method EcallInit(r: TrapRegistry.Registry)
    requires r.Valid() && MCAUSE_SUPERVISOR_ECALL < r.size
    modifies r
    ensures r.Valid()
    ensures r.history == old(r.history) + [TrapRegistry.Registration(MCAUSE_SUPERVISOR_ECALL, false, TrapRegistry.Message.None, TrapRegistry.SupEcallHandler)]
    ensures r.excpHandlers == old(r.excpHandlers)[MCAUSE_SUPERVISOR_ECALL := TrapRegistry.SupEcallHandler]
    ensures r.intrHandlers == old(r.intrHandlers) && r.intrMsg == old(r.intrMsg) && r.excpMsg == old(r.excpMsg)
    ensures SplitCause(MCAUSE_SUPERVISOR_ECALL) == (false, MCAUSE_SUPERVISOR_ECALL)
    ensures r.Dispatch(MCAUSE_SUPERVISOR_ECALL) == TrapRegistry.SupEcallHandler
  {
    r.Register(MCAUSE_SUPERVISOR_ECALL, false, TrapRegistry.Message.None, TrapRegistry.SupEcallHandler);
    SmallPowers();
    Pow2Mono(8, 63);
    SplitExceptionCause(MCAUSE_SUPERVISOR_ECALL);
  }
}

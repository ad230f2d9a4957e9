/**
 * The trap handler registries the kernel (S-mode) and the SBI (M-mode)
 * keep: per privilege level, a table of interrupt handlers and one of
 * exception handlers, each with a parallel table of messages, all indexed
 * by the trap code and `MAX_INTR_EXCP_INFO_NUM` long. A register call
 * overwrites one handler slot and, when it brings a message, one message
 * slot; the dispatcher splits the cause value on bit 63 and calls the
 * handler in the selected slot.
 *
 * Handlers are named by `HandlerId` (`Unset` is the NULL pointer of a
 * slot nothing was registered in), a message is an `Option<string>`
 * (`None` is NULL), and the cause register is an input.
 */
module TrapRegistry {
  import opened Words
  import opened Options
  import opened Csr

  datatype HandlerId =
    | Unset
    | GeneralKtrapHandler
    | GeneralStrapHandler
    | StimerInterruptHandler
    | SupEcallHandler
    | OtherHandler(id: nat)

  type Message = Option<string>

  /** One call `register(trap_code, interrupt, msg, func)`. */
  datatype Registration = Registration(code: nat, interrupt: bool, msg: Message, handler: HandlerId)

  /** The handler of slot (interrupt, code) after regs: the last one registered there, else `Unset`. */
  function LatestHandler(regs: seq<Registration>, interrupt: bool, code: nat): HandlerId
    decreases |regs|
  {
    if |regs| == 0 then Unset
    else
      var r := regs[|regs| - 1];
      if r.interrupt == interrupt && r.code == code then r.handler
      else LatestHandler(regs[..|regs| - 1], interrupt, code)
  }

  /** The message of slot (interrupt, code) after regs: the last non-NULL one registered there, else initial. */
  function LatestMessage(initial: Message, regs: seq<Registration>, interrupt: bool, code: nat): Message
    decreases |regs|
  {
    if |regs| == 0 then initial
    else
      var r := regs[|regs| - 1];
      if r.interrupt == interrupt && r.code == code && r.msg.Some? then r.msg
      else LatestMessage(initial, regs[..|regs| - 1], interrupt, code)
  }

  /** The initialiser of a static message table: the listed messages, then NULL up to size. */
  function Padded(table: seq<Message>, size: nat): (r: seq<Message>)
    requires |table| <= size
    ensures |r| == size
    ensures forall i :: 0 <= i < size ==> r[i] == if i < |table| then table[i] else None
  {
    table + seq(size - |table|, _ => None)
  }

  /** One registration per slot of one table, in index order: the loops of the init functions. */
  function AllSlots(n: nat, interrupt: bool, handler: HandlerId): (r: seq<Registration>)
    ensures |r| == n
    ensures forall i :: 0 <= i < n ==> r[i] == Registration(i, interrupt, None, handler)
  {
    seq(n, i requires 0 <= i => Registration(i, interrupt, None, handler))
  }

  /** The report the general handler prints before it hangs the hart. */
  datatype Report = Report(kind: string, code: u64, cause: u64, message: Message)

  class Registry {
    /** `MAX_INTR_EXCP_INFO_NUM` */
    const size: nat
    var intrHandlers: seq<HandlerId>
    var excpHandlers: seq<HandlerId>
    var intrMsg: seq<Message>
    var excpMsg: seq<Message>
    /** The message tables as the static initialisers leave them. */
    ghost const intrInit: seq<Message>
    ghost const excpInit: seq<Message>
    /** Every registration so far, oldest first. */
    ghost var history: seq<Registration>

    /** Each slot holds what the registrations so far put there. */
    ghost predicate Valid()
      reads this
    {
      && |intrHandlers| == size && |excpHandlers| == size
      && |intrMsg| == size && |excpMsg| == size
      && |intrInit| == size && |excpInit| == size
      && (forall i :: 0 <= i < size ==> intrHandlers[i] == LatestHandler(history, true, i))
      && (forall i :: 0 <= i < size ==> excpHandlers[i] == LatestHandler(history, false, i))
      && (forall i :: 0 <= i < size ==> intrMsg[i] == LatestMessage(intrInit[i], history, true, i))
      && (forall i :: 0 <= i < size ==> excpMsg[i] == LatestMessage(excpInit[i], history, false, i))
    }

    /**
     * The static tables: every handler slot NULL, the message tables
     * initialised with the given messages and NULL after them.
     */
    constructor (size: nat, intrTable: seq<Message>, excpTable: seq<Message>)
      requires |intrTable| <= size && |excpTable| <= size
      ensures Valid() && history == []
      ensures this.size == size
      ensures intrHandlers == seq(size, _ => Unset) && excpHandlers == seq(size, _ => Unset)
      ensures intrMsg == Padded(intrTable, size) && excpMsg == Padded(excpTable, size)
    {
      this.size := size;
      intrHandlers := seq(size, _ => Unset);
      excpHandlers := seq(size, _ => Unset);
      intrMsg := Padded(intrTable, size);
      excpMsg := Padded(excpTable, size);
      intrInit := Padded(intrTable, size);
      excpInit := Padded(excpTable, size);
      history := [];
    }

    /**
     * `register_ktrap_handler` / `regitser_strap_handler`: the message slot
     * is replaced iff msg is not NULL, the handler slot always; there is no
     * bounds check, so the code must be below the table size.
     */
    method Register(code: nat, interrupt: bool, msg: Message, handler: HandlerId)
      requires Valid() && code < size
      modifies this
      ensures Valid()
      ensures history == old(history) + [Registration(code, interrupt, msg, handler)]
      ensures intrHandlers == if interrupt then old(intrHandlers)[code := handler] else old(intrHandlers)
      ensures excpHandlers == if interrupt then old(excpHandlers) else old(excpHandlers)[code := handler]
      ensures intrMsg == if interrupt && msg.Some? then old(intrMsg)[code := msg] else old(intrMsg)
      ensures excpMsg == if !interrupt && msg.Some? then old(excpMsg)[code := msg] else old(excpMsg)
    {
      var r := Registration(code, interrupt, msg, handler);
      history := history + [r];
      assert history[..|history| - 1] == old(history);
      if msg.Some? {
        if interrupt {
          intrMsg := intrMsg[code := msg];
        } else {
          excpMsg := excpMsg[code := msg];
        }
      }
      if interrupt {
        intrHandlers := intrHandlers[code := handler];
      } else {
        excpHandlers := excpHandlers[code := handler];
      }
    }

    /** One loop of `ktrap_init` / `strap_init`: every slot of one table is registered with handler and no message. */
    method RegisterTable(interrupt: bool, handler: HandlerId)
      requires Valid()
      modifies this
      ensures Valid()
      ensures history == old(history) + AllSlots(size, interrupt, handler)
      ensures forall i :: 0 <= i < size ==> (if interrupt then intrHandlers[i] else excpHandlers[i]) == handler
      ensures if interrupt then excpHandlers == old(excpHandlers) else intrHandlers == old(intrHandlers)
      ensures intrMsg == old(intrMsg) && excpMsg == old(excpMsg)
    {
      for i := 0 to size
        invariant Valid()
        invariant history == old(history) + AllSlots(i, interrupt, handler)
        invariant forall j :: 0 <= j < i ==> (if interrupt then intrHandlers[j] else excpHandlers[j]) == handler
        invariant if interrupt then excpHandlers == old(excpHandlers) else intrHandlers == old(intrHandlers)
        invariant intrMsg == old(intrMsg) && excpMsg == old(excpMsg)
      {
        Register(i, interrupt, None, handler);
        assert AllSlots(i + 1, interrupt, handler) == AllSlots(i, interrupt, handler) + [Registration(i, interrupt, None, handler)];
      }
    }

    /** The two loops of `ktrap_init` / `strap_init`: the exception table, then the interrupt table. */
    method RegisterAll(handler: HandlerId)
      requires Valid()
      modifies this
      ensures Valid()
      ensures history == old(history) + AllSlots(size, false, handler) + AllSlots(size, true, handler)
      ensures forall i :: 0 <= i < size ==> intrHandlers[i] == handler && excpHandlers[i] == handler
      ensures intrMsg == old(intrMsg) && excpMsg == old(excpMsg)
    {
      RegisterTable(false, handler);
      RegisterTable(true, handler);
    }

    /**
     * `ktrap_dispatcher` / `strap_dispatcher`: the handler called for a
     * cause value, the one most recently registered for its bit 63 and its
     * code (the handler's return value is ignored).
     */
    function Dispatch(cause: u64): (h: HandlerId)
      reads this
      requires Valid() && SplitCause(cause).1 < size
      ensures h == LatestHandler(history, Bit(cause, 63), cause % Pow2(63))
    {
      SplitCauseParts(cause);
      var (isInterrupt, code) := SplitCause(cause);
      if isInterrupt then intrHandlers[code] else excpHandlers[code]
    }

    /**
     * `general_ktrap_handler` / `general_strap_handler`: what it prints
     * (the kind of trap, its code and cause, and the slot's message) before
     * it spins forever; it never returns to the dispatcher.
     */
    function GeneralReport(cause: u64): (r: Report)
      reads this
      requires Valid() && SplitCause(cause).1 < size
      ensures r.code == SplitCause(cause).1 == cause % Pow2(63) && r.cause == cause
      ensures r.kind == if Bit(cause, 63) then "Interrupt" else "Exception"
      ensures r.message == if Bit(cause, 63) then LatestMessage(intrInit[r.code], history, true, r.code)
                           else LatestMessage(excpInit[r.code], history, false, r.code)
    {
      SplitCauseParts(cause);
      var (isInterrupt, code) := SplitCause(cause);
      var msg := if isInterrupt then intrMsg[code] else excpMsg[code];
      Report(if isInterrupt then "Interrupt" else "Exception", code, cause, msg)
    }
  }

  /**
   * After every slot of both tables was registered with handler, a slot
   * holds the last handler registered there since; with no later
   * registration for it, handler.
   */
  lemma {:induction false} LatestAfterAll(before: seq<Registration>, n: nat, handler: HandlerId, after: seq<Registration>,
                                          interrupt: bool, code: nat)
    requires code < n
    ensures LatestHandler(before + AllSlots(n, false, handler) + AllSlots(n, true, handler) + after, interrupt, code)
            == if exists k :: 0 <= k < |after| && after[k].interrupt == interrupt && after[k].code == code
               then LatestHandler(after, interrupt, code) else handler
    decreases |after|
  {
    var all := before + AllSlots(n, false, handler) + AllSlots(n, true, handler);
    if |after| == 0 {
      assert all + after == all;
      LatestInFill(before, n, handler, interrupt, code);
    } else {
      var last := after[|after| - 1];
      var rest := after[..|after| - 1];
      assert all + after == (all + rest) + [last];
      assert (all + after)[..|all + after| - 1] == all + rest;
      LatestAfterAll(before, n, handler, rest, interrupt, code);
      if !(last.interrupt == interrupt && last.code == code) {
        if exists k :: 0 <= k < |after| && after[k].interrupt == interrupt && after[k].code == code {
          var k :| 0 <= k < |after| && after[k].interrupt == interrupt && after[k].code == code;
          assert k < |rest| && rest[k] == after[k];
        } else {
          forall k | 0 <= k < |rest|
            ensures !(rest[k].interrupt == interrupt && rest[k].code == code)
          {
            assert rest[k] == after[k];
          }
        }
      }
    }
  }

  /** Right after the two fill loops every slot of both tables holds handler. */
  lemma LatestInFill(before: seq<Registration>, n: nat, handler: HandlerId, interrupt: bool, code: nat)
    requires code < n
    ensures LatestHandler(before + AllSlots(n, false, handler) + AllSlots(n, true, handler), interrupt, code) == handler
  {
    var excp := before + AllSlots(n, false, handler);
    if interrupt {
      LatestInSuffix(excp, AllSlots(n, true, handler), interrupt, code, code);
    } else {
      LatestSkipsOthers(excp, AllSlots(n, true, handler), false, code);
      LatestInSuffix(before, AllSlots(n, false, handler), false, code, code);
    }
  }

  /** The last registration of a slot in a suffix decides that slot, when nothing after it in the suffix registers it. */
  lemma {:induction false} LatestInSuffix(prefix: seq<Registration>, suffix: seq<Registration>, interrupt: bool, code: nat, k: nat)
    requires k < |suffix| && suffix[k].interrupt == interrupt && suffix[k].code == code
    requires forall j :: k < j < |suffix| ==> !(suffix[j].interrupt == interrupt && suffix[j].code == code)
    ensures LatestHandler(prefix + suffix, interrupt, code) == suffix[k].handler
    decreases |suffix|
  {
    var all := prefix + suffix;
    assert all[|all| - 1] == suffix[|suffix| - 1];
    if k < |suffix| - 1 {
      assert all[..|all| - 1] == prefix + suffix[..|suffix| - 1];
      LatestInSuffix(prefix, suffix[..|suffix| - 1], interrupt, code, k);
    }
  }

  /** Registrations of other slots do not change a slot's handler. */
  lemma {:induction false} LatestSkipsOthers(prefix: seq<Registration>, suffix: seq<Registration>, interrupt: bool, code: nat)
    requires forall j :: 0 <= j < |suffix| ==> !(suffix[j].interrupt == interrupt && suffix[j].code == code)
    ensures LatestHandler(prefix + suffix, interrupt, code) == LatestHandler(prefix, interrupt, code)
    decreases |suffix|
  {
    if |suffix| > 0 {
      var all := prefix + suffix;
      assert all[|all| - 1] == suffix[|suffix| - 1];
      assert all[..|all| - 1] == prefix + suffix[..|suffix| - 1];
      LatestSkipsOthers(prefix, suffix[..|suffix| - 1], interrupt, code);
    } else {
      assert prefix + suffix == prefix;
    }
  }
}

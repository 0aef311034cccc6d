/** A thread's stack, registers and exception block, changed in place by the instructions that the
    exception macros are made of. */
module ExceptThread {
  import opened ExceptLang
  import opened ExceptAgree
  import M = ExceptMachine
  import opened ExceptProof
  import opened ExceptTheorems

  class Thread {
    var pc: int
    var esp: int
    var ebp: int
    var head: int      // TLS: the innermost handler record, or 0
    var no: nat        // TLS: the current exception number, or 0
    var mem: M.Memory
    var store: Store
    var status: M.Status

    function Now(): M.State
      reads this
    {
      M.State(pc, esp, ebp, head, no, mem, store, status)
    }

    method Push(w: int)
      modifies this
      ensures Now() == M.Push(old(Now()), w)
    {
      esp := esp - M.WORD;
      mem := mem[esp := w];
    }

    method Pop() returns (w: int)
      modifies this
      ensures w == M.PopValue(old(Now())) && Now() == M.Drop(old(Now()))
    {
      w := M.Read(mem, esp);
      esp := esp + M.WORD;
    }

    /** __KEXCEPT_LOADREGS */
    method LoadRegs()
      modifies this
      ensures Now() == M.LoadRegs(old(Now()))
    {
      var w := Pop();
      ebp := w;
    }

    /** __KEXCEPT_TRY_BEGIN. The head is a new record on top of the stack that holds the old head, the
        handler and EBP; memory from the old stack pointer on is untouched. */
    method TryBegin(handler: int)
      modifies this
      ensures Now() == M.TryBegin(old(Now()), handler)
      ensures head == esp == old(esp) - 3 * M.WORD && ebp == old(ebp)
      ensures M.Read(mem, head) == old(head) && M.Read(mem, head + M.WORD) == handler
      ensures M.Read(mem, head + 2 * M.WORD) == ebp && Kept(old(mem), mem, old(esp))
    {
      Push(ebp);
      Push(handler);
      Push(head);
      head := esp;
    }

    /** __KEXCEPT_TRY_END */
    method TryEnd()
      modifies this
      ensures Now() == M.TryEnd(old(Now()))
    {
      var w := Pop();
      head := w;
      esp := esp + 2 * M.WORD;
    }

    /** kexcept_rethrow. `ret` is the last pop. */
    method Rethrow()
      modifies this
      ensures Now() == M.Rethrow(old(Now()))
    {
      if no == 0 {
        status := M.Wrong;
        return;
      }
      var record := head;
      if record == 0 {
        status := M.Unhandled;
        return;
      }
      esp := record;
      var previous := Pop();
      head := previous;
      var target := Pop();
      pc := target;
    }

    /** kexcept_throw. The innermost handler is entered with only its saved EBP left on the stack, and
        its block's outer handler as the head. */
    method Throw(number: nat)
      modifies this
      ensures Now() == M.Throw(old(Now()), number)
      ensures old(status) == M.Running && number != 0 ==> Caught(old(Now()), Now(), number) && mem == old(mem)
    {
      if number == 0 {
        status := M.Wrong;
        return;
      }
      no := number;
      Rethrow();
    }

    /** __KEXCEPT_FINALLY_BEGIN */
    method FinallyBegin()
      modifies this
      ensures Now() == M.StepInstr(M.IFinallyBegin, old(Now()))
    {
      if no != 0 {
        LoadRegs();
      }
      pc := pc + 1;
    }

    /** __KEXCEPT_FINALLY_END */
    method FinallyEnd()
      modifies this
      ensures Now() == M.StepInstr(M.IFinallyEnd, old(Now()))
    {
      if no != 0 {
        Rethrow();
      } else {
        pc := pc + 1;
      }
    }

    /** __KEXCEPT_EXCEPT_BEGIN */
    method ExceptBegin(filter: (Store, nat) -> (Store, int))
      modifies this
      ensures Now() == M.StepInstr(M.IExceptBegin(filter), old(Now()))
    {
      LoadRegs();
      var (st, verdict) := filter(store, no);
      if verdict == CONTINUE_EXECUTION {
        status := M.Wrong;
      } else if verdict == CONTINUE_SEARCH {
        store := st;
        Rethrow();
      } else {
        store := st;
        pc := pc + 1;
      }
    }

    /** __KEXCEPT_EXCEPT_END */
    method ExceptEnd()
      modifies this
      ensures Now() == M.StepInstr(M.IExceptEnd, old(Now()))
    {
      no := 0;
      pc := pc + 1;
    }

    /** One instruction of a program that uses the macros. */
    method Step(code: seq<M.Instr>)
      modifies this
      ensures Now() == M.Step(code, old(Now()))
    {
      if status != M.Running || pc == |code| {
        return;
      }
      if !(0 <= pc < |code|) {
        status := M.Wrong;
        return;
      }
      match code[pc]
      case IAct(f, ws) =>
        store, mem, pc := f(store), M.Scribble(mem, esp, ws), pc + 1;
      case IJump(target) =>
        pc := target;
      case IJumpUnless(cond, target) =>
        pc := if cond(store) then pc + 1 else target;
      case IEnter(words) =>
        Push(ebp);
        ebp := esp;
        esp, pc := esp - M.WORD * words, pc + 1;
      case IExit =>
        esp := ebp;
        LoadRegs();
        pc := pc + 1;
      case IThrow(number) =>
        Throw(number);
      case ITryBegin(handler) =>
        TryBegin(handler);
        pc := pc + 1;
      case ITryEnd =>
        TryEnd();
        pc := pc + 1;
      case ILeave(target) =>
        TryEnd();
        pc := target;
      case IFinallyBegin =>
        FinallyBegin();
      case IFinallyEnd =>
        FinallyEnd();
      case IExceptBegin(filter) =>
        ExceptBegin(filter);
      case IExceptEnd =>
        ExceptEnd();
    }

    method Run(code: seq<M.Instr>, n: nat)
      modifies this
      ensures Now() == M.Steps(code, old(Now()), n)
    {
      var i := 0;
      while i < n
        invariant 0 <= i <= n
        invariant M.Steps(code, Now(), n - i) == M.Steps(code, old(Now()), n)
      {
        Step(code);
        i := i + 1;
      }
    }

    /** Up to `n` steps of a whole program on this thread. While it is not over, the handler chain in the thread's
        memory is that of the try blocks that are open where it is; when it is over, it has ended as
        its meaning says. Either way the caller's part of the stack is untouched. */
    method RunProgram(p: Stmt, n: nat)
      requires Fresh(p, Now()) && Clean(p, store, false, n + 1)
      modifies this
      ensures Kept(old(mem), mem, old(esp))
      ensures if Stopped(Program(p), Now())
              then
                && !Exec(p, old(store), n + 1).Timeout?
                && EndsAs(p, old(Now()), Exec(p, old(store), n + 1), Now())
              else Chain(mem, head, OpenAt(p, 0, pc, old(esp), old(ebp)), 0)
    {
      ghost var m := Now();
      Run(Program(p), n);
      CleanAgrees(p, m.store, 0, false, n + 1);
      EveryState(p, m, n);
      if Stopped(Program(p), Now()) {
        StoppedAs(p, m, n);
      }
    }
  }
}

/** The machine under the exception macros: the stack, two registers, the thread-local head of the
    handler chain and the thread-local exception number; and the code the macros expand to. */
module ExceptMachine {
  import opened ExceptLang

  const WORD: int := 4

  type Memory = map<int, int>

  function Read(mem: Memory, a: int): int {
    if a in mem then mem[a] else 0
  }

  /** Running, stopped in the unhandled-exception routine, or stopped by an assertion or a jump
      into nowhere. */
  datatype Status = Running | Unhandled | Wrong

  datatype State = State(
    pc: int, esp: int, ebp: int, head: int, no: nat,
    mem: Memory, store: Store, status: Status)

  function Push(m: State, w: int): State {
    m.(esp := m.esp - WORD, mem := m.mem[m.esp - WORD := w])
  }

  function PopValue(m: State): int {
    Read(m.mem, m.esp)
  }

  function Drop(m: State): State {
    m.(esp := m.esp + WORD)
  }

  // ---- what the macros do ----

  /** __KEXCEPT_TRY_BEGIN: push EBP, the handler's address and the old head; the record is the new head. */
  function TryBegin(m: State, handler: int): State {
    var m' := Push(Push(Push(m, m.ebp), handler), m.head);
    m'.(head := m'.esp)
  }

  /** __KEXCEPT_TRY_END: pop the head, drop the handler's address and EBP. */
  function TryEnd(m: State): State {
    m.(head := PopValue(m), esp := m.esp + WORD + 2 * WORD)
  }

  /** kexcept_rethrow: cut the stack at the head record, pop the head, return into the handler. */
  function Rethrow(m: State): State {
    if m.no == 0 then m.(status := Wrong)
    else if m.head == 0 then m.(status := Unhandled)
    else m.(esp := m.head + 2 * WORD, head := Read(m.mem, m.head), pc := Read(m.mem, m.head + WORD))
  }

  /** kexcept_throw */
  function Throw(m: State, no: nat): State {
    if no == 0 then m.(status := Wrong) else Rethrow(m.(no := no))
  }

  /** __KEXCEPT_LOADREGS */
  function LoadRegs(m: State): State {
    Drop(m).(ebp := PopValue(m))
  }

  // ---- code ----

  datatype Instr =
    | IAct(f: Store -> Store, scratch: seq<int>)
    | IJump(target: int)
    | IJumpUnless(cond: Store -> bool, target: int)
    | IEnter(words: nat)
    | IExit
    | IThrow(no: nat)
    | ITryBegin(handler: int)
    | ITryEnd
    | ILeave(target: int)
    | IFinallyBegin
    | IFinallyEnd
    | IExceptBegin(filter: (Store, nat) -> (Store, int))
    | IExceptEnd

  function Scribble(mem: Memory, esp: int, ws: seq<int>): Memory
    decreases ws
  {
    if ws == [] then mem else Scribble(mem[esp - WORD := ws[0]], esp - WORD, ws[1..])
  }

  function Next(m: State): State {
    m.(pc := m.pc + 1)
  }

  function StepInstr(i: Instr, m: State): State {
    match i
    case IAct(f, ws) => Next(m).(store := f(m.store), mem := Scribble(m.mem, m.esp, ws))
    case IJump(t) => m.(pc := t)
    case IJumpUnless(c, t) => if c(m.store) then Next(m) else m.(pc := t)
    case IEnter(w) =>
      var m' := Push(m, m.ebp);
      Next(m').(ebp := m'.esp, esp := m'.esp - WORD * w)
    case IExit =>
      Next(LoadRegs(m.(esp := m.ebp)))
    case IThrow(no) => Throw(m, no)
    case ITryBegin(h) => Next(TryBegin(m, h))
    case ITryEnd => Next(TryEnd(m))
    case ILeave(t) => TryEnd(m).(pc := t)
    case IFinallyBegin => Next(if m.no != 0 then LoadRegs(m) else m)
    case IFinallyEnd => if m.no != 0 then Rethrow(m) else Next(m)
    case IExceptBegin(filter) =>
      var m' := LoadRegs(m);
      var (st, verdict) := filter(m.store, m.no);
      if verdict == CONTINUE_EXECUTION then m'.(status := Wrong)
      else if verdict == CONTINUE_SEARCH then Rethrow(m'.(store := st))
      else Next(m'.(store := st))
    case IExceptEnd => Next(m.(no := 0))
  }

  /** One step. A machine that has stopped, or has come to the end of the code, stays as it is. */
  function Step(code: seq<Instr>, m: State): State {
    if m.status != Running || m.pc == |code| then m
    else if 0 <= m.pc < |code| then StepInstr(code[m.pc], m)
    else m.(status := Wrong)
  }

  function Steps(code: seq<Instr>, m: State, n: nat): State
    decreases n
  {
    if n == 0 then m else Steps(code, Step(code, m), n - 1)
  }

  lemma {:induction false} StepsAdd(code: seq<Instr>, m: State, a: nat, b: nat)
    ensures Steps(code, m, a + b) == Steps(code, Steps(code, m, a), b)
    decreases a
  {
    if a > 0 {
      StepsAdd(code, Step(code, m), a - 1, b);
    }
  }

  // ---- compilation ----

  function Len(s: Stmt): nat {
    match s
    case Skip => 0
    case Act(_, _) => 1
    case Seq(s1, s2) => Len(s1) + Len(s2)
    case If(_, a, b) => Len(a) + Len(b) + 2
    case While(_, b) => Len(b) + 2
    case Frame(_, b) => Len(b) + 2
    case Raise(_) => 1
    case Leave => 1
    case TryFinally(b, f) => Len(b) + Len(f) + 4
    case TryExcept(b, _, h) => Len(b) + Len(h) + 5
  }

  /** The code of `s` placed at the address `at`; `exit` is where a leave goes. */
  function Compile(s: Stmt, at: int, exit: int): (code: seq<Instr>)
    ensures |code| == Len(s)
  {
    match s
    case Skip => []
    case Act(f, ws) => [IAct(f, ws)]
    case Seq(s1, s2) => Compile(s1, at, exit) + Compile(s2, at + Len(s1), exit)
    case If(c, a, b) =>
      var other := at + 1 + Len(a) + 1;
      [IJumpUnless(c, other)] + Compile(a, at + 1, exit) + [IJump(other + Len(b))] + Compile(b, other, exit)
    case While(c, b) =>
      [IJumpUnless(c, at + 1 + Len(b) + 1)] + Compile(b, at + 1, exit) + [IJump(at)]
    case Frame(w, b) => [IEnter(w)] + Compile(b, at + 1, exit) + [IExit]
    case Raise(no) => [IThrow(no)]
    case Leave => [ILeave(exit)]
    case TryFinally(b, f) =>
      var handler := HandlerOf(s, at);
      [ITryBegin(handler)] + Compile(b, at + 1, handler) + [ITryEnd]
      + [IFinallyBegin] + Compile(f, handler + 1, exit) + [IFinallyEnd]
    case TryExcept(b, filter, h) =>
      var handler := HandlerOf(s, at);
      [ITryBegin(handler)] + Compile(b, at + 1, handler - 1) + [ITryEnd, IJump(at + Len(s))]
      + [IExceptBegin(filter)] + Compile(h, handler + 1, exit) + [IExceptEnd]
  }

  /** The label of a try block's handler. */
  function HandlerOf(s: Stmt, at: int): int
    requires s.TryFinally? || s.TryExcept?
  {
    if s.TryFinally? then at + 1 + Len(s.body) + 1 else at + 1 + Len(s.body) + 2
  }

  ghost predicate CodeAt(code: seq<Instr>, at: int, part: seq<Instr>) {
    0 <= at <= at + |part| <= |code| && code[at..at + |part|] == part
  }
}

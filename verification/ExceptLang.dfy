/** Client code that uses the exception keywords, and what it should mean. */
module ExceptLang {

  /** What client code computes with: its variables, and the record of what it did. */
  datatype Store = Store(vars: map<string, int>, trace: seq<string>)

  /** Client code between the keywords may also write any words below the stack pointer. */
  datatype Stmt =
    | Skip
    | Act(f: Store -> Store, scratch: seq<int>)
    | Seq(s1: Stmt, s2: Stmt)
    | If(cond: Store -> bool, thn: Stmt, els: Stmt)
    | While(cond: Store -> bool, body: Stmt)
    | Frame(words: nat, body: Stmt)  // a function call with a stack frame of that many words
    | Raise(no: nat)
    | Leave
    | TryFinally(body: Stmt, fin: Stmt)
    | TryExcept(body: Stmt, filter: (Store, nat) -> (Store, int), handler: Stmt)

  /** How a statement ends: at its end, by leaving the enclosing try, by an exception, by a filter
      that asks to resume at the raise, or not within the given number of loop iterations. */
  datatype Res =
    | Normal(s: Store)
    | Left(s: Store)
    | Raised(no: nat, s: Store)
    | Resumed
    | Timeout

  const CONTINUE_EXECUTION: int := -1
  const CONTINUE_SEARCH: int := 0

  /** The structured meaning of a statement. */
  function Exec(s: Stmt, st: Store, fuel: nat): Res
    decreases fuel, s
  {
    match s
    case Skip => Normal(st)
    case Act(f, _) => Normal(f(st))
    case Seq(s1, s2) =>
      var r := Exec(s1, st, fuel);
      if r.Normal? then Exec(s2, r.s, fuel) else r
    case If(c, a, b) => if c(st) then Exec(a, st, fuel) else Exec(b, st, fuel)
    case While(c, b) =>
      if fuel == 0 then Timeout
      else if !c(st) then Normal(st)
      else
        var r := Exec(b, st, fuel);
        if r.Normal? then Exec(s, r.s, fuel - 1) else r
    case Frame(_, b) => Exec(b, st, fuel)
    case Raise(no) => Raised(no, st)
    case Leave => Left(st)
    case TryFinally(b, f) =>
      var r := Exec(b, st, fuel);
      if r.Normal? || r.Left? then Exec(f, r.s, fuel)
      else if r.Raised? then
        var r' := Exec(f, r.s, fuel);
        if r'.Normal? then Raised(r.no, r'.s) else r'
      else r
    case TryExcept(b, filter, h) =>
      var r := Exec(b, st, fuel);
      if r.Left? then Normal(r.s)
      else if r.Raised? then
        var (st', verdict) := filter(r.s, r.no);
        if verdict == CONTINUE_EXECUTION then Resumed
        else if verdict == CONTINUE_SEARCH then Raised(r.no, st')
        else Exec(h, st', fuel)
      else r
  }

  /** What the keywords ask of a program: exception numbers are nonzero, and a try block is left only
      from its own function and outside its loops, handlers and finally bodies. */
  predicate Proper(s: Stmt, inTry: bool) {
    match s
    case Skip => true
    case Act(_, _) => true
    case Seq(s1, s2) => Proper(s1, inTry) && Proper(s2, inTry)
    case If(_, a, b) => Proper(a, inTry) && Proper(b, inTry)
    case While(_, b) => Proper(b, false)
    case Frame(_, b) => Proper(b, false)
    case Raise(no) => no != 0
    case Leave => inTry
    case TryFinally(b, f) => Proper(b, true) && Proper(f, false)
    case TryExcept(b, _, h) => Proper(b, true) && Proper(h, false)
  }

  // ---- what the code does with the thread's one exception number ----

  /** How the code of a statement ends: as `r` says, with the exception number `no`; or at the
      beginning of a finally body that its try block has reached without an exception, but with a
      number that is still set. */
  datatype End = Ended(r: Res, no: nat) | Derailed

  predicate Goes(e: End) {
    e.Ended? && e.r.Normal?
  }

  /** The end of a finally body: an exception whose number is still set goes on. */
  function AfterFinally(e: End): End {
    if Goes(e) && e.no != 0 then Ended(Raised(e.no, e.r.s), e.no) else e
  }

  /** The meaning of a statement in the presence of the exception number: it is `no` at the
      beginning, a raise sets it, the end of a handler clears it, and a finally body asks it whether an
      exception is on its way. */
  function Flow(s: Stmt, st: Store, no: nat, fuel: nat): End
    decreases fuel, s
  {
    match s
    case Skip => Ended(Normal(st), no)
    case Act(f, _) => Ended(Normal(f(st)), no)
    case Seq(s1, s2) =>
      var e := Flow(s1, st, no, fuel);
      if Goes(e) then Flow(s2, e.r.s, e.no, fuel) else e
    case If(c, a, b) => if c(st) then Flow(a, st, no, fuel) else Flow(b, st, no, fuel)
    case While(c, b) =>
      if fuel == 0 then Ended(Timeout, no)
      else if !c(st) then Ended(Normal(st), no)
      else
        var e := Flow(b, st, no, fuel);
        if Goes(e) then Flow(s, e.r.s, e.no, fuel - 1) else e
    case Frame(_, b) => Flow(b, st, no, fuel)
    case Raise(n) => Ended(Raised(n, st), n)
    case Leave => Ended(Left(st), no)
    case TryFinally(b, f) =>
      var e := Flow(b, st, no, fuel);
      if e.Derailed? then e
      else if e.r.Normal? || e.r.Left? then
        if e.no != 0 then Derailed else AfterFinally(Flow(f, e.r.s, 0, fuel))
      else if e.r.Raised? then AfterFinally(Flow(f, e.r.s, e.r.no, fuel))
      else e
    case TryExcept(b, filter, h) =>
      var e := Flow(b, st, no, fuel);
      if e.Derailed? then e
      else if e.r.Left? then Ended(Normal(e.r.s), e.no)
      else if e.r.Raised? then
        var (st', verdict) := filter(e.r.s, e.r.no);
        if verdict == CONTINUE_EXECUTION then Ended(Resumed, e.r.no)
        else if verdict == CONTINUE_SEARCH then Ended(Raised(e.r.no, st'), e.r.no)
        else
          var e' := Flow(h, st', e.r.no, fuel);
          if Goes(e') then Ended(e'.r, 0) else e'
      else e
  }

  /** Code that is not directly in a try block never leaves one. */
  lemma {:induction false} NothingToLeave(s: Stmt, st: Store, no: nat, fuel: nat)
    requires Proper(s, false)
    ensures Flow(s, st, no, fuel).Ended? ==> !Flow(s, st, no, fuel).r.Left?
    decreases fuel, s
  {
    match s
    case Seq(s1, s2) =>
      var e := Flow(s1, st, no, fuel);
      NothingToLeave(s1, st, no, fuel);
      if Goes(e) {
        NothingToLeave(s2, e.r.s, e.no, fuel);
      }
    case If(c, a, b) =>
      NothingToLeave(if c(st) then a else b, st, no, fuel);
    case While(c, b) =>
      if fuel > 0 && c(st) {
        var e := Flow(b, st, no, fuel);
        NothingToLeave(b, st, no, fuel);
        if Goes(e) {
          NothingToLeave(s, e.r.s, e.no, fuel - 1);
        }
      }
    case Frame(_, b) => NothingToLeave(b, st, no, fuel);
    case TryFinally(b, f) =>
      var e := Flow(b, st, no, fuel);
      if e.Ended? && (e.r.Normal? || e.r.Left? || e.r.Raised?) {
        NothingToLeave(f, e.r.s, if e.r.Raised? then e.r.no else 0, fuel);
      }
    case TryExcept(b, filter, h) =>
      var e := Flow(b, st, no, fuel);
      if e.Ended? && e.r.Raised? {
        NothingToLeave(h, filter(e.r.s, e.r.no).0, e.r.no, fuel);
      }
    case _ =>
  }
}

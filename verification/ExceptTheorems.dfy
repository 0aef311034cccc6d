/** What the exception macros guarantee for whole programs and for every try block, and what they do
    where they do not keep to the meaning of the keywords. */
module ExceptTheorems {
  import opened ExceptLang
  import opened ExceptAgree
  import opened ExceptMachine
  import opened ExceptProof

  /** A thread about to run the program `p`, without any handler in place. */
  ghost predicate Fresh(p: Stmt, m: State) {
    m.status == Running && m.pc == 0 && m.head == 0 && m.no == 0 && m.esp > Room(p) && Proper(p, false)
  }

  function Program(p: Stmt): seq<Instr> {
    Compile(p, 0, 0)
  }

  predicate Stopped(code: seq<Instr>, m: State) {
    m.status != Running || m.pc == |code|
  }

  lemma {:induction false} Stays(code: seq<Instr>, m: State, n: nat)
    requires Stopped(code, m)
    ensures Steps(code, m, n) == m
    decreases n
  {
    if n > 0 {
      Stays(code, m, n - 1);
    }
  }

  lemma StaysAfter(code: seq<Instr>, m: State, n: nat, k: nat)
    requires Stopped(code, Steps(code, m, n)) && k >= n
    ensures Steps(code, m, k) == Steps(code, m, n)
  {
    StepsAdd(code, m, n, k - n);
    Stays(code, Steps(code, m, n), k - n);
  }

  lemma FreshSim(p: Stmt, m: State, fuel: nat) returns (n: nat)
    requires Fresh(p, m)
    ensures Runs(Program(p), p, 0, 0, m, fuel, n)
  {
    assert Program(p)[0..|Program(p)|] == Program(p);
    n := Sim(Program(p), p, 0, 0, m, false, fuel);
  }

  lemma NextStep(code: seq<Instr>, m: State, k: nat)
    ensures Steps(code, m, k + 1) == Step(code, Steps(code, m, k)) && Steps(code, m, 0) == m
  {
    StepsAdd(code, m, k, 1);
    assert Steps(code, Steps(code, m, k), 1) == Step(code, Steps(code, m, k));
  }

  // ---- whole programs ----

  /** The machine has ended as `r` says: at the end of the program, with the stack, the frame and the handler
      chain as they were, or in the unhandled-exception routine with that exception; with that store. */
  ghost predicate EndsAs(p: Stmt, m: State, r: Res, m': State) {
    match r
    case Normal(st) => Restored(m, m', |Program(p)|) && m'.store == st
    case Raised(no, st) => m'.status == Unhandled && m'.no == no && m'.store == st
    case Resumed => m'.status == Wrong
    case Left(_) => false
    case Timeout => true
  }

  /** The label of a finally block holds the first instruction of the finally part. */
  lemma {:induction false} SiteCode(code: seq<Instr>, s: Stmt, at: int, exit: int, pc: int, esp: int, ebp: int)
    requires CodeAt(code, at, Compile(s, at, exit)) && FinallyAt(s, at, pc, esp, ebp).Site?
    ensures 0 <= pc < |code| && code[pc] == IFinallyBegin
    decreases s, 1
  {
    hide CodeAt, Compile;
    match s
    case Seq(s1, s2) =>
      SeqLayout(code, s, at, exit);
      if pc < at + Len(s1) {
        SiteCode(code, s1, at, exit, pc, esp, ebp);
      } else {
        SiteCode(code, s2, at + Len(s1), exit, pc, esp, ebp);
      }
    case If(_, a, b) =>
      IfLayout(code, s, at, exit);
      if pc < at + 1 + Len(a) {
        SiteCode(code, a, at + 1, exit, pc, esp, ebp);
      } else {
        SiteCode(code, b, at + 1 + Len(a) + 1, exit, pc, esp, ebp);
      }
    case While(_, b) =>
      LoopLayout(code, s, at, exit);
      SiteCode(code, b, at + 1, exit, pc, esp, ebp);
    case Frame(w, b) =>
      FrameLayout(code, s, at, exit);
      SiteCode(code, b, at + 1, exit, pc, esp - WORD - WORD * w, esp - WORD);
    case TryFinally(_, _) => SiteTry(code, s, at, exit, pc, esp, ebp);
    case TryExcept(_, _, _) => SiteTry(code, s, at, exit, pc, esp, ebp);
    case _ =>
  }

  lemma {:induction false} SiteTry(code: seq<Instr>, s: Stmt, at: int, exit: int, pc: int, esp: int, ebp: int)
    requires s.TryFinally? || s.TryExcept?
    requires CodeAt(code, at, Compile(s, at, exit)) && FinallyAt(s, at, pc, esp, ebp).Site?
    ensures 0 <= pc < |code| && code[pc] == IFinallyBegin
    decreases s, 0
  {
    hide CodeAt, Compile;
    if s.TryFinally? {
      FinallyLayout(code, s, at, exit);
    } else {
      ExceptLayout(code, s, at, exit);
    }
    if at < pc <= at + 1 + Len(s.body) {
      SiteCode(code, s.body, at + 1, AfterBody(s, at), pc, esp - 3 * WORD, ebp);
    } else if s.TryExcept? {
      SiteCode(code, s.handler, HandlerOf(s, at) + 1, exit, pc, esp, ebp);
    } else if pc != HandlerOf(s, at) {
      SiteCode(code, s.fin, HandlerOf(s, at) + 1, exit, pc, esp, ebp);
    }
  }

  /** In the state `x` the program is at the label of a finally block that it has not been thrown to, with an
      exception number set; in the next state `y` the finally body begins, with the stack pointer a word above
      the one with which the block began, and the frame pointer taken from there. */
  ghost predicate Derailing(p: Stmt, m: State, x: State, y: State) {
    && Within(p, 0, m, x) && Derails(p, 0, m, x) && Program(p)[x.pc] == IFinallyBegin
    && y.status == Running && y.pc == x.pc + 1 && y.no == x.no
    && FinallyAt(p, 0, x.pc, m.esp, m.ebp).esp + WORD == y.esp && y.ebp == Read(x.mem, x.esp)
  }

  lemma DerailingStep(p: Stmt, m: State, x: State)
    requires Within(p, 0, m, x) && Derails(p, 0, m, x)
    ensures Derailing(p, m, x, Step(Program(p), x))
  {
    hide Compile, FinallyAt, Chain;
    assert Program(p)[0..|Program(p)|] == Program(p);
    SiteCode(Program(p), p, 0, 0, x.pc, m.esp, m.ebp);
  }

  /** Every proper program, of any nesting, does what `Flow` says: it ends so and stays there, or it derails. */
  lemma FlowCorrect(p: Stmt, m: State, fuel: nat) returns (n: nat)
    requires Fresh(p, m)
    ensures var e, x := Flow(p, m.store, 0, fuel), Steps(Program(p), m, n);
            && (e.Ended? ==> EndsAs(p, m, e.r, x))
            && (e.Ended? && !e.r.Timeout? ==> forall k: nat :: k >= n ==> Steps(Program(p), m, k) == x)
            && (e.Derailed? ==> Derailing(p, m, x, Steps(Program(p), m, n + 1)))
  {
    hide Steps, Flow, Proper, Room, Derailing, Within, Derails;
    var code := Program(p);
    n := FreshSim(p, m, fuel);
    NothingToLeave(p, m.store, 0, fuel);
    var e := Flow(p, m.store, 0, fuel);
    if e.Derailed? {
      NextStep(code, m, n);
      DerailingStep(p, m, Steps(code, m, n));
    } else if !e.r.Timeout? {
      forall k: nat | k >= n
        ensures Steps(code, m, k) == Steps(code, m, n)
      {
        StaysAfter(code, m, n, k);
      }
    }
  }

  /** The machine derails at some time if and only if `Flow` says so. */
  lemma DerailsExactly(p: Stmt, m: State, fuel: nat)
    requires Fresh(p, m) && !Late(Flow(p, m.store, 0, fuel))
    ensures Flow(p, m.store, 0, fuel).Derailed? <==>
              exists k: nat :: Within(p, 0, m, Steps(Program(p), m, k)) && Derails(p, 0, m, Steps(Program(p), m, k))
  {
    hide Steps, Flow, Proper, Room;
    var code := Program(p);
    var n := FreshSim(p, m, fuel);
    NothingToLeave(p, m.store, 0, fuel);
    if Flow(p, m.store, 0, fuel).Ended? {
      forall k: nat
        ensures !(Within(p, 0, m, Steps(code, m, k)) && Derails(p, 0, m, Steps(code, m, k)))
      {
        if k < n {
          assert Inside(p, 0, m, Steps(code, m, k));
        } else {
          StaysAfter(code, m, n, k);
        }
      }
    } else {
      assert Within(p, 0, m, Steps(code, m, n)) && Derails(p, 0, m, Steps(code, m, n));
    }
  }

  /** A program whose meaning is clean ends as its meaning does, and stays there. */
  lemma ProgramCorrect(p: Stmt, m: State, fuel: nat) returns (n: nat)
    requires Fresh(p, m) && Clean(p, m.store, false, fuel)
    ensures var r, m' := Exec(p, m.store, fuel), Steps(Program(p), m, n);
            EndsAs(p, m, r, m') && (!r.Timeout? ==> forall k: nat :: k >= n ==> Steps(Program(p), m, k) == m')
  {
    hide Steps, Flow, Exec, Clean, Room, Program;
    CleanAgrees(p, m.store, 0, false, fuel);
    n := FlowCorrect(p, m, fuel);
  }

  /** So does every program whose finally bodies hold no try blocks and whose handlers hold no finally blocks. */
  lemma ShelteredCorrect(p: Stmt, m: State, fuel: nat) returns (n: nat)
    requires Fresh(p, m) && Sheltered(p, false)
    ensures var r, m' := Exec(p, m.store, fuel), Steps(Program(p), m, n);
            EndsAs(p, m, r, m') && (!r.Timeout? ==> forall k: nat :: k >= n ==> Steps(Program(p), m, k) == m')
  {
    hide Steps, Exec, Clean, Fresh, Program;
    ShelteredClean(p, m.store, false, false, fuel);
    n := ProgramCorrect(p, m, fuel);
  }

  /** While a program has not ended by `Flow`, its code has not: it stops only if `Flow` does. */
  lemma RunsOn(p: Stmt, m: State, n: nat)
    requires Fresh(p, m) && Late(Flow(p, m.store, 0, n + 1))
    ensures !Stopped(Program(p), Steps(Program(p), m, n))
  {
    var k := FreshSim(p, m, n + 1);
    assert Inside(p, 0, m, Steps(Program(p), m, n));
  }

  /** The handler chain in memory has exactly one record for each try block that is open at this point of the
      code, the innermost first, at ascending addresses, each with its handler's label and the frame
      pointer it saved; and no word of memory from the initial stack pointer on has changed. */
  ghost predicate ChainKept(p: Stmt, m: State, x: State) {
    && Kept(m.mem, x.mem, m.esp)
    && (!Stopped(Program(p), x) ==> Chain(x.mem, x.head, OpenAt(p, 0, x.pc, m.esp, m.ebp), 0))
  }

  /** This holds in every state of every run, also of one that never ends, until the program is over or has
      derailed before. */
  lemma EveryState(p: Stmt, m: State, n: nat)
    requires Fresh(p, m)
    ensures var x := Steps(Program(p), m, n);
            && (Flow(p, m.store, 0, n + 1).Ended? ==> ChainKept(p, m, x))
            && (ChainKept(p, m, x) ||
                exists k: nat :: k < n && Within(p, 0, m, Steps(Program(p), m, k)) && Derails(p, 0, m, Steps(Program(p), m, k)))
  {
    hide Steps, Flow, Proper, Room, Derails;
    var code := Program(p);
    var k := FreshSim(p, m, n + 1);
    var x := Steps(code, m, n);
    NothingToLeave(p, m.store, 0, n + 1);
    if n < k {
      assert Inside(p, 0, m, x);
    } else if Flow(p, m.store, 0, n + 1).Ended? {
      StaysAfter(code, m, k, n);
    } else if k == n {
      assert ChainKept(p, m, x);
    } else {
      assert k < n && Within(p, 0, m, Steps(code, m, k)) && Derails(p, 0, m, Steps(code, m, k));
    }
  }

  /** A run that has stopped has stopped as the meaning says. */
  lemma StoppedAs(p: Stmt, m: State, n: nat)
    requires Fresh(p, m) && Clean(p, m.store, false, n + 1)
    requires Stopped(Program(p), Steps(Program(p), m, n))
    ensures var r := Exec(p, m.store, n + 1); !r.Timeout? && EndsAs(p, m, r, Steps(Program(p), m, n))
  {
    hide Steps, Flow, Exec, Clean, Room, Program, Stopped;
    CleanAgrees(p, m.store, 0, false, n + 1);
    if Late(Flow(p, m.store, 0, n + 1)) {
      RunsOn(p, m, n);
    }
    var k := ProgramCorrect(p, m, n + 1);
    if k < n {
      assert Steps(Program(p), m, n) == Steps(Program(p), m, k);
    } else {
      StaysAfter(Program(p), m, n, k);
    }
  }

  // ---- try blocks at any depth ----

  /** The body of a try block has ended, in whatever way. */
  predicate BodyOver(s: Stmt, m: State, fuel: nat)
    requires s.TryFinally? || s.TryExcept?
  {
    var e := Flow(s.body, m.store, m.no, fuel);
    e.Ended? && (e.r.Normal? || e.r.Left? || e.r.Raised?)
  }

  /** A finally body runs exactly once: on the way from the beginning of its block to the block's end, at
      any nesting depth and for any bodies, the beginning of the finally body is passed exactly
      once if the try body ends, and never otherwise. */
  lemma FinallyOnce(code: seq<Instr>, s: Stmt, at: int, exit: int, m: State, inTry: bool, fuel: nat)
      returns (n: nat, k: nat)
    requires s.TryFinally? && CodeAt(code, at, Compile(s, at, exit)) && Ready(s, at, m, inTry)
    requires Flow(s, m.store, m.no, fuel).Ended?
    ensures Runs(code, s, at, exit, m, fuel, n)
    ensures if BodyOver(s, m, fuel) then
              && k < n && Steps(code, m, k).pc == HandlerOf(s, at)
              && Never(code, m, k, HandlerOf(s, at)) && Never(code, Steps(code, m, k + 1), n - k - 1, HandlerOf(s, at))
            else Never(code, m, n, HandlerOf(s, at))
  {
    hide Through, Steps, Inside, CodeAt, Compile, Kept, Never, Below;
    FinallyLayout(code, s, at, exit);
    k := SimBody(code, s, at, m, inTry, fuel);
    BelowNever(code, m, k, HandlerOf(s, at));
    n := k;
    if BodyOver(s, m, fuel) {
      var x := Steps(code, m, k);
      InsideAt(s, at, m, x);
      OneStep(code, x, s, at, m);
      EnterFin(code, s, at, exit, m, x);
      Glue(code, m, k, 1, s, at, m);
      NextStep(code, m, k);
      var n2 := SimFin(code, s, at, exit, m, Step(code, x), inTry, fuel);
      Glue(code, m, k + 1, n2, s, at, m);
      n := k + 1 + n2;
    }
  }

  /** On entry to a handler body, and to a finally body for an exception, the stack pointer, the frame and
      the handler chain are those from before the try block, at any nesting depth. */
  lemma HandlerEntry(code: seq<Instr>, s: Stmt, at: int, exit: int, m: State, inTry: bool, fuel: nat) returns (n: nat)
    requires s.TryFinally? || s.TryExcept?
    requires CodeAt(code, at, Compile(s, at, exit)) && Ready(s, at, m, inTry)
    requires var e := Flow(s.body, m.store, m.no, fuel);
             && e.Ended? && e.r.Raised?
             && (s.TryExcept? ==> Accepts(s.filter(e.r.s, e.r.no).1))
    ensures Restored(m, Steps(code, m, n), HandlerOf(s, at) + 1)
    ensures Steps(code, m, n).no == Flow(s.body, m.store, m.no, fuel).r.no
  {
    hide Through, Inside, Kept, CodeAt, Compile, Flow, Steps, Proper, Never;
    if s.TryFinally? {
      FinallyLayout(code, s, at, exit);
    } else {
      ExceptLayout(code, s, at, exit);
    }
    var k := SimBody(code, s, at, m, inTry, fuel);
    NextStep(code, m, k);
    n := k + 1;
  }

  /** What the result of a filter does, at any nesting depth. 0: the exception goes on to the next outer handler,
      or is unhandled, with the store that the filter left, and the handler body is not entered. -1: the machine
      stops. Anything else: the handler body is entered with the stack, the frame and the handler chain from before the
      try block. */
  lemma FilterDecides(code: seq<Instr>, s: Stmt, at: int, exit: int, m: State, inTry: bool, fuel: nat) returns (n: nat)
    requires s.TryExcept? && CodeAt(code, at, Compile(s, at, exit)) && Ready(s, at, m, inTry)
    requires Flow(s.body, m.store, m.no, fuel).Ended? && Flow(s.body, m.store, m.no, fuel).r.Raised?
    ensures var r, x := Flow(s.body, m.store, m.no, fuel).r, Steps(code, m, n);
            var (st, verdict) := s.filter(r.s, r.no);
            && Never(code, m, n, HandlerOf(s, at) + 1)
            && if verdict == 0 then Caught(m, x, r.no) && x.store == st
               else if verdict == -1 then x.status == Wrong
               else Restored(m, x, HandlerOf(s, at) + 1) && x.no == r.no && x.store == st
  {
    hide Through, Inside, CodeAt, Compile, Flow, Steps, Proper, Never, Below;
    ExceptLayout(code, s, at, exit);
    var k := SimBody(code, s, at, m, inTry, fuel);
    var x := Steps(code, m, k);
    BelowNever(code, m, k, HandlerOf(s, at));
    NeverOne(code, x, HandlerOf(s, at) + 1);
    NeverGlue(code, m, k, 1, HandlerOf(s, at) + 1);
    NextStep(code, m, k);
    n := k + 1;
    RethrowCaught(m, LoadRegs(x).(store := s.filter(x.store, x.no).0));
  }

  /** A filter that answers 0 passes the exception on: of two nested handlers the outer one runs, with what the inner
      filter and its own left in the store. */
  lemma PassesOn(code: seq<Instr>, s: Stmt, at: int, exit: int, m: State, inTry: bool, fuel: nat) returns (n: nat)
    requires s.TryExcept? && s.body.TryExcept? && CodeAt(code, at, Compile(s, at, exit)) && Ready(s, at, m, inTry)
    requires Flow(s.body.body, m.store, m.no, fuel).Ended? && Flow(s.body.body, m.store, m.no, fuel).r.Raised?
    requires var r := Flow(s.body.body, m.store, m.no, fuel).r;
             s.body.filter(r.s, r.no).1 == 0 && s.filter(s.body.filter(r.s, r.no).0, r.no).1 !in {0, -1}
    ensures var r, x := Flow(s.body.body, m.store, m.no, fuel).r, Steps(code, m, n);
            && Restored(m, x, HandlerOf(s, at) + 1) && x.no == r.no
            && x.store == s.filter(s.body.filter(r.s, r.no).0, r.no).0
  {
    hide CodeAt, Compile, Steps, Proper, Never, Room;
    n := FilterDecides(code, s, at, exit, m, inTry, fuel);
  }

  /** A finally body that its try block reaches without an exception is entered with the stack, the frame and
      the chain of the block's beginning if and only if no exception number is set there. Otherwise
      the stack pointer is a word too high, and the frame pointer is whatever that word was. */
  lemma FinallyEntry(code: seq<Instr>, s: Stmt, at: int, exit: int, m: State, inTry: bool, fuel: nat) returns (n: nat)
    requires s.TryFinally? && CodeAt(code, at, Compile(s, at, exit)) && Ready(s, at, m, inTry)
    requires BodyOver(s, m, fuel) && !Flow(s.body, m.store, m.no, fuel).r.Raised?
    ensures var e, y := Flow(s.body, m.store, m.no, fuel), Steps(code, m, n);
            && y.status == Running && y.pc == HandlerOf(s, at) + 1 && y.no == e.no && y.store == e.r.s
            && y.head == m.head && Kept(m.mem, y.mem, m.esp)
            && (Restored(m, y, HandlerOf(s, at) + 1) <==> e.no == 0)
            && (e.no != 0 ==> y.esp == m.esp + WORD && y.ebp == Read(m.mem, m.esp))
  {
    hide Through, Inside, CodeAt, Compile, Flow, Steps, Proper, Never, Kept;
    FinallyLayout(code, s, at, exit);
    var k := SimBody(code, s, at, m, inTry, fuel);
    NextStep(code, m, k);
    StepIn(code, s, at, exit, m, Steps(code, m, k));
    n := k + 1;
  }

  lemma StepIn(code: seq<Instr>, s: Stmt, at: int, exit: int, m: State, x: State)
    requires s.TryFinally? && CodeAt(code, at, Compile(s, at, exit))
    requires Restored(m, x, HandlerOf(s, at)) && Kept(m.mem, x.mem, m.esp)
    ensures var y := Step(code, x);
            && y.status == Running && y.pc == HandlerOf(s, at) + 1 && y.no == x.no && y.store == x.store
            && y.head == m.head && y.mem == x.mem
            && (Restored(m, y, HandlerOf(s, at) + 1) <==> x.no == 0)
            && (x.no != 0 ==> y.esp == m.esp + WORD && y.ebp == Read(m.mem, m.esp))
  {
    hide CodeAt, Compile;
    FinallyLayout(code, s, at, exit);
  }

  /** How a try/finally begun in `m`, whose finally body was entered with the stack pointer a word too high and
      ends as `e`, ends itself: if the number is still set at the end of the finally body, the exception that
      was being handled is thrown again from the state of the block's beginning; if not, the code goes on after
      the block with the stack pointer a word too high; and an exception of the finally body
      itself arrives where it should. */
  ghost predicate MistakenAs(s: Stmt, at: int, m: State, e: End, z: State) {
    match e
    case Derailed => z.status == Running && z.no != 0
    case Ended(r, no) =>
      match r
      case Normal(st) =>
        && z.store == st
        && if no != 0 then Caught(m, z, no)
           else
             && z.status == Running && z.pc == at + Len(s) && z.no == 0 && z.head == m.head
             && z.esp == m.esp + WORD && z.ebp == Read(m.mem, m.esp)
      case Raised(n, st) => Caught(m, z, n) && z.store == st
      case Resumed => z.status == Wrong
      case Left(_) => false
      case Timeout => true
  }

  /** So it is for every finally body, where the block does not begin right at a handler record. */
  lemma MistakenEnd(code: seq<Instr>, s: Stmt, at: int, exit: int, m: State, inTry: bool, fuel: nat) returns (n: nat)
    requires s.TryFinally? && CodeAt(code, at, Compile(s, at, exit)) && Ready(s, at, m, inTry)
    requires m.head == 0 || m.head >= m.esp + WORD
    requires BodyOver(s, m, fuel) && !Flow(s.body, m.store, m.no, fuel).r.Raised?
    requires Flow(s.body, m.store, m.no, fuel).no != 0
    ensures var e := Flow(s.body, m.store, m.no, fuel);
            MistakenAs(s, at, m, Flow(s.fin, e.r.s, e.no, fuel), Steps(code, m, n))
  {
    hide Through, Inside, CodeAt, Compile, Flow, Steps, Never, Chain, OpenAt, FinallyAt;
    FinallyLayout(code, s, at, exit);
    var k := FinallyEntry(code, s, at, exit, m, inTry, fuel);
    var y := Steps(code, m, k);
    NothingToLeave(s.fin, y.store, y.no, fuel);
    var j := Sim(code, s.fin, HandlerOf(s, at) + 1, exit, y, false, fuel);
    StepsAdd(code, m, k, j);
    n := k + j;
    if Goes(Flow(s.fin, y.store, y.no, fuel)) {
      NextStep(code, m, k + j);
      n := n + 1;
    }
  }

  /** Nothing in the statement writes to the stack. */
  predicate Still(s: Stmt) {
    match s
    case Skip => true
    case Act(_, ws) => ws == []
    case Seq(s1, s2) => Still(s1) && Still(s2)
    case If(_, a, b) => Still(a) && Still(b)
    case While(_, b) => Still(b)
    case Raise(_) => true
    case _ => false
  }

  /** How such a statement ends, from any state. */
  ghost predicate StillEnds(s: Stmt, at: int, m: State, e: End, z: State) {
    && e.Ended?
    && match e.r
       case Normal(st) => z == m.(pc := at + Len(s), store := st) && e.no == m.no
       case Raised(n, st) => Caught(m, z, n) && z.store == st && z.mem == m.mem
       case Timeout => true
       case _ => false
  }

  lemma {:induction false} StillRuns(code: seq<Instr>, s: Stmt, at: int, exit: int, m: State, fuel: nat)
      returns (n: nat)
    requires CodeAt(code, at, Compile(s, at, exit)) && Still(s) && Proper(s, false)
    requires m.status == Running && m.pc == at
    ensures StillEnds(s, at, m, Flow(s, m.store, m.no, fuel), Steps(code, m, n))
    decreases fuel, s, 1
  {
    hide CodeAt, Compile, Steps;
    match s
    case Seq(s1, s2) =>
      SeqLayout(code, s, at, exit);
      n := StillRuns(code, s1, at, exit, m, fuel);
      var m1 := Steps(code, m, n);
      if Goes(Flow(s1, m.store, m.no, fuel)) {
        var k := StillRuns(code, s2, at + Len(s1), exit, m1, fuel);
        StepsAdd(code, m, n, k);
        n := n + k;
      }
    case If(c, a, b) =>
      n := StillIf(code, s, at, exit, m, fuel);
    case While(c, b) =>
      n := StillWhile(code, s, at, exit, m, fuel);
    case _ =>
      n := StillSimple(code, s, at, exit, m, fuel);
  }

  lemma {:induction false} StillSimple(code: seq<Instr>, s: Stmt, at: int, exit: int, m: State, fuel: nat)
      returns (n: nat)
    requires CodeAt(code, at, Compile(s, at, exit)) && Still(s) && Proper(s, false) && (s.Skip? || s.Act? || s.Raise?)
    requires m.status == Running && m.pc == at
    ensures StillEnds(s, at, m, Flow(s, m.store, m.no, fuel), Steps(code, m, n))
  {
    hide CodeAt;
    if s.Skip? {
      n := 0;
    } else {
      CodeOne(code, at, Compile(s, at, exit)[0]);
      assert Steps(code, m, 1) == Step(code, m);
      n := 1;
    }
  }

  lemma {:induction false} StillIf(code: seq<Instr>, s: Stmt, at: int, exit: int, m: State, fuel: nat)
      returns (n: nat)
    requires CodeAt(code, at, Compile(s, at, exit)) && Still(s) && Proper(s, false) && s.If?
    requires m.status == Running && m.pc == at
    ensures StillEnds(s, at, m, Flow(s, m.store, m.no, fuel), Steps(code, m, n))
    decreases fuel, s, 0
  {
    hide CodeAt, Compile, Steps;
    var If(c, a, b) := s;
    IfLayout(code, s, at, exit);
    NextStep(code, m, 0);
    var m1 := Steps(code, m, 1);
    if c(m.store) {
      var k := StillRuns(code, a, at + 1, exit, m1, fuel);
      StepsAdd(code, m, 1, k);
      n := 1 + k;
      if Goes(Flow(a, m1.store, m1.no, fuel)) {
        NextStep(code, m, n);
        n := n + 1;
      }
    } else {
      var k := StillRuns(code, b, at + 1 + Len(a) + 1, exit, m1, fuel);
      StepsAdd(code, m, 1, k);
      n := 1 + k;
    }
  }

  lemma {:induction false} StillWhile(code: seq<Instr>, s: Stmt, at: int, exit: int, m: State, fuel: nat)
      returns (n: nat)
    requires CodeAt(code, at, Compile(s, at, exit)) && Still(s) && Proper(s, false) && s.While?
    requires m.status == Running && m.pc == at
    ensures StillEnds(s, at, m, Flow(s, m.store, m.no, fuel), Steps(code, m, n))
    decreases fuel, s, 0
  {
    hide CodeAt, Compile, Steps;
    var While(c, b) := s;
    n := 0;
    if fuel > 0 {
      LoopLayout(code, s, at, exit);
      NextStep(code, m, 0);
      var m1 := Steps(code, m, 1);
      n := 1;
      if c(m.store) {
        var k := StillRuns(code, b, at + 1, exit, m1, fuel);
        StepsAdd(code, m, 1, k);
        n := 1 + k;
        if Goes(Flow(b, m1.store, m1.no, fuel)) {
          NextStep(code, m, n);
          var m2 := Steps(code, m, n + 1);
          var j := StillRuns(code, s, at, exit, m2, fuel - 1);
          StepsAdd(code, m, n + 1, j);
          n := n + 1 + j;
        }
      }
    }
  }

  /** So it is also where the block begins right at a handler record, whose link the entry takes for the frame
      pointer, if the finally body writes nothing to the stack: the handled exception is thrown again. */
  lemma MistakenStill(code: seq<Instr>, s: Stmt, at: int, exit: int, m: State, inTry: bool, fuel: nat) returns (n: nat)
    requires s.TryFinally? && CodeAt(code, at, Compile(s, at, exit)) && Ready(s, at, m, inTry) && Still(s.fin)
    requires BodyOver(s, m, fuel) && !Flow(s.body, m.store, m.no, fuel).r.Raised?
    requires Flow(s.body, m.store, m.no, fuel).no != 0
    ensures var e := Flow(s.body, m.store, m.no, fuel);
            MistakenAs(s, at, m, Flow(s.fin, e.r.s, e.no, fuel), Steps(code, m, n))
  {
    hide Through, Inside, CodeAt, Compile, Flow, Steps, Never;
    FinallyLayout(code, s, at, exit);
    var k := FinallyEntry(code, s, at, exit, m, inTry, fuel);
    var y := Steps(code, m, k);
    var j := StillRuns(code, s.fin, HandlerOf(s, at) + 1, exit, y, fuel);
    StepsAdd(code, m, k, j);
    n := k + j;
    if Goes(Flow(s.fin, y.store, y.no, fuel)) {
      NextStep(code, m, k + j);
      n := n + 1;
    }
  }

  /** A finally body that runs for an exception and ends normally gives the exception on, as the meaning
      asks, if and only if it completes no handler; if it completes one, the exception is lost and the
      code goes on after the block as if nothing had been raised. */
  lemma LostExactly(code: seq<Instr>, s: Stmt, at: int, exit: int, m: State, inTry: bool, fuel: nat) returns (n: nat)
    requires s.TryFinally? && CodeAt(code, at, Compile(s, at, exit)) && Ready(s, at, m, inTry)
    requires Clean(s.body, m.store, m.no != 0, fuel) && Exec(s.body, m.store, fuel).Raised?
    requires var r := Exec(s.body, m.store, fuel); Clean(s.fin, r.s, true, fuel) && Exec(s.fin, r.s, fuel).Normal?
    ensures var r, x := Exec(s.body, m.store, fuel), Steps(code, m, n);
            var st := Exec(s.fin, r.s, fuel).s;
            && Exec(s, m.store, fuel) == Raised(r.no, st) && x.store == st
            && if Handles(s.fin, r.s, fuel) then Restored(m, x, at + Len(s)) && x.no == 0 else Caught(m, x, r.no)
  {
    hide Steps, CodeAt, Compile, Through, Kept, Clean, Handles;
    var r := Exec(s.body, m.store, fuel);
    CleanAgrees(s.body, m.store, m.no, true, fuel);
    RaisedSet(s.body, m.store, m.no, true, fuel);
    CleanAgrees(s.fin, r.s, r.no, false, fuel);
    n := Sim(code, s, at, exit, m, inTry, fuel);
  }

  /** Neither kexcept_throw nor kexcept_rethrow goes on without an exception number. */
  lemma ZeroStops(code: seq<Instr>, m: State, n: nat)
    requires m.status == Running && 0 <= m.pc < |code| && n > 0
    requires code[m.pc] == IThrow(0) || (code[m.pc] == IFinallyEnd && m.no != 0 && m.head == 0)
    ensures Steps(code, m, n).status == (if code[m.pc] == IThrow(0) then Wrong else Unhandled)
    ensures Rethrow(m.(no := 0)).status == Wrong
  {
    assert Steps(code, m, 1) == Step(code, m);
    StaysAfter(code, m, 1, n);
  }

  // ---- programs that are not clean ----

  function AcceptAll(st: Store, no: nat): (Store, int) {
    (st, 1)
  }

  /** A finally body that itself catches an exception clears the number of the one it interrupts. */
  const CatchInFinally: Stmt := TryFinally(Raise(1), TryExcept(Raise(2), AcceptAll, Skip))

  lemma InnerCatch(st: Store, no: nat)
    ensures var inner := TryExcept(Raise(2), AcceptAll, Skip);
            Exec(inner, st, 0) == Normal(st) && Flow(inner, st, no, 0) == Ended(Normal(st), 0)
  {
    assert Exec(Raise(2), st, 0) == Raised(2, st) && Flow(Raise(2), st, no, 0) == Ended(Raised(2, st), 2);
    assert AcceptAll(st, 2) == (st, 1);
    assert Exec(Skip, st, 0) == Normal(st) && Flow(Skip, st, 2, 0) == Ended(Normal(st), 2);
  }

  lemma CatchMeaning(st: Store)
    ensures Exec(CatchInFinally, st, 0) == Raised(1, st) && Flow(CatchInFinally, st, 0, 0) == Ended(Normal(st), 0)
  {
    InnerCatch(st, 1);
    assert Exec(Raise(1), st, 0) == Raised(1, st) && Flow(Raise(1), st, 0, 0) == Ended(Raised(1, st), 1);
  }

  /** By its meaning the program ends with exception 1; its code ends as if nothing had been raised. */
  lemma CatchInFinallyLoses(m: State) returns (n: nat)
    requires Fresh(CatchInFinally, m)
    ensures Exec(CatchInFinally, m.store, 0) == Raised(1, m.store)
    ensures Restored(m, Steps(Program(CatchInFinally), m, n), |Program(CatchInFinally)|)
  {
    hide Steps, Program, Flow, Exec;
    CatchMeaning(m.store);
    n := FlowCorrect(CatchInFinally, m, 0);
  }

  /** The same finally body is harmless where it does not run for an exception. */
  lemma CatchInFinallyClean(m: State) returns (n: nat)
    requires Fresh(TryFinally(Skip, CatchInFinally.fin), m)
    ensures Clean(TryFinally(Skip, CatchInFinally.fin), m.store, false, 0)
    ensures EndsAs(TryFinally(Skip, CatchInFinally.fin), m, Normal(m.store),
                   Steps(Program(TryFinally(Skip, CatchInFinally.fin)), m, n))
  {
    hide Steps, Program;
    var p := TryFinally(Skip, CatchInFinally.fin);
    assert Exec(CatchInFinally.fin, m.store, 0) == Normal(m.store) && Clean(CatchInFinally.fin, m.store, false, 0);
    assert Exec(p, m.store, 0) == Normal(m.store);
    n := ProgramCorrect(p, m, 0);
  }

  /** A finally block inside a handler takes the handled exception for one of its own. */
  const FinallyInHandler: Stmt := TryExcept(Raise(1), AcceptAll, TryFinally(Skip, Skip))

  /** So does one inside a finally body that runs for an exception; what follows it there is skipped. */
  function FinallyInFinally(mark: Store -> Store): Stmt {
    TryFinally(Raise(1), Seq(TryFinally(Skip, Skip), Act(mark, [])))
  }

  lemma InnerMeaning(st: Store)
    ensures Exec(TryFinally(Skip, Skip), st, 0) == Normal(st) && Flow(TryFinally(Skip, Skip), st, 1, 0) == Derailed
  {
  }

  lemma InHandlerMeaning(st: Store)
    ensures Exec(FinallyInHandler, st, 0) == Normal(st) && Flow(FinallyInHandler, st, 0, 0) == Derailed
  {
    InnerMeaning(st);
  }

  lemma InFinallyMeaning(st: Store, mark: Store -> Store)
    ensures Exec(FinallyInFinally(mark), st, 0) == Raised(1, mark(st)) && Flow(FinallyInFinally(mark), st, 0, 0) == Derailed
  {
    InnerMeaning(st);
    var f := Seq(TryFinally(Skip, Skip), Act(mark, []));
    assert Exec(f, st, 0) == Normal(mark(st)) && Flow(f, st, 1, 0) == Derailed;
  }

  lemma StepAt(code: seq<Instr>, m: State, i: Instr)
    requires m.status == Running && 0 <= m.pc < |code| && code[m.pc] == i
    ensures Step(code, m) == StepInstr(i, m)
  {
  }

  /** A try block that begins by raising `no`, with no handler around it. */
  lemma RaiseInTry(code: seq<Instr>, m: State, handler: int, no: nat) returns (m2: State)
    requires m.status == Running && m.head == 0 && m.esp > 12 && no != 0
    requires 0 <= m.pc < |code| - 1 && code[m.pc] == ITryBegin(handler) && code[m.pc + 1] == IThrow(no)
    ensures m2 == Step(code, Step(code, m)) && m2.store == m.store
    ensures m2.pc == handler && m2.no == no && m2.head == 0 && m2.status == Running && m2.esp == m.esp - 4
  {
    var m1 := Step(code, m);
    assert m1.head == m.esp - 12 && Read(m1.mem, m1.head) == 0 && Read(m1.mem, m1.head + 4) == handler;
    m2 := Step(code, m1);
  }

  /** Two steps at a time. */
  lemma Even(code: seq<Instr>, m: State, m2: State, m4: State, m6: State)
    requires m2 == Step(code, Step(code, m)) && m4 == Step(code, Step(code, m2)) && m6 == Step(code, Step(code, m4))
    ensures Steps(code, m, 7) == Step(code, m6)
  {
    assert Steps(code, m6, 1) == Step(code, m6);
    assert Steps(code, m4, 3) == Steps(code, m6, 1);
    assert Steps(code, m2, 5) == Steps(code, m4, 3);
    assert Steps(code, m, 7) == Steps(code, m2, 5);
  }

  lemma FinallyInHandlerCode()
    ensures Program(FinallyInHandler) ==
            [ITryBegin(4), IThrow(1), ITryEnd, IJump(10), IExceptBegin(AcceptAll),
             ITryBegin(7), ITryEnd, IFinallyBegin, IFinallyEnd, IExceptEnd]
  {
    var inner := TryFinally(Skip, Skip);
    assert Len(Raise(1)) == 1 && Len(Skip) == 0 && Len(inner) == 4;
    assert HandlerOf(inner, 5) == 7 && HandlerOf(FinallyInHandler, 0) == 4;
    assert Compile(Raise(1), 1, 3) == [IThrow(1)] && Compile(Skip, 6, 7) == [] && Compile(Skip, 8, 0) == [];
    assert Compile(inner, 5, 0) == [ITryBegin(7), ITryEnd, IFinallyBegin, IFinallyEnd];
  }

  lemma FinallyInFinallyCode(mark: Store -> Store)
    ensures Program(FinallyInFinally(mark)) ==
            [ITryBegin(3), IThrow(1), ITryEnd, IFinallyBegin,
             ITryBegin(6), ITryEnd, IFinallyBegin, IFinallyEnd, IAct(mark, []), IFinallyEnd]
  {
    var inner := TryFinally(Skip, Skip);
    var f := Seq(inner, Act(mark, []));
    assert Len(Raise(1)) == 1 && Len(Skip) == 0 && Len(inner) == 4 && Len(f) == 5;
    assert HandlerOf(inner, 4) == 6 && HandlerOf(FinallyInFinally(mark), 0) == 3;
    assert Compile(Raise(1), 1, 3) == [IThrow(1)] && Compile(Skip, 5, 6) == [] && Compile(Skip, 7, 0) == [];
    assert Compile(inner, 4, 0) == [ITryBegin(6), ITryEnd, IFinallyBegin, IFinallyEnd];
    assert Compile(f, 4, 0) == [ITryBegin(6), ITryEnd, IFinallyBegin, IFinallyEnd, IAct(mark, [])];
  }

  /** From a state at an empty try block with a finally part, with a number set and no handler around, to the
      beginning of the finally body. */
  lemma IntoFinally(code: seq<Instr>, m: State, handler: int) returns (m3: State)
    requires m.status == Running && m.head == 0 && m.esp > 12 && m.no != 0 && handler == m.pc + 2
    requires 0 <= m.pc < |code| - 3 && code[m.pc] == ITryBegin(handler) && code[m.pc + 1] == ITryEnd
    requires code[m.pc + 2] == IFinallyBegin
    ensures m3 == Step(code, Step(code, Step(code, m)))
    ensures m3.status == Running && m3.pc == m.pc + 3 && m3.no == m.no && m3.head == 0 && m3.store == m.store
  {
    hide Step;
    StepAt(code, m, ITryBegin(handler));
    var m1 := Step(code, m);
    assert Read(m1.mem, m1.esp) == 0;
    StepAt(code, m1, ITryEnd);
    var m2 := Step(code, m1);
    StepAt(code, m2, IFinallyBegin);
    m3 := Step(code, m2);
  }

  lemma FreshFields(p: Stmt, m: State)
    requires Fresh(p, m) && (p == FinallyInHandler || p == RaiseInFinally || exists mark :: p == FinallyInFinally(mark))
    ensures m.status == Running && m.pc == 0 && m.head == 0 && m.no == 0 && m.esp > 12
  {
  }

  /** By its meaning the program ends normally; its code ends in the unhandled-exception routine. */
  lemma FinallyInHandlerThrows(m: State)
    requires Fresh(FinallyInHandler, m)
    ensures Exec(FinallyInHandler, m.store, 0) == Normal(m.store)
    ensures var m' := Steps(Program(FinallyInHandler), m, 7); m'.status == Unhandled && m'.no == 1
  {
    hide Fresh, Compile, Program, Len, Exec, Flow, Steps, Step, FinallyInHandler;
    FreshFields(FinallyInHandler, m);
    var code := Program(FinallyInHandler);
    FinallyInHandlerCode();
    InHandlerMeaning(m.store);
    var m2 := RaiseInTry(code, m, 4, 1);
    StepAt(code, m2, IExceptBegin(AcceptAll));
    var m3 := Step(code, m2);
    var m6 := IntoFinally(code, m3, 7);
    StepAt(code, m6, IFinallyEnd);
    Even(code, m, m2, Step(code, m3), m6);
  }

  /** By its meaning the program marks the store and ends with exception 1; its code does not mark it. */
  lemma FinallyInFinallySkips(m: State, mark: Store -> Store)
    requires Fresh(FinallyInFinally(mark), m)
    ensures Exec(FinallyInFinally(mark), m.store, 0) == Raised(1, mark(m.store))
    ensures var m' := Steps(Program(FinallyInFinally(mark)), m, 7); m'.status == Unhandled && m'.store == m.store
  {
    hide Fresh, Compile, Program, Len, Exec, Flow, Steps, Step, FinallyInFinally;
    FreshFields(FinallyInFinally(mark), m);
    var code := Program(FinallyInFinally(mark));
    FinallyInFinallyCode(mark);
    InFinallyMeaning(m.store, mark);
    var m2 := RaiseInTry(code, m, 3, 1);
    StepAt(code, m2, IFinallyBegin);
    var m3 := Step(code, m2);
    var m6 := IntoFinally(code, m3, 6);
    StepAt(code, m6, IFinallyEnd);
    Even(code, m, m2, Step(code, m3), m6);
  }

  /** A finally block inside a handler whose finally body raises an exception of its own. */
  const RaiseInFinally: Stmt := TryExcept(Raise(1), AcceptAll, TryFinally(Skip, Raise(2)))

  lemma RaiseInFinallyCode()
    ensures Program(RaiseInFinally) ==
            [ITryBegin(4), IThrow(1), ITryEnd, IJump(11), IExceptBegin(AcceptAll),
             ITryBegin(7), ITryEnd, IFinallyBegin, IThrow(2), IFinallyEnd, IExceptEnd]
  {
    var inner := TryFinally(Skip, Raise(2));
    assert Len(Raise(1)) == 1 && Len(Raise(2)) == 1 && Len(Skip) == 0 && Len(inner) == 5;
    assert HandlerOf(inner, 5) == 7 && HandlerOf(RaiseInFinally, 0) == 4;
    assert Compile(Raise(1), 1, 3) == [IThrow(1)] && Compile(Skip, 6, 7) == [] && Compile(Raise(2), 8, 0) == [IThrow(2)];
    assert Compile(inner, 5, 0) == [ITryBegin(7), ITryEnd, IFinallyBegin, IThrow(2), IFinallyEnd];
  }

  lemma RaiseInFinallyMeaning(st: Store)
    ensures Exec(RaiseInFinally, st, 0) == Raised(2, st) && !Clean(RaiseInFinally, st, false, 0)
  {
    var inner := TryFinally(Skip, Raise(2));
    assert Exec(inner, st, 0) == Raised(2, st) && !Clean(inner, st, true, 0);
  }

  /** A program that derails may still end as it should: the exception of the finally body puts the stack
      pointer right again. */
  lemma DerailsYetEnds(m: State)
    requires Fresh(RaiseInFinally, m)
    ensures !Clean(RaiseInFinally, m.store, false, 0)
    ensures EndsAs(RaiseInFinally, m, Exec(RaiseInFinally, m.store, 0), Steps(Program(RaiseInFinally), m, 7))
  {
    hide Fresh, Compile, Program, Len, Exec, Flow, Clean, Steps, Step, RaiseInFinally;
    FreshFields(RaiseInFinally, m);
    var code := Program(RaiseInFinally);
    RaiseInFinallyCode();
    RaiseInFinallyMeaning(m.store);
    var m2 := RaiseInTry(code, m, 4, 1);
    StepAt(code, m2, IExceptBegin(AcceptAll));
    var m3 := Step(code, m2);
    var m6 := IntoFinally(code, m3, 7);
    StepAt(code, m6, IThrow(2));
    Even(code, m, m2, Step(code, m3), m6);
  }
}

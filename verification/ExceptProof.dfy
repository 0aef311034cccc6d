/** The compiled code does what the structured program means. */
module ExceptProof {
  import opened ExceptLang
  import opened ExceptMachine

  // ---- code layout ----

  lemma CodeSplit(code: seq<Instr>, at: int, p: seq<Instr>, q: seq<Instr>)
    requires CodeAt(code, at, p + q)
    ensures CodeAt(code, at, p) && CodeAt(code, at + |p|, q)
  {
    assert code[at..at + |p|] == code[at..at + |p + q|][..|p|];
    assert code[at + |p|..at + |p| + |q|] == code[at..at + |p + q|][|p|..];
  }

  lemma CodeOne(code: seq<Instr>, at: int, i: Instr)
    requires CodeAt(code, at, [i])
    ensures 0 <= at < |code| && code[at] == i
  {
    assert code[at..at + 1][0] == i;
  }

  /** An instruction, a piece, and an instruction. */
  lemma CodeBracket(code: seq<Instr>, at: int, i: Instr, p: seq<Instr>, j: Instr)
    requires CodeAt(code, at, [i] + p + [j])
    ensures 0 <= at < |code| && code[at] == i
    ensures CodeAt(code, at + 1, p)
    ensures at + 1 + |p| < |code| && code[at + 1 + |p|] == j
  {
    CodeSplit(code, at, [i] + p, [j]);
    CodeSplit(code, at, [i], p);
    CodeOne(code, at, i);
    CodeOne(code, at + 1 + |p|, j);
  }

  // ---- states along a run ----

  /** Memory from the address `floor` on is the same. */
  ghost predicate Kept(a: Memory, b: Memory, floor: int) {
    forall x :: x >= floor ==> Read(b, x) == Read(a, x)
  }

  /** A handler record on the stack: where it is, the handler's label and the saved EBP in it. */
  datatype Record = Record(addr: int, handler: int, ebp: int)

  /** The records of the try blocks of `s` that are open at the address `pc` inside its code, the
      innermost first, where `s` was begun with the given stack and frame pointers. */
  function OpenAt(s: Stmt, at: int, pc: int, esp: int, ebp: int): seq<Record> {
    if !(at <= pc < at + Len(s)) then []
    else
      match s
      case Seq(s1, s2) =>
        if pc < at + Len(s1) then OpenAt(s1, at, pc, esp, ebp) else OpenAt(s2, at + Len(s1), pc, esp, ebp)
      case If(_, a, b) =>
        if pc < at + 1 + Len(a) then OpenAt(a, at + 1, pc, esp, ebp)
        else OpenAt(b, at + 1 + Len(a) + 1, pc, esp, ebp)
      case While(_, b) => OpenAt(b, at + 1, pc, esp, ebp)
      case Frame(w, b) => OpenAt(b, at + 1, pc, esp - WORD - WORD * w, esp - WORD)
      case TryFinally(b, f) =>
        if at < pc <= at + 1 + Len(b) then OpenAt(b, at + 1, pc, esp - 3 * WORD, ebp) + [RecordOf(s, at, esp, ebp)]
        else OpenAt(f, HandlerOf(s, at) + 1, pc, esp, ebp)
      case TryExcept(b, _, h) =>
        if at < pc <= at + 1 + Len(b) then OpenAt(b, at + 1, pc, esp - 3 * WORD, ebp) + [RecordOf(s, at, esp, ebp)]
        else OpenAt(h, HandlerOf(s, at) + 1, pc, esp, ebp)
      case _ => []
  }

  function RecordOf(s: Stmt, at: int, esp: int, ebp: int): Record
    requires s.TryFinally? || s.TryExcept?
  {
    Record(esp - 3 * WORD, HandlerOf(s, at), ebp)
  }

  /** The chain in memory from `head` on is exactly these records, at ascending addresses, and then
      comes to `stop`. */
  ghost predicate Chain(mem: Memory, head: int, records: seq<Record>, stop: int)
    decreases records
  {
    if records == [] then head == stop
    else
      && head == records[0].addr > 0
      && Read(mem, head + WORD) == records[0].handler && Read(mem, head + 2 * WORD) == records[0].ebp
      && (Read(mem, head) == 0 || Read(mem, head) > head)
      && Chain(mem, Read(mem, head), records[1..], stop)
  }

  /** The stack and frame pointers with which a finally block began. */
  datatype Site = NoSite | Site(esp: int, ebp: int)

  /** Those of the finally block of `s` whose label is `pc`, if there is one, where `s` was begun with the
      given stack and frame pointers. */
  function FinallyAt(s: Stmt, at: int, pc: int, esp: int, ebp: int): Site {
    if !(at <= pc < at + Len(s)) then NoSite
    else
      match s
      case Seq(s1, s2) =>
        if pc < at + Len(s1) then FinallyAt(s1, at, pc, esp, ebp) else FinallyAt(s2, at + Len(s1), pc, esp, ebp)
      case If(_, a, b) =>
        if pc < at + 1 + Len(a) then FinallyAt(a, at + 1, pc, esp, ebp)
        else FinallyAt(b, at + 1 + Len(a) + 1, pc, esp, ebp)
      case While(_, b) => FinallyAt(b, at + 1, pc, esp, ebp)
      case Frame(w, b) => FinallyAt(b, at + 1, pc, esp - WORD - WORD * w, esp - WORD)
      case TryFinally(b, f) =>
        if pc == HandlerOf(s, at) then Site(esp, ebp)
        else if at < pc <= at + 1 + Len(b) then FinallyAt(b, at + 1, pc, esp - 3 * WORD, ebp)
        else FinallyAt(f, HandlerOf(s, at) + 1, pc, esp, ebp)
      case TryExcept(b, _, h) =>
        if at < pc <= at + 1 + Len(b) then FinallyAt(b, at + 1, pc, esp - 3 * WORD, ebp)
        else FinallyAt(h, HandlerOf(s, at) + 1, pc, esp, ebp)
      case _ => NoSite
  }

  /** `x` is at the label of a finally block of `s`, with the stack and frame pointers with which that block
      began, so not thrown there, and with an exception number set. */
  ghost predicate Derails(s: Stmt, at: int, base: State, x: State) {
    x.no != 0 && FinallyAt(s, at, x.pc, base.esp, base.ebp) == Site(x.esp, x.ebp)
  }

  /** `x` is at some point of the code of `s`, begun in the state `base`, with the handler records of
      that point. */
  ghost predicate Within(s: Stmt, at: int, base: State, x: State) {
    && x.status == Running && at <= x.pc < at + Len(s)
    && Kept(base.mem, x.mem, base.esp)
    && Chain(x.mem, x.head, OpenAt(s, at, x.pc, base.esp, base.ebp), base.head)
  }

  /** `x` is a state of the run of `s`, begun in the state `base`, that has not derailed. */
  ghost predicate Inside(s: Stmt, at: int, base: State, x: State) {
    Within(s, at, base, x) && !Derails(s, at, base, x)
  }

  ghost predicate Through(code: seq<Instr>, m: State, n: nat, s: Stmt, at: int, base: State) {
    forall i :: 0 <= i < n ==> Inside(s, at, base, Steps(code, m, i))
  }

  lemma Glue(code: seq<Instr>, m: State, a: nat, b: nat, s: Stmt, at: int, base: State)
    requires Through(code, m, a, s, at, base) && Through(code, Steps(code, m, a), b, s, at, base)
    ensures Through(code, m, a + b, s, at, base)
    ensures Steps(code, m, a + b) == Steps(code, Steps(code, m, a), b)
  {
    hide Inside, Steps;
    StepsAdd(code, m, a, b);
    forall i | 0 <= i < a + b
      ensures Inside(s, at, base, Steps(code, m, i))
    {
      if i >= a {
        StepsAdd(code, m, a, i - a);
      }
    }
  }

  lemma OneStep(code: seq<Instr>, m: State, s: Stmt, at: int, base: State)
    requires Inside(s, at, base, m)
    ensures Through(code, m, 1, s, at, base) && Steps(code, m, 1) == Step(code, m)
  {
    assert Steps(code, m, 0) == m;
  }

  // ---- what a run ends with ----

  /** Bytes of stack that the records and frames of `s` take. */
  function Room(s: Stmt): nat {
    match s
    case Seq(s1, s2) => if Room(s1) < Room(s2) then Room(s2) else Room(s1)
    case If(_, a, b) => if Room(a) < Room(b) then Room(b) else Room(a)
    case While(_, b) => Room(b)
    case Frame(w, b) => WORD + WORD * w + Room(b)
    case TryFinally(b, f) => 3 * WORD + if Room(b) < Room(f) then Room(f) else Room(b)
    case TryExcept(b, _, h) => 3 * WORD + if Room(b) < Room(h) then Room(h) else Room(b)
    case _ => 0
  }

  /** A state in which `s` may begin; the stack pointer is at the innermost record if `s` may leave it. */
  ghost predicate Ready(s: Stmt, at: int, m: State, inTry: bool) {
    && m.status == Running && m.pc == at && m.esp > Room(s)
    && (m.head == 0 || m.head >= m.esp) && (inTry ==> m.head == m.esp)
    && Proper(s, inTry)
  }

  /** `m'` is where a throw of `no` from the state `m` arrives. */
  ghost predicate Caught(m: State, m': State, no: nat) {
    && m'.no == no && no != 0
    && if m.head == 0 then m'.status == Unhandled
       else
         && m'.status == Running && m'.pc == Read(m.mem, m.head + WORD)
         && m'.esp == m.head + 2 * WORD && m'.head == Read(m.mem, m.head)
  }

  /** `m'` is a state at `pc` with the stack pointer, the frame and the handler chain of `m`. */
  ghost predicate Restored(m: State, m': State, pc: int) {
    m'.status == Running && m'.pc == pc && m'.esp == m.esp && m'.ebp == m.ebp && m'.head == m.head
  }

  /** The machine state `m'` is what the end `e` of `s`, begun in `m`, looks like. */
  ghost predicate Ends(s: Stmt, at: int, exit: int, m: State, e: End, m': State) {
    && Kept(m.mem, m'.mem, m.esp)
    && match e
       case Derailed => Within(s, at, m, m') && Derails(s, at, m, m')
       case Ended(r, no) =>
         match r
         case Normal(st) => Restored(m, m', at + Len(s)) && m'.no == no && m'.store == st
         case Left(st) =>
           && m'.status == Running && m'.pc == exit && m'.ebp == m.ebp
           && m'.esp == m.esp + 3 * WORD && m'.head == Read(m.mem, m.esp)
           && m'.no == no && m'.store == st
         case Raised(n, st) => Caught(m, m', n) && m'.store == st
         case Resumed => m'.status == Wrong
         case Timeout => true
  }

  predicate Late(e: End) {
    e.Ended? && e.r.Timeout?
  }

  /** `n` steps from `m` run `s` to its end, through states of its run only. */
  ghost predicate Runs(code: seq<Instr>, s: Stmt, at: int, exit: int, m: State, fuel: nat, n: nat) {
    && Through(code, m, n, s, at, m)
    && Ends(s, at, exit, m, Flow(s, m.store, m.no, fuel), Steps(code, m, n))
    && (Late(Flow(s, m.store, m.no, fuel)) ==> n >= fuel)
  }

  /** The code of `part`, begun in `base'`, is a piece of that of `s`, begun in `base`, with the same open
      handlers and the same finally blocks there. */
  ghost predicate PartOf(part: Stmt, at': int, base': State, s: Stmt, at: int, base: State) {
    && at <= at' && at' + Len(part) <= at + Len(s)
    && (forall pc :: at' <= pc < at' + Len(part) ==>
          OpenAt(s, at, pc, base.esp, base.ebp) == OpenAt(part, at', pc, base'.esp, base'.ebp))
    && (forall pc :: at' <= pc < at' + Len(part) ==>
          FinallyAt(s, at, pc, base.esp, base.ebp) == FinallyAt(part, at', pc, base'.esp, base'.ebp))
    && base.head == base'.head && base.esp >= base'.esp && Kept(base.mem, base'.mem, base.esp)
  }

  /** `part` at `at'` is `s` itself, or a part of it that runs with the stack of `s`. */
  ghost predicate Child(s: Stmt, at: int, part: Stmt, at': int) {
    || (part == s && at' == at)
    || match s
       case Seq(s1, s2) => (part == s1 && at' == at) || (part == s2 && at' == at + Len(s1))
       case If(_, a, b) => (part == a && at' == at + 1) || (part == b && at' == at + 1 + Len(a) + 1)
       case While(_, b) => part == b && at' == at + 1
       case TryFinally(_, f) => part == f && at' == HandlerOf(s, at) + 1
       case TryExcept(_, _, h) => part == h && at' == HandlerOf(s, at) + 1
       case _ => false
  }

  lemma ChildPart(part: Stmt, at': int, m1: State, s: Stmt, at: int, m: State)
    requires Child(s, at, part, at') && Restored(m, m1, m1.pc) && Kept(m.mem, m1.mem, m.esp)
    ensures PartOf(part, at', m1, s, at, m)
  {
    hide OpenAt, FinallyAt, Kept;
    ChildRange(part, at', s, at);
    forall pc | at' <= pc < at' + Len(part)
      ensures OpenAt(s, at, pc, m.esp, m.ebp) == OpenAt(part, at', pc, m1.esp, m1.ebp)
      ensures FinallyAt(s, at, pc, m.esp, m.ebp) == FinallyAt(part, at', pc, m1.esp, m1.ebp)
    {
      ChildOpen(part, at', s, at, pc, m.esp, m.ebp);
      ChildSite(part, at', s, at, pc, m.esp, m.ebp);
    }
  }

  lemma ChildRange(part: Stmt, at': int, s: Stmt, at: int)
    requires Child(s, at, part, at')
    ensures at <= at' && at' + Len(part) <= at + Len(s)
  {
  }

  lemma ChildOpen(part: Stmt, at': int, s: Stmt, at: int, pc: int, esp: int, ebp: int)
    requires Child(s, at, part, at') && at' <= pc < at' + Len(part)
    ensures OpenAt(s, at, pc, esp, ebp) == OpenAt(part, at', pc, esp, ebp)
  {
    ChildRange(part, at', s, at);
  }

  lemma ChildSite(part: Stmt, at': int, s: Stmt, at: int, pc: int, esp: int, ebp: int)
    requires Child(s, at, part, at') && at' <= pc < at' + Len(part)
    ensures FinallyAt(s, at, pc, esp, ebp) == FinallyAt(part, at', pc, esp, ebp)
  {
    ChildRange(part, at', s, at);
  }

  /** A run of a part is a run of the whole. */
  lemma Lift(code: seq<Instr>, m: State, n: nat, part: Stmt, at': int, base': State, s: Stmt, at: int, base: State)
    requires Through(code, m, n, part, at', base') && PartOf(part, at', base', s, at, base)
    ensures Through(code, m, n, s, at, base)
  {
    forall i | 0 <= i < n
      ensures Inside(s, at, base, Steps(code, m, i))
    {
      assert Inside(part, at', base', Steps(code, m, i));
    }
  }

  lemma LiftDerailed(part: Stmt, at': int, base': State, s: Stmt, at: int, base: State, x: State)
    requires PartOf(part, at', base', s, at, base)
    requires Within(part, at', base', x) && Derails(part, at', base', x)
    ensures Within(s, at, base, x) && Derails(s, at, base, x)
  {
  }

  /** What a part of `s` ends with is what `s` ends with, if the parts before it restored the state
      and nothing comes after it. */
  lemma EndsLast(s: Stmt, at: int, exit: int, m: State, part: Stmt, at': int, m1: State, e: End, m': State)
    requires m.head == 0 || m.head >= m.esp
    requires Restored(m, m1, at') && Kept(m.mem, m1.mem, m.esp) && PartOf(part, at', m1, s, at, m)
    requires Goes(e) ==> at' + Len(part) == at + Len(s)
    requires Ends(part, at', exit, m1, e, m')
    ensures Ends(s, at, exit, m, e, m')
  {
    hide PartOf, Within, Derails;
    if e.Derailed? {
      LiftDerailed(part, at', m1, s, at, m, m');
    }
  }

  lemma SeqLayout(code: seq<Instr>, s: Stmt, at: int, exit: int)
    requires s.Seq? && CodeAt(code, at, Compile(s, at, exit))
    ensures CodeAt(code, at, Compile(s.s1, at, exit))
    ensures CodeAt(code, at + Len(s.s1), Compile(s.s2, at + Len(s.s1), exit))
  {
    hide CodeAt;
    CodeSplit(code, at, Compile(s.s1, at, exit), Compile(s.s2, at + Len(s.s1), exit));
  }

  lemma {:induction false} SimSeq(code: seq<Instr>, s: Stmt, at: int, exit: int, m: State, inTry: bool, fuel: nat)
      returns (n: nat)
    requires s.Seq? && CodeAt(code, at, Compile(s, at, exit)) && Ready(s, at, m, inTry)
    ensures Runs(code, s, at, exit, m, fuel, n)
    decreases fuel, s, 1
  {
    hide Through, Steps, Inside, Kept, CodeAt, PartOf, OpenAt, FinallyAt, Within, Derails;
    var Seq(s1, s2) := s;
    var at2 := at + Len(s1);
    SeqLayout(code, s, at, exit);
    var n1 := Sim(code, s1, at, exit, m, inTry, fuel);
    var m1 := Steps(code, m, n1);
    KeptRefl(m.mem, m.esp);
    ChildPart(s1, at, m, s, at, m);
    Lift(code, m, n1, s1, at, m, s, at, m);
    n := n1;
    if !Goes(Flow(s1, m.store, m.no, fuel)) {
      EndsLast(s, at, exit, m, s1, at, m, Flow(s1, m.store, m.no, fuel), m1);
    }
    if Goes(Flow(s1, m.store, m.no, fuel)) {
      var n2 := Sim(code, s2, at2, exit, m1, inTry, fuel);
      ChildPart(s2, at2, m1, s, at, m);
      Lift(code, m1, n2, s2, at2, m1, s, at, m);
      Glue(code, m, n1, n2, s, at, m);
      EndsLast(s, at, exit, m, s2, at2, m1, Flow(s2, m1.store, m1.no, fuel), Steps(code, m1, n2));
      n := n1 + n2;
    }
  }

  lemma KeptRefl(mem: Memory, floor: int)
    ensures Kept(mem, mem, floor)
  {
  }

  lemma IfCode(s: Stmt, at: int, exit: int)
    requires s.If?
    ensures var other := at + 1 + Len(s.thn) + 1;
            Compile(s, at, exit) ==
            ([IJumpUnless(s.cond, other)] + Compile(s.thn, at + 1, exit) + [IJump(other + Len(s.els))])
            + Compile(s.els, other, exit)
  {
  }

  lemma {:induction false} IfLayout(code: seq<Instr>, s: Stmt, at: int, exit: int)
    requires s.If? && CodeAt(code, at, Compile(s, at, exit))
    ensures var other := at + 1 + Len(s.thn) + 1;
            && 0 <= at < |code| && code[at] == IJumpUnless(s.cond, other)
            && CodeAt(code, at + 1, Compile(s.thn, at + 1, exit))
            && 0 <= other - 1 < |code| && code[other - 1] == IJump(other + Len(s.els))
            && CodeAt(code, other, Compile(s.els, other, exit))
  {
    hide CodeAt, Compile;
    var other := at + 1 + Len(s.thn) + 1;
    var i, j := IJumpUnless(s.cond, other), IJump(other + Len(s.els));
    var a, b := Compile(s.thn, at + 1, exit), Compile(s.els, other, exit);
    IfCode(s, at, exit);
    CodeSplit(code, at, [i] + a + [j], b);
    CodeBracket(code, at, i, a, j);
  }

  /** `pc` is the address of an instruction that `s` adds to the code of its parts, other than the label of
      a finally block. */
  predicate Own(s: Stmt, at: int, pc: int) {
    match s
    case Seq(_, _) => false
    case If(_, a, _) => pc == at || pc == at + 1 + Len(a)
    case While(_, b) => pc == at || pc == at + 1 + Len(b)
    case Frame(_, b) => pc == at || pc == at + 1 + Len(b)
    case TryFinally(b, f) => pc == at || pc == at + 1 + Len(b) || pc == HandlerOf(s, at) + 1 + Len(f)
    case TryExcept(b, _, h) =>
      || pc == at || pc == at + 1 + Len(b)
      || pc == HandlerOf(s, at) - 1 || pc == HandlerOf(s, at) || pc == HandlerOf(s, at) + 1 + Len(h)
    case _ => true
  }

  lemma NoBlock(s: Stmt, at: int, pc: int, esp: int, ebp: int)
    requires !(at <= pc < at + Len(s))
    ensures FinallyAt(s, at, pc, esp, ebp) == NoSite
  {
  }

  lemma OwnNoBlock(s: Stmt, at: int, pc: int, esp: int, ebp: int)
    requires Own(s, at, pc)
    ensures FinallyAt(s, at, pc, esp, ebp) == NoSite
  {
    match s
    case If(_, a, b) =>
      NoBlock(a, at + 1, pc, esp, ebp);
      NoBlock(b, at + 1 + Len(a) + 1, pc, esp, ebp);
    case While(_, b) => NoBlock(b, at + 1, pc, esp, ebp);
    case Frame(w, b) => NoBlock(b, at + 1, pc, esp - WORD - WORD * w, esp - WORD);
    case TryFinally(b, f) =>
      NoBlock(b, at + 1, pc, esp - 3 * WORD, ebp);
      NoBlock(f, HandlerOf(s, at) + 1, pc, esp, ebp);
    case TryExcept(b, _, h) =>
      NoBlock(b, at + 1, pc, esp - 3 * WORD, ebp);
      NoBlock(h, HandlerOf(s, at) + 1, pc, esp, ebp);
    case _ =>
  }

  /** The first state of a run is inside it. */
  lemma InsideStart(s: Stmt, at: int, m: State)
    requires m.status == Running && m.pc == at && Len(s) > 0 && !s.Seq?
    ensures Inside(s, at, m, m) && OpenAt(s, at, at, m.esp, m.ebp) == []
  {
    OwnNoBlock(s, at, at, m.esp, m.ebp);
  }

  lemma {:induction false} SimIf(code: seq<Instr>, s: Stmt, at: int, exit: int, m: State, inTry: bool, fuel: nat)
      returns (n: nat)
    requires s.If? && CodeAt(code, at, Compile(s, at, exit)) && Ready(s, at, m, inTry)
    ensures Runs(code, s, at, exit, m, fuel, n)
    decreases fuel, s, 1
  {
    hide Through, Steps, Inside, Kept, CodeAt, Compile, PartOf, OpenAt, FinallyAt, Within, Derails;
    var If(c, a, b) := s;
    var other := at + 1 + Len(a) + 1;
    IfLayout(code, s, at, exit);
    InsideStart(s, at, m);
    OneStep(code, m, s, at, m);
    KeptRefl(m.mem, m.esp);
    var m1 := Step(code, m);
    if c(m.store) {
      var n1 := Sim(code, a, at + 1, exit, m1, inTry, fuel);
      var m2 := Steps(code, m1, n1);
      ChildPart(a, at + 1, m1, s, at, m);
      Lift(code, m1, n1, a, at + 1, m1, s, at, m);
      Glue(code, m, 1, n1, s, at, m);
      n := 1 + n1;
      if Goes(Flow(a, m1.store, m1.no, fuel)) {
        InsideAt(s, at, m, m2);
        OneStep(code, m2, s, at, m);
        Glue(code, m, n, 1, s, at, m);
        n := n + 1;
      } else {
        EndsLast(s, at, exit, m, a, at + 1, m1, Flow(a, m1.store, m1.no, fuel), m2);
      }
    } else {
      var n1 := Sim(code, b, other, exit, m1, inTry, fuel);
      ChildPart(b, other, m1, s, at, m);
      Lift(code, m1, n1, b, other, m1, s, at, m);
      Glue(code, m, 1, n1, s, at, m);
      EndsLast(s, at, exit, m, b, other, m1, Flow(b, m1.store, m1.no, fuel), Steps(code, m1, n1));
      n := 1 + n1;
    }
  }

  /** `pc` is between two parts of `s`, where no try block of `s` is open. */
  predicate Between(s: Stmt, at: int, pc: int) {
    && (Own(s, at, pc) || (s.TryFinally? && pc == HandlerOf(s, at)))
    && (s.TryFinally? || s.TryExcept? ==> pc != at + 1 + Len(s.body))
  }

  lemma BetweenOpen(s: Stmt, at: int, pc: int, esp: int, ebp: int)
    requires Between(s, at, pc)
    ensures OpenAt(s, at, pc, esp, ebp) == []
  {
  }

  /** A state between two parts of `s` with the handler chain that `s` began with. */
  lemma InsideAt(s: Stmt, at: int, base: State, x: State)
    requires x.status == Running && at <= x.pc < at + Len(s) && Between(s, at, x.pc)
    requires Kept(base.mem, x.mem, base.esp) && x.head == base.head
    ensures Within(s, at, base, x)
    ensures if Own(s, at, x.pc) || x.no == 0 || x.esp != base.esp then Inside(s, at, base, x)
            else x.ebp == base.ebp ==> Derails(s, at, base, x)
  {
    BetweenOpen(s, at, x.pc, base.esp, base.ebp);
    if Own(s, at, x.pc) {
      OwnNoBlock(s, at, x.pc, base.esp, base.ebp);
    }
  }

  lemma LoopLayout(code: seq<Instr>, s: Stmt, at: int, exit: int)
    requires s.While? && CodeAt(code, at, Compile(s, at, exit))
    ensures 0 <= at < |code| && code[at] == IJumpUnless(s.cond, at + Len(s))
    ensures CodeAt(code, at + 1, Compile(s.body, at + 1, exit))
    ensures at + 1 + Len(s.body) < |code| && code[at + 1 + Len(s.body)] == IJump(at)
  {
    hide CodeAt;
    CodeBracket(code, at, IJumpUnless(s.cond, at + 1 + Len(s.body) + 1), Compile(s.body, at + 1, exit), IJump(at));
  }

  lemma FrameLayout(code: seq<Instr>, s: Stmt, at: int, exit: int)
    requires s.Frame? && CodeAt(code, at, Compile(s, at, exit))
    ensures 0 <= at < |code| && code[at] == IEnter(s.words)
    ensures CodeAt(code, at + 1, Compile(s.body, at + 1, exit))
    ensures at + 1 + Len(s.body) < |code| && code[at + 1 + Len(s.body)] == IExit
  {
    hide CodeAt;
    CodeBracket(code, at, IEnter(s.words), Compile(s.body, at + 1, exit), IExit);
  }

  lemma {:induction false} SimWhile(code: seq<Instr>, s: Stmt, at: int, exit: int, m: State, inTry: bool, fuel: nat)
      returns (n: nat)
    requires s.While? && CodeAt(code, at, Compile(s, at, exit)) && Ready(s, at, m, inTry)
    ensures Runs(code, s, at, exit, m, fuel, n)
    decreases fuel, s, 1
  {
    hide Through, Steps, Inside, Kept, CodeAt, Compile, PartOf, OpenAt, FinallyAt, Within, Derails;
    var While(c, b) := s;
    KeptRefl(m.mem, m.esp);
    if fuel == 0 {
      Nowhere(code, m, s, at);
      return 0;
    }
    LoopLayout(code, s, at, exit);
    InsideStart(s, at, m);
    OneStep(code, m, s, at, m);
    n := 1;
    if c(m.store) {
      n := SimLoop(code, s, at, exit, m, inTry, fuel);
    }
  }

  lemma Nowhere(code: seq<Instr>, m: State, s: Stmt, at: int)
    ensures Through(code, m, 0, s, at, m) && Steps(code, m, 0) == m
  {
  }

  lemma {:induction false} SimLoop(code: seq<Instr>, s: Stmt, at: int, exit: int, m: State, inTry: bool, fuel: nat)
      returns (n: nat)
    requires s.While? && CodeAt(code, at, Compile(s, at, exit)) && Ready(s, at, m, inTry)
    requires fuel > 0 && s.cond(m.store)
    ensures Runs(code, s, at, exit, m, fuel, n)
    decreases fuel, s, 0
  {
    hide Through, Steps, Inside, Kept, CodeAt, Compile, PartOf, OpenAt, FinallyAt, Within, Derails;
    var b := s.body;
    KeptRefl(m.mem, m.esp);
    LoopLayout(code, s, at, exit);
    InsideStart(s, at, m);
    OneStep(code, m, s, at, m);
    var m1 := Step(code, m);
    var n1 := Sim(code, b, at + 1, exit, m1, false, fuel);
    var m2 := Steps(code, m1, n1);
    NothingToLeave(b, m1.store, m1.no, fuel);
    ChildPart(b, at + 1, m1, s, at, m);
    Lift(code, m1, n1, b, at + 1, m1, s, at, m);
    Glue(code, m, 1, n1, s, at, m);
    n := 1 + n1;
    if Goes(Flow(b, m1.store, m1.no, fuel)) {
      InsideAt(s, at, m, m2);
      OneStep(code, m2, s, at, m);
      Glue(code, m, n, 1, s, at, m);
      var m3 := Step(code, m2);
      var n3 := Sim(code, s, at, exit, m3, inTry, fuel - 1);
      ChildPart(s, at, m3, s, at, m);
      Lift(code, m3, n3, s, at, m3, s, at, m);
      Glue(code, m, n + 1, n3, s, at, m);
      EndsLast(s, at, exit, m, s, at, m3, Flow(s, m3.store, m3.no, fuel - 1), Steps(code, m3, n3));
      n := n + 1 + n3;
    } else {
      EndsLast(s, at, exit, m, b, at + 1, m1, Flow(b, m1.store, m1.no, fuel), m2);
    }
  }

  lemma FramePart(s: Stmt, at: int, m: State, m1: State)
    requires s.Frame? && m1 == StepInstr(IEnter(s.words), m)
    ensures PartOf(s.body, at + 1, m1, s, at, m)
  {
  }

  lemma {:induction false} SimFrame(code: seq<Instr>, s: Stmt, at: int, exit: int, m: State, inTry: bool, fuel: nat)
      returns (n: nat)
    requires s.Frame? && CodeAt(code, at, Compile(s, at, exit)) && Ready(s, at, m, inTry)
    ensures Runs(code, s, at, exit, m, fuel, n)
    decreases fuel, s, 1
  {
    hide Through, Steps, Inside, CodeAt, Compile, PartOf, OpenAt, FinallyAt, Within, Derails;
    var Frame(w, b) := s;
    FrameLayout(code, s, at, exit);
    InsideStart(s, at, m);
    OneStep(code, m, s, at, m);
    var m1 := Step(code, m);
    var n1 := Sim(code, b, at + 1, exit, m1, false, fuel);
    var m2 := Steps(code, m1, n1);
    NothingToLeave(b, m1.store, m1.no, fuel);
    FramePart(s, at, m, m1);
    Lift(code, m1, n1, b, at + 1, m1, s, at, m);
    if Flow(b, m1.store, m1.no, fuel).Derailed? {
      LiftDerailed(b, at + 1, m1, s, at, m, m2);
    }
    Glue(code, m, 1, n1, s, at, m);
    n := 1 + n1;
    if Goes(Flow(b, m1.store, m1.no, fuel)) {
      InsideAt(s, at, m, m2);
      OneStep(code, m2, s, at, m);
      Glue(code, m, n, 1, s, at, m);
      n := n + 1;
    }
  }

  lemma ScribbleKept(mem: Memory, esp: int, ws: seq<int>)
    ensures Kept(mem, Scribble(mem, esp, ws), esp)
    decreases ws
  {
    if ws != [] {
      ScribbleKept(mem[esp - WORD := ws[0]], esp - WORD, ws[1..]);
    }
  }

  lemma {:induction false} SimSimple(code: seq<Instr>, s: Stmt, at: int, exit: int, m: State, inTry: bool, fuel: nat)
      returns (n: nat)
    requires s.Skip? || s.Act? || s.Raise? || s.Leave?
    requires CodeAt(code, at, Compile(s, at, exit)) && Ready(s, at, m, inTry)
    ensures Runs(code, s, at, exit, m, fuel, n)
  {
    hide Through, Steps, Inside, CodeAt;
    if s.Skip? {
      Nowhere(code, m, s, at);
      n := 0;
    } else {
      CodeOne(code, at, Compile(s, at, exit)[0]);
      InsideStart(s, at, m);
      OneStep(code, m, s, at, m);
      if s.Act? {
        ScribbleKept(m.mem, m.esp, s.scratch);
      }
      n := 1;
    }
  }

  // ---- try blocks ----

  lemma {:induction false} ChainSnoc(mem: Memory, head: int, records: seq<Record>, last: Record)
    requires Chain(mem, head, records, last.addr) && last.addr > 0
    requires Read(mem, last.addr + WORD) == last.handler && Read(mem, last.addr + 2 * WORD) == last.ebp
    requires Read(mem, last.addr) == 0 || Read(mem, last.addr) > last.addr
    ensures Chain(mem, head, records + [last], Read(mem, last.addr))
    decreases records
  {
    if records == [] {
      assert ([] + [last])[1..] == [];
    } else {
      ChainSnoc(mem, Read(mem, head), records[1..], last);
      assert (records + [last])[1..] == records[1..] + [last];
    }
  }

  /** Where a leave of the body, or its normal end, goes on. */
  function AfterBody(s: Stmt, at: int): int
    requires s.TryFinally? || s.TryExcept?
  {
    at + 1 + Len(s.body) + 1
  }

  /** The record of the try block `s`, begun in `m`, is in place. */
  ghost predicate Opened(s: Stmt, at: int, m: State, m1: State)
    requires s.TryFinally? || s.TryExcept?
  {
    && m1.status == Running && m1.pc == at + 1 && m1.store == m.store && m1.no == m.no && m1.ebp == m.ebp
    && m1.esp == m.esp - 3 * WORD && m1.head == m1.esp && Kept(m.mem, m1.mem, m.esp)
    && Read(m1.mem, m1.esp) == m.head && Read(m1.mem, m1.esp + WORD) == HandlerOf(s, at)
    && Read(m1.mem, m1.esp + 2 * WORD) == m.ebp
  }

  /** A run of the body is a run of the try block, with one more record in the chain. */
  lemma LiftBody(code: seq<Instr>, n: nat, s: Stmt, at: int, m: State, m1: State)
    requires s.TryFinally? || s.TryExcept?
    requires m.esp > 3 * WORD && (m.head == 0 || m.head >= m.esp) && Opened(s, at, m, m1)
    requires Through(code, m1, n, s.body, at + 1, m1)
    ensures Through(code, m1, n, s, at, m)
  {
    forall i | 0 <= i < n
      ensures Inside(s, at, m, Steps(code, m1, i))
    {
      var x := Steps(code, m1, i);
      assert Inside(s.body, at + 1, m1, x);
      ChainSnoc(x.mem, x.head, OpenAt(s.body, at + 1, x.pc, m1.esp, m1.ebp), RecordOf(s, at, m.esp, m.ebp));
    }
  }

  lemma BodyDerails(s: Stmt, at: int, m: State, m1: State, x: State)
    requires s.TryFinally? || s.TryExcept?
    requires m.esp > 3 * WORD && (m.head == 0 || m.head >= m.esp) && Opened(s, at, m, m1)
    requires Within(s.body, at + 1, m1, x) && Derails(s.body, at + 1, m1, x)
    ensures Within(s, at, m, x) && Derails(s, at, m, x)
  {
    ChainSnoc(x.mem, x.head, OpenAt(s.body, at + 1, x.pc, m1.esp, m1.ebp), RecordOf(s, at, m.esp, m.ebp));
  }

  /** The first instructions of a try block of either kind. */
  ghost predicate BodyAt(code: seq<Instr>, s: Stmt, at: int)
    requires s.TryFinally? || s.TryExcept?
  {
    && 0 <= at < |code| && code[at] == ITryBegin(HandlerOf(s, at))
    && CodeAt(code, at + 1, Compile(s.body, at + 1, AfterBody(s, at)))
    && at + 1 + Len(s.body) < |code| && code[at + 1 + Len(s.body)] == ITryEnd
  }

  /** `x` is at the handler of the try block begun in `m`, with only the saved EBP still on the stack. */
  ghost predicate AtHandler(s: Stmt, at: int, m: State, x: State, no: nat)
    requires s.TryFinally? || s.TryExcept?
  {
    && x.status == Running && x.pc == HandlerOf(s, at) && x.no == no && no != 0
    && x.esp == m.esp - WORD && x.head == m.head && Read(x.mem, x.esp) == m.ebp && Kept(m.mem, x.mem, m.esp)
  }

  /** None of the states of `n` steps from `m` is at `pc`. */
  ghost predicate Never(code: seq<Instr>, m: State, n: nat, pc: int) {
    forall i :: 0 <= i < n ==> Steps(code, m, i).pc != pc
  }

  lemma NeverOutside(code: seq<Instr>, m: State, n: nat, part: Stmt, at: int, base: State, pc: int)
    requires Through(code, m, n, part, at, base) && !(at <= pc < at + Len(part))
    ensures Never(code, m, n, pc)
  {
    forall i | 0 <= i < n
      ensures Steps(code, m, i).pc != pc
    {
      assert Inside(part, at, base, Steps(code, m, i));
    }
  }

  lemma NeverGlue(code: seq<Instr>, m: State, a: nat, b: nat, pc: int)
    requires Never(code, m, a, pc) && Never(code, Steps(code, m, a), b, pc)
    ensures Never(code, m, a + b, pc)
  {
    hide Steps;
    forall i | 0 <= i < a + b
      ensures Steps(code, m, i).pc != pc
    {
      if i >= a {
        StepsAdd(code, m, a, i - a);
      }
    }
  }

  lemma NeverOne(code: seq<Instr>, m: State, pc: int)
    requires m.pc != pc
    ensures Never(code, m, 1, pc)
  {
    assert Steps(code, m, 0) == m;
  }

  /** All states of `n` steps from `m` are below `pc`. */
  ghost predicate Below(code: seq<Instr>, m: State, n: nat, pc: int) {
    forall i :: 0 <= i < n ==> Steps(code, m, i).pc < pc
  }

  lemma BelowNever(code: seq<Instr>, m: State, n: nat, pc: int)
    requires Below(code, m, n, pc)
    ensures Never(code, m, n, pc) && Never(code, m, n, pc + 1)
  {
    hide Steps;
  }

  /** A step, the steps of a part, and perhaps one more step. */
  lemma BelowGlue(code: seq<Instr>, m: State, n: nat, part: Stmt, at: int, base: State, pc: int)
    requires m.pc < pc && at + Len(part) < pc && Through(code, Step(code, m), n, part, at, base)
    ensures Below(code, m, 1 + n, pc)
    ensures Steps(code, m, 1 + n).pc < pc ==> Below(code, m, 1 + n + 1, pc)
  {
    assert Steps(code, m, 0) == m && Steps(code, m, 1) == Step(code, m);
    forall i | 0 <= i < 1 + n
      ensures Steps(code, m, i).pc < pc
    {
      if i > 0 {
        StepsAdd(code, m, 1, i - 1);
        assert Inside(part, at, base, Steps(code, Step(code, m), i - 1));
      }
    }
  }

  /** A try block's body, with its record, up to the place where the block goes on; nothing from the
      handler's label on is reached before. */
  ghost predicate BodyRuns(code: seq<Instr>, s: Stmt, at: int, m: State, fuel: nat, n: nat)
    requires s.TryFinally? || s.TryExcept?
  {
    var e, x := Flow(s.body, m.store, m.no, fuel), Steps(code, m, n);
    && Through(code, m, n, s, at, m) && n > 0 && Below(code, m, n, HandlerOf(s, at))
    && Kept(m.mem, x.mem, m.esp)
    && match e
       case Derailed => Within(s, at, m, x) && Derails(s, at, m, x)
       case Ended(r, no) =>
         match r
         case Normal(st) => Restored(m, x, AfterBody(s, at)) && x.no == no && x.store == st
         case Left(st) => Restored(m, x, AfterBody(s, at)) && x.no == no && x.store == st
         case Raised(no', st) => AtHandler(s, at, m, x, no') && x.store == st
         case Resumed => x.status == Wrong
         case Timeout => n >= fuel
  }

  /** What the body of a try block ends with, seen from the state in which the block began. */
  lemma BodyEnds(s: Stmt, at: int, m: State, m1: State, e: End, m2: State)
    requires s.TryFinally? || s.TryExcept?
    requires m.esp > 3 * WORD && Opened(s, at, m, m1)
    requires Ends(s.body, at + 1, AfterBody(s, at), m1, e, m2)
    ensures Kept(m.mem, m2.mem, m.esp)
    ensures Goes(e) ==>
              && Restored(m, Next(TryEnd(m2)), AfterBody(s, at)) && Next(TryEnd(m2)).mem == m2.mem
              && m2.no == e.no && m2.store == e.r.s
    ensures e.Ended? && e.r.Left? ==> Restored(m, m2, AfterBody(s, at)) && m2.no == e.no && m2.store == e.r.s
    ensures e.Ended? && e.r.Raised? ==> AtHandler(s, at, m, m2, e.r.no) && m2.store == e.r.s
  {
  }

  lemma {:induction false} SimBody(code: seq<Instr>, s: Stmt, at: int, m: State, inTry: bool, fuel: nat) returns (n: nat)
    requires s.TryFinally? || s.TryExcept?
    requires BodyAt(code, s, at) && Ready(s, at, m, inTry)
    ensures BodyRuns(code, s, at, m, fuel, n)
    decreases fuel, s, 0
  {
    hide Through, Steps, Inside, CodeAt, Compile, Kept, Opened, Never, Below, PartOf, OpenAt, FinallyAt, Within, Derails;
    var b, handler := s.body, HandlerOf(s, at);
    InsideStart(s, at, m);
    OneStep(code, m, s, at, m);
    var m1 := Step(code, m);
    OpenBlock(s, at, m, m1);
    var n1 := Sim(code, b, at + 1, AfterBody(s, at), m1, true, fuel);
    var m2 := Steps(code, m1, n1);
    LiftBody(code, n1, s, at, m, m1);
    Glue(code, m, 1, n1, s, at, m);
    BelowGlue(code, m, n1, b, at + 1, m1, handler);
    BodyEnds(s, at, m, m1, Flow(b, m1.store, m1.no, fuel), m2);
    n := 1 + n1;
    if Flow(b, m.store, m.no, fuel).Derailed? {
      BodyDerails(s, at, m, m1, m2);
    }
    if Goes(Flow(b, m.store, m.no, fuel)) {
      InsideRecord(s, at, m, m1, m2);
      OneStep(code, m2, s, at, m);
      Glue(code, m, n, 1, s, at, m);
      n := n + 1;
    }
  }

  lemma OpenBlock(s: Stmt, at: int, m: State, m1: State)
    requires s.TryFinally? || s.TryExcept?
    requires m.status == Running && m.pc == at && m1 == StepInstr(ITryBegin(HandlerOf(s, at)), m)
    ensures Opened(s, at, m, m1) && m1.status == Running && m1.pc == at + 1 && m1.store == m.store && m1.no == m.no
    ensures m1.esp == m.esp - 3 * WORD && m1.head == m1.esp
  {
  }

  /** The state at the end of the body, before its record is taken off. */
  lemma InsideRecord(s: Stmt, at: int, m: State, m1: State, m2: State)
    requires s.TryFinally? || s.TryExcept?
    requires m.esp > 3 * WORD && (m.head == 0 || m.head >= m.esp) && Opened(s, at, m, m1)
    requires Restored(m1, m2, at + 1 + Len(s.body)) && Kept(m1.mem, m2.mem, m1.esp)
    ensures Inside(s, at, m, m2)
  {
    ChainSnoc(m2.mem, m2.head, [], RecordOf(s, at, m.esp, m.ebp));
    assert OpenAt(s, at, m2.pc, m.esp, m.ebp) == [] + [RecordOf(s, at, m.esp, m.ebp)];
    OwnNoBlock(s, at, m2.pc, m.esp, m.ebp);
  }

  lemma FinallyCode(s: Stmt, at: int, exit: int)
    requires s.TryFinally?
    ensures var handler := HandlerOf(s, at);
            Compile(s, at, exit) ==
            ([ITryBegin(handler)] + Compile(s.body, at + 1, handler) + [ITryEnd])
            + [IFinallyBegin] + Compile(s.fin, handler + 1, exit) + [IFinallyEnd]
  {
  }

  lemma FinallyLayout(code: seq<Instr>, s: Stmt, at: int, exit: int)
    requires s.TryFinally? && CodeAt(code, at, Compile(s, at, exit))
    ensures var handler := HandlerOf(s, at);
            && BodyAt(code, s, at)
            && 0 <= handler < |code| && code[handler] == IFinallyBegin
            && CodeAt(code, handler + 1, Compile(s.fin, handler + 1, exit))
            && handler + 1 + Len(s.fin) < |code| && code[handler + 1 + Len(s.fin)] == IFinallyEnd
  {
    hide CodeAt, Compile;
    var handler := HandlerOf(s, at);
    var b, f := Compile(s.body, at + 1, handler), Compile(s.fin, handler + 1, exit);
    var first, second := [ITryBegin(handler)] + b + [ITryEnd], [IFinallyBegin] + f + [IFinallyEnd];
    FinallyCode(s, at, exit);
    assert first + [IFinallyBegin] + f + [IFinallyEnd] == first + second;
    CodeSplit(code, at, first, second);
    CodeBracket(code, at, ITryBegin(handler), b, ITryEnd);
    CodeBracket(code, handler, IFinallyBegin, f, IFinallyEnd);
  }

  /** A state in which the finally body or the handler of a try block begun in `m` begins. */
  ghost predicate Entered(s: Stmt, at: int, m: State, y: State)
    requires s.TryFinally? || s.TryExcept?
  {
    Restored(m, y, HandlerOf(s, at) + 1) && Kept(m.mem, y.mem, m.esp)
  }

  /** The finally body, once begun, runs to its end and then goes on after the block, or with the
      exception whose number is then set; the handler's label is not reached again. */
  lemma {:induction false} SimFin(code: seq<Instr>, s: Stmt, at: int, exit: int, m: State, y: State, inTry: bool, fuel: nat)
      returns (n: nat)
    requires s.TryFinally? && CodeAt(code, at, Compile(s, at, exit)) && Ready(s, at, m, inTry) && Entered(s, at, m, y)
    ensures Through(code, y, n, s, at, m) && Never(code, y, n, HandlerOf(s, at))
    ensures Ends(s, at, exit, m, AfterFinally(Flow(s.fin, y.store, y.no, fuel)), Steps(code, y, n))
    ensures Late(Flow(s.fin, y.store, y.no, fuel)) ==> n >= fuel
    decreases fuel, s, 0
  {
    hide Through, Steps, Inside, CodeAt, Compile, Never, PartOf, OpenAt, FinallyAt, Within, Derails;
    var handler := HandlerOf(s, at);
    FinallyLayout(code, s, at, exit);
    NothingToLeave(s.fin, y.store, y.no, fuel);
    n := Sim(code, s.fin, handler + 1, exit, y, false, fuel);
    ChildPart(s.fin, handler + 1, y, s, at, m);
    Lift(code, y, n, s.fin, handler + 1, y, s, at, m);
    NeverOutside(code, y, n, s.fin, handler + 1, y, handler);
    if Flow(s.fin, y.store, y.no, fuel).Derailed? {
      LiftDerailed(s.fin, handler + 1, y, s, at, m, Steps(code, y, n));
    }
    if Goes(Flow(s.fin, y.store, y.no, fuel)) {
      var z := Steps(code, y, n);
      InsideAt(s, at, m, z);
      OneStep(code, z, s, at, m);
      NeverOne(code, z, handler);
      Glue(code, y, n, 1, s, at, m);
      NeverGlue(code, y, n, 1, handler);
      n := n + 1;
    }
  }

  /** The step into a finally body. */
  lemma EnterFin(code: seq<Instr>, s: Stmt, at: int, exit: int, m: State, x: State)
    requires s.TryFinally? && CodeAt(code, at, Compile(s, at, exit)) && Kept(m.mem, x.mem, m.esp)
    requires (Restored(m, x, HandlerOf(s, at)) && x.no == 0) || AtHandler(s, at, m, x, x.no)
    ensures Entered(s, at, m, Step(code, x)) && Step(code, x).no == x.no && Step(code, x).store == x.store
  {
    hide CodeAt, Compile;
    FinallyLayout(code, s, at, exit);
  }

  lemma {:induction false} SimFinally(code: seq<Instr>, s: Stmt, at: int, exit: int, m: State, inTry: bool, fuel: nat)
      returns (n: nat)
    requires s.TryFinally? && CodeAt(code, at, Compile(s, at, exit)) && Ready(s, at, m, inTry)
    ensures Runs(code, s, at, exit, m, fuel, n)
    decreases fuel, s, 1
  {
    hide Through, Steps, Inside, CodeAt, Compile, Kept, Never, PartOf, OpenAt, FinallyAt, Within, Derails, Below;
    FinallyLayout(code, s, at, exit);
    n := SimBody(code, s, at, m, inTry, fuel);
    var x := Steps(code, m, n);
    var e := Flow(s.body, m.store, m.no, fuel);
    if e.Ended? && (e.r.Normal? || e.r.Left? || e.r.Raised?) {
      InsideAt(s, at, m, x);
    }
    if e.Ended? && (((e.r.Normal? || e.r.Left?) && e.no == 0) || e.r.Raised?) {
      OneStep(code, x, s, at, m);
      EnterFin(code, s, at, exit, m, x);
      var y := Step(code, x);
      Glue(code, m, n, 1, s, at, m);
      var n2 := SimFin(code, s, at, exit, m, y, inTry, fuel);
      Glue(code, m, n + 1, n2, s, at, m);
      n := n + 1 + n2;
    }
  }

  lemma ExceptCode(s: Stmt, at: int, exit: int)
    requires s.TryExcept?
    ensures var handler := HandlerOf(s, at);
            Compile(s, at, exit) ==
            [ITryBegin(handler)] + Compile(s.body, at + 1, handler - 1) + [ITryEnd, IJump(at + Len(s))]
            + [IExceptBegin(s.filter)] + Compile(s.handler, handler + 1, exit) + [IExceptEnd]
  {
  }

  lemma Regroup(i: Instr, b: seq<Instr>, j: Instr, k: Instr, l: Instr, h: seq<Instr>, e: Instr)
    ensures [i] + b + [j, k] + [l] + h + [e] == ([i] + b + [j] + [k]) + ([l] + h + [e])
  {
    assert [j, k] == [j] + [k];
  }

  lemma ExceptLayout(code: seq<Instr>, s: Stmt, at: int, exit: int)
    requires s.TryExcept? && CodeAt(code, at, Compile(s, at, exit))
    ensures var handler := HandlerOf(s, at);
            && BodyAt(code, s, at)
            && 0 <= handler - 1 < |code| && code[handler - 1] == IJump(at + Len(s))
            && handler < |code| && code[handler] == IExceptBegin(s.filter)
            && CodeAt(code, handler + 1, Compile(s.handler, handler + 1, exit))
            && handler + 1 + Len(s.handler) < |code| && code[handler + 1 + Len(s.handler)] == IExceptEnd
  {
    hide CodeAt, Compile;
    var handler := HandlerOf(s, at);
    var b: seq<Instr>, h: seq<Instr> := Compile(s.body, at + 1, handler - 1), Compile(s.handler, handler + 1, exit);
    var first, jump := [ITryBegin(handler)] + b + [ITryEnd], [IJump(at + Len(s))];
    var second := [IExceptBegin(s.filter)] + h + [IExceptEnd];
    ExceptCode(s, at, exit);
    Regroup(ITryBegin(handler), b, ITryEnd, IJump(at + Len(s)), IExceptBegin(s.filter), h, IExceptEnd);
    CodeSplit(code, at, first + jump, second);
    CodeSplit(code, at, first, jump);
    CodeOne(code, handler - 1, IJump(at + Len(s)));
    CodeBracket(code, at, ITryBegin(handler), b, ITryEnd);
    CodeBracket(code, handler, IExceptBegin(s.filter), h, IExceptEnd);
  }

  /** The handler, once begun, runs to its end and clears the exception number. */
  lemma {:induction false} SimHandler(code: seq<Instr>, s: Stmt, at: int, exit: int, m: State, y: State, inTry: bool, fuel: nat)
      returns (n: nat)
    requires s.TryExcept? && CodeAt(code, at, Compile(s, at, exit)) && Ready(s, at, m, inTry) && Entered(s, at, m, y)
    requires y.no != 0
    ensures Through(code, y, n, s, at, m)
    ensures var e := Flow(s.handler, y.store, y.no, fuel);
            Ends(s, at, exit, m, if Goes(e) then Ended(e.r, 0) else e, Steps(code, y, n))
    ensures Late(Flow(s.handler, y.store, y.no, fuel)) ==> n >= fuel
    decreases fuel, s, 0
  {
    hide Through, Steps, Inside, CodeAt, Compile, PartOf, OpenAt, FinallyAt, Within, Derails;
    var handler := HandlerOf(s, at);
    ExceptLayout(code, s, at, exit);
    NothingToLeave(s.handler, y.store, y.no, fuel);
    n := Sim(code, s.handler, handler + 1, exit, y, false, fuel);
    ChildPart(s.handler, handler + 1, y, s, at, m);
    Lift(code, y, n, s.handler, handler + 1, y, s, at, m);
    if Flow(s.handler, y.store, y.no, fuel).Derailed? {
      LiftDerailed(s.handler, handler + 1, y, s, at, m, Steps(code, y, n));
    }
    if Goes(Flow(s.handler, y.store, y.no, fuel)) {
      var z := Steps(code, y, n);
      InsideAt(s, at, m, z);
      OneStep(code, z, s, at, m);
      Glue(code, y, n, 1, s, at, m);
      n := n + 1;
    }
  }

  /** An exception thrown again with the chain of `m` arrives where one thrown in `m` would. */
  lemma RethrowCaught(m: State, z: State)
    requires z.status == Running && z.head == m.head && z.no != 0 && Kept(m.mem, z.mem, m.esp)
    requires m.head == 0 || m.head >= m.esp
    ensures Caught(m, Rethrow(z), z.no) && Rethrow(z).mem == z.mem && Rethrow(z).store == z.store
  {
  }

  lemma {:induction false} SimExcept(code: seq<Instr>, s: Stmt, at: int, exit: int, m: State, inTry: bool, fuel: nat)
      returns (n: nat)
    requires s.TryExcept? && CodeAt(code, at, Compile(s, at, exit)) && Ready(s, at, m, inTry)
    ensures Runs(code, s, at, exit, m, fuel, n)
    decreases fuel, s, 1
  {
    hide Through, Steps, Inside, CodeAt, Compile, Kept, Never, PartOf, OpenAt, FinallyAt, Within, Derails, Below;
    ExceptLayout(code, s, at, exit);
    n := SimBody(code, s, at, m, inTry, fuel);
    var x := Steps(code, m, n);
    var e := Flow(s.body, m.store, m.no, fuel);
    if e.Ended? && (e.r.Normal? || e.r.Left? || e.r.Raised?) {
      InsideAt(s, at, m, x);
      OneStep(code, x, s, at, m);
      Glue(code, m, n, 1, s, at, m);
      n := n + 1;
      var y := Step(code, x);
      if e.r.Raised? {
        var verdict := s.filter(e.r.s, e.r.no).1;
        if verdict != CONTINUE_EXECUTION && verdict != CONTINUE_SEARCH {
          assert Entered(s, at, m, y) && y.store == s.filter(e.r.s, e.r.no).0 && y.no == e.r.no;
          var n2 := SimHandler(code, s, at, exit, m, y, inTry, fuel);
          Glue(code, m, n, n2, s, at, m);
          n := n + n2;
        } else {
          RethrowCaught(m, LoadRegs(x).(store := s.filter(e.r.s, e.r.no).0));
        }
      }
    }
  }

  lemma {:induction false} Sim(code: seq<Instr>, s: Stmt, at: int, exit: int, m: State, inTry: bool, fuel: nat)
      returns (n: nat)
    requires CodeAt(code, at, Compile(s, at, exit)) && Ready(s, at, m, inTry)
    ensures Runs(code, s, at, exit, m, fuel, n)
    decreases fuel, s, 2
  {
    hide Runs, CodeAt, Ready;
    match s
    case Seq(_, _) => n := SimSeq(code, s, at, exit, m, inTry, fuel);
    case If(_, _, _) => n := SimIf(code, s, at, exit, m, inTry, fuel);
    case While(_, _) => n := SimWhile(code, s, at, exit, m, inTry, fuel);
    case Frame(_, _) => n := SimFrame(code, s, at, exit, m, inTry, fuel);
    case TryFinally(_, _) => n := SimFinally(code, s, at, exit, m, inTry, fuel);
    case TryExcept(_, _, _) => n := SimExcept(code, s, at, exit, m, inTry, fuel);
    case _ => n := SimSimple(code, s, at, exit, m, inTry, fuel);
  }
}

/** Exactly when the one exception number of a thread serves the structured meaning of a program. */
module ExceptAgree {
  import opened ExceptLang

  predicate Accepts(verdict: int) {
    verdict != CONTINUE_EXECUTION && verdict != CONTINUE_SEARCH
  }

  /** By its meaning, the statement completes an except handler on its way. */
  predicate Handles(s: Stmt, st: Store, fuel: nat)
    decreases fuel, s
  {
    match s
    case Seq(s1, s2) =>
      var r := Exec(s1, st, fuel);
      Handles(s1, st, fuel) || (r.Normal? && Handles(s2, r.s, fuel))
    case If(c, a, b) => if c(st) then Handles(a, st, fuel) else Handles(b, st, fuel)
    case While(c, b) =>
      var r := Exec(b, st, fuel);
      fuel > 0 && c(st) && (Handles(b, st, fuel) || (r.Normal? && Handles(s, r.s, fuel - 1)))
    case Frame(_, b) => Handles(b, st, fuel)
    case TryFinally(b, f) =>
      var r := Exec(b, st, fuel);
      Handles(b, st, fuel) || ((r.Normal? || r.Left? || r.Raised?) && Handles(f, r.s, fuel))
    case TryExcept(b, filter, h) =>
      var r := Exec(b, st, fuel);
      || Handles(b, st, fuel)
      || (r.Raised? && Accepts(filter(r.s, r.no).1) &&
          (Exec(h, filter(r.s, r.no).0, fuel).Normal? || Handles(h, filter(r.s, r.no).0, fuel)))
    case _ => false
  }

  /** A property of the meaning of a statement, begun while an exception number is set or not: no finally body
      that runs for an exception completes a handler and ends normally; and no finally body is reached
      without an exception inside a handler, or inside a finally body that runs for an exception, unless
      a handler has been completed there before. */
  predicate Clean(s: Stmt, st: Store, busy: bool, fuel: nat)
    decreases fuel, s
  {
    match s
    case Seq(s1, s2) =>
      var r := Exec(s1, st, fuel);
      Clean(s1, st, busy, fuel) && (r.Normal? ==> Clean(s2, r.s, busy && !Handles(s1, st, fuel), fuel))
    case If(c, a, b) => if c(st) then Clean(a, st, busy, fuel) else Clean(b, st, busy, fuel)
    case While(c, b) =>
      fuel > 0 && c(st) ==>
        var r := Exec(b, st, fuel);
        Clean(b, st, busy, fuel) && (r.Normal? ==> Clean(s, r.s, busy && !Handles(b, st, fuel), fuel - 1))
    case Frame(_, b) => Clean(b, st, busy, fuel)
    case TryFinally(b, f) =>
      var r := Exec(b, st, fuel);
      && Clean(b, st, busy, fuel)
      && (r.Normal? || r.Left? ==> (busy ==> Handles(b, st, fuel)) && Clean(f, r.s, false, fuel))
      && (r.Raised? ==> Clean(f, r.s, true, fuel) && !(Exec(f, r.s, fuel).Normal? && Handles(f, r.s, fuel)))
    case TryExcept(b, filter, h) =>
      var r := Exec(b, st, fuel);
      && Clean(b, st, busy, fuel)
      && (r.Raised? && Accepts(filter(r.s, r.no).1) ==> Clean(h, filter(r.s, r.no).0, true, fuel))
    case _ => true
  }

  /** The code of a statement ends as the statement does by its meaning. */
  predicate Agrees(s: Stmt, st: Store, no: nat, fuel: nat) {
    Flow(s, st, no, fuel).Ended? && Flow(s, st, no, fuel).r == Exec(s, st, fuel)
  }

  /** The number that is left at the end, if the meaning is clean. */
  predicate NumberLeft(s: Stmt, st: Store, no: nat, fuel: nat) {
    var e := Flow(s, st, no, fuel);
    e.Ended? && (e.r.Normal? || e.r.Left?) ==> e.no == if Handles(s, st, fuel) then 0 else no
  }

  /** A clean meaning is what the code does, and the exception number is cleared exactly by a handler that
      is completed. */
  lemma {:induction false} CleanAgrees(s: Stmt, st: Store, no: nat, inTry: bool, fuel: nat)
    requires Proper(s, inTry) && Clean(s, st, no != 0, fuel)
    ensures Agrees(s, st, no, fuel) && NumberLeft(s, st, no, fuel)
    decreases fuel, s
  {
    match s
    case Seq(s1, s2) =>
      CleanAgrees(s1, st, no, inTry, fuel);
      var e := Flow(s1, st, no, fuel);
      if Goes(e) {
        CleanAgrees(s2, e.r.s, e.no, inTry, fuel);
      }
    case If(c, a, b) =>
      CleanAgrees(if c(st) then a else b, st, no, inTry, fuel);
    case While(c, b) =>
      if fuel > 0 && c(st) {
        CleanAgrees(b, st, no, false, fuel);
        var e := Flow(b, st, no, fuel);
        if Goes(e) {
          CleanAgrees(s, e.r.s, e.no, inTry, fuel - 1);
        }
      }
    case Frame(_, b) =>
      CleanAgrees(b, st, no, false, fuel);
    case TryFinally(b, f) =>
      CleanAgrees(b, st, no, true, fuel);
      var e := Flow(b, st, no, fuel);
      if e.r.Normal? || e.r.Left? || e.r.Raised? {
        var no' := if e.r.Raised? then e.r.no else 0;
        RaisedSet(b, st, no, true, fuel);
        CleanAgrees(f, e.r.s, no', false, fuel);
        NothingToLeave(f, e.r.s, no', fuel);
      }
    case TryExcept(b, filter, h) =>
      CleanAgrees(b, st, no, true, fuel);
      var e := Flow(b, st, no, fuel);
      if e.r.Raised? && Accepts(filter(e.r.s, e.r.no).1) {
        RaisedSet(b, st, no, true, fuel);
        CleanAgrees(h, filter(e.r.s, e.r.no).0, e.r.no, false, fuel);
        NothingToLeave(h, filter(e.r.s, e.r.no).0, e.r.no, fuel);
      }
    case _ =>
  }

  lemma {:induction false} RaisedSet(s: Stmt, st: Store, no: nat, inTry: bool, fuel: nat)
    requires Proper(s, inTry)
    ensures var e := Flow(s, st, no, fuel); e.Ended? && e.r.Raised? ==> e.r.no != 0
    decreases fuel, s
  {
    match s
    case Seq(s1, s2) =>
      RaisedSet(s1, st, no, inTry, fuel);
      var e := Flow(s1, st, no, fuel);
      if Goes(e) {
        RaisedSet(s2, e.r.s, e.no, inTry, fuel);
      }
    case If(c, a, b) =>
      RaisedSet(if c(st) then a else b, st, no, inTry, fuel);
    case While(c, b) =>
      if fuel > 0 && c(st) {
        RaisedSet(b, st, no, false, fuel);
        var e := Flow(b, st, no, fuel);
        if Goes(e) {
          RaisedSet(s, e.r.s, e.no, inTry, fuel - 1);
        }
      }
    case Frame(_, b) => RaisedSet(b, st, no, false, fuel);
    case TryFinally(b, f) =>
      RaisedSet(b, st, no, true, fuel);
      var e := Flow(b, st, no, fuel);
      if e.Ended? && (e.r.Normal? || e.r.Left? || e.r.Raised?) {
        RaisedSet(f, e.r.s, if e.r.Raised? then e.r.no else 0, false, fuel);
      }
    case TryExcept(b, filter, h) =>
      RaisedSet(b, st, no, true, fuel);
      var e := Flow(b, st, no, fuel);
      if e.Ended? && e.r.Raised? {
        RaisedSet(h, filter(e.r.s, e.r.no).0, e.r.no, false, fuel);
      }
    case _ =>
  }

  // ---- the exact condition ----

  /** The code of a statement, and of every part of it that runs, ends as it does by its meaning. */
  predicate AgreesThroughout(s: Stmt, st: Store, no: nat, fuel: nat)
    decreases fuel, s
  {
    && Agrees(s, st, no, fuel)
    && match s
       case Seq(s1, s2) =>
         var e := Flow(s1, st, no, fuel);
         AgreesThroughout(s1, st, no, fuel) && (Goes(e) ==> AgreesThroughout(s2, e.r.s, e.no, fuel))
       case If(c, a, b) =>
         if c(st) then AgreesThroughout(a, st, no, fuel) else AgreesThroughout(b, st, no, fuel)
       case While(c, b) =>
         fuel > 0 && c(st) ==>
           var e := Flow(b, st, no, fuel);
           AgreesThroughout(b, st, no, fuel) && (Goes(e) ==> AgreesThroughout(s, e.r.s, e.no, fuel - 1))
       case Frame(_, b) => AgreesThroughout(b, st, no, fuel)
       case TryFinally(b, f) =>
         var e := Flow(b, st, no, fuel);
         && AgreesThroughout(b, st, no, fuel)
         && (e.Ended? && e.r.Raised? ==> AgreesThroughout(f, e.r.s, e.r.no, fuel))
         && (e.Ended? && (e.r.Normal? || e.r.Left?) && e.no == 0 ==> AgreesThroughout(f, e.r.s, 0, fuel))
       case TryExcept(b, filter, h) =>
         var e := Flow(b, st, no, fuel);
         && AgreesThroughout(b, st, no, fuel)
         && (e.Ended? && e.r.Raised? && Accepts(filter(e.r.s, e.r.no).1) ==>
               AgreesThroughout(h, filter(e.r.s, e.r.no).0, e.r.no, fuel))
       case _ => true
  }

  /** For every proper program, of any nesting: the code agrees with the meaning in all that runs if and
      only if the meaning is clean. */
  lemma {:induction false} CleanExactly(s: Stmt, st: Store, no: nat, inTry: bool, fuel: nat)
    requires Proper(s, inTry)
    ensures AgreesThroughout(s, st, no, fuel) <==> Clean(s, st, no != 0, fuel)
    decreases fuel, s, 1
  {
    hide NumberLeft;
    match s
    case Seq(s1, s2) =>
      CleanExactly(s1, st, no, inTry, fuel);
      var e := Flow(s1, st, no, fuel);
      if Clean(s1, st, no != 0, fuel) {
        CleanAgrees(s1, st, no, inTry, fuel);
        if Goes(e) {
          LeftNumber(s1, st, no, fuel);
          CleanExactly(s2, e.r.s, e.no, inTry, fuel);
        }
      }
    case If(c, a, b) =>
      CleanExactly(if c(st) then a else b, st, no, inTry, fuel);
    case While(c, b) =>
      if fuel > 0 && c(st) {
        CleanExactly(b, st, no, false, fuel);
        var e := Flow(b, st, no, fuel);
        if Clean(b, st, no != 0, fuel) {
          CleanAgrees(b, st, no, false, fuel);
          if Goes(e) {
            LeftNumber(b, st, no, fuel);
            CleanExactly(s, e.r.s, e.no, inTry, fuel - 1);
          }
        }
      }
    case Frame(_, b) =>
      CleanExactly(b, st, no, false, fuel);
    case TryFinally(b, f) =>
      FinallyExactly(s, st, no, inTry, fuel);
    case TryExcept(b, filter, h) =>
      HandlerExactly(s, st, no, inTry, fuel);
    case _ =>
  }

  lemma LeftNumber(s: Stmt, st: Store, no: nat, fuel: nat)
    requires NumberLeft(s, st, no, fuel)
    ensures var e := Flow(s, st, no, fuel);
            e.Ended? && (e.r.Normal? || e.r.Left?) ==> e.no == if Handles(s, st, fuel) then 0 else no
  {
  }

  lemma {:induction false} HandlerExactly(s: Stmt, st: Store, no: nat, inTry: bool, fuel: nat)
    requires s.TryExcept? && Proper(s, inTry)
    ensures AgreesThroughout(s, st, no, fuel) <==> Clean(s, st, no != 0, fuel)
    decreases fuel, s, 0
  {
    var TryExcept(b, filter, h) := s;
    CleanExactly(b, st, no, true, fuel);
    if Clean(b, st, no != 0, fuel) {
      CleanAgrees(b, st, no, true, fuel);
      var e := Flow(b, st, no, fuel);
      if e.r.Raised? && Accepts(filter(e.r.s, e.r.no).1) {
        RaisedSet(b, st, no, true, fuel);
        CleanExactly(h, filter(e.r.s, e.r.no).0, e.r.no, false, fuel);
        if Clean(h, filter(e.r.s, e.r.no).0, true, fuel) {
          CleanAgrees(h, filter(e.r.s, e.r.no).0, e.r.no, false, fuel);
        }
      }
    }
  }

  lemma {:induction false} FinallyExactly(s: Stmt, st: Store, no: nat, inTry: bool, fuel: nat)
    requires s.TryFinally? && Proper(s, inTry)
    ensures AgreesThroughout(s, st, no, fuel) <==> Clean(s, st, no != 0, fuel)
    decreases fuel, s, 0
  {
    var TryFinally(b, f) := s;
    CleanExactly(b, st, no, true, fuel);
    if Clean(b, st, no != 0, fuel) {
      CleanAgrees(b, st, no, true, fuel);
      var e := Flow(b, st, no, fuel);
      if e.r.Raised? || ((e.r.Normal? || e.r.Left?) && e.no == 0) {
        var no' := if e.r.Raised? then e.r.no else 0;
        RaisedSet(b, st, no, true, fuel);
        CleanExactly(f, e.r.s, no', false, fuel);
        if Clean(f, e.r.s, no' != 0, fuel) {
          CleanAgrees(f, e.r.s, no', false, fuel);
          NothingToLeave(f, e.r.s, no', fuel);
        }
      }
    }
  }

  // ---- programs that are clean whatever they compute ----

  /** No try block anywhere. */
  predicate Plain(s: Stmt) {
    match s
    case Seq(s1, s2) => Plain(s1) && Plain(s2)
    case If(_, a, b) => Plain(a) && Plain(b)
    case While(_, b) => Plain(b)
    case Frame(_, b) => Plain(b)
    case TryFinally(_, _) => false
    case TryExcept(_, _, _) => false
    case _ => true
  }

  /** A finally body holds no try block, and a handler (`busy`) holds no finally block. */
  predicate Sheltered(s: Stmt, busy: bool) {
    match s
    case Seq(s1, s2) => Sheltered(s1, busy) && Sheltered(s2, busy)
    case If(_, a, b) => Sheltered(a, busy) && Sheltered(b, busy)
    case While(_, b) => Sheltered(b, busy)
    case Frame(_, b) => Sheltered(b, busy)
    case TryFinally(b, f) => !busy && Sheltered(b, false) && Plain(f)
    case TryExcept(b, _, h) => Sheltered(b, busy) && Sheltered(h, true)
    case _ => true
  }

  lemma {:induction false} PlainClean(s: Stmt, st: Store, busy: bool, fuel: nat)
    requires Plain(s)
    ensures Clean(s, st, busy, fuel) && !Handles(s, st, fuel)
    decreases fuel, s
  {
    match s
    case Seq(s1, s2) =>
      PlainClean(s1, st, busy, fuel);
      if Exec(s1, st, fuel).Normal? {
        PlainClean(s2, Exec(s1, st, fuel).s, busy, fuel);
      }
    case If(c, a, b) => PlainClean(if c(st) then a else b, st, busy, fuel);
    case While(c, b) =>
      if fuel > 0 && c(st) {
        PlainClean(b, st, busy, fuel);
        if Exec(b, st, fuel).Normal? {
          PlainClean(s, Exec(b, st, fuel).s, busy, fuel - 1);
        }
      }
    case Frame(_, b) => PlainClean(b, st, busy, fuel);
    case _ =>
  }

  lemma {:induction false} ShelteredClean(s: Stmt, st: Store, busy: bool, number: bool, fuel: nat)
    requires Sheltered(s, busy) && (number ==> busy)
    ensures Clean(s, st, number, fuel)
    decreases fuel, s
  {
    match s
    case Seq(s1, s2) =>
      ShelteredClean(s1, st, busy, number, fuel);
      if Exec(s1, st, fuel).Normal? {
        ShelteredClean(s2, Exec(s1, st, fuel).s, busy, number && !Handles(s1, st, fuel), fuel);
      }
    case If(c, a, b) => ShelteredClean(if c(st) then a else b, st, busy, number, fuel);
    case While(c, b) =>
      if fuel > 0 && c(st) {
        ShelteredClean(b, st, busy, number, fuel);
        if Exec(b, st, fuel).Normal? {
          ShelteredClean(s, Exec(b, st, fuel).s, busy, number && !Handles(b, st, fuel), fuel - 1);
        }
      }
    case Frame(_, b) => ShelteredClean(b, st, busy, number, fuel);
    case TryFinally(b, f) =>
      ShelteredClean(b, st, false, false, fuel);
      var r := Exec(b, st, fuel);
      if r.Normal? || r.Left? || r.Raised? {
        PlainClean(f, r.s, r.Raised?, fuel);
      }
    case TryExcept(b, filter, h) =>
      ShelteredClean(b, st, busy, number, fuel);
      var r := Exec(b, st, fuel);
      if r.Raised? {
        ShelteredClean(h, filter(r.s, r.no).0, true, true, fuel);
      }
    case _ =>
  }
}

/** The futex-based mutex as a protocol of any number of threads. Every atomic operation on the
    futex word, and every step of the kernel call, is one event; a run is any sequence of
    enabled events, so all interleavings are covered. */
module Mutex {

  const KE_OK: int := 0
  const KE_TIMEDOUT: int := -4
  const KE_WOULDBLOCK: int := -27
  const KE_AGAIN: int := -38

  type Tid = nat

  datatype Option<T> = None | Some(value: T)

  /** Where a thread is. */
  datatype Pc =
    | Out                          // in no call, holding nothing
    | Try(wait: bool)              // at the compare-exchange of kmutex_trylock, called by kmutex_timedlock if `wait`
    | Tried(wait: bool, err: int)  // kmutex_trylock has answered
    | Recv                         // about to call kfutex_cmd(KFUTEX_RECVIF(KFUTEX_NOT_EQUAL), 0)
    | Locked                       // in the kernel, with the futex's signal locked
    | Loaded(seen: nat)            // ... and the futex word loaded
    | Waiting                      // on the futex's wait queue
    | Received(err: int)           // kfutex_cmd has answered
    | Back(err: int)               // the lock call has returned; the mutex is held if that was KE_OK
    | Sending                      // kmutex_unlock has cleared the word, about to call kfutex_sendone
    | Failed                       // kmutex_unlock's assertion has fired

  /** `owner` is the thread whose compare-exchange last set the word and that has not cleared it since. */
  datatype State = State(word: nat, signal: Option<Tid>, owner: Option<Tid>, pcs: map<Tid, Pc>)

  datatype Event =
    | Call(t: Tid, wait: bool)
    | CmpXch(t: Tid)
    | Test(t: Tid)
    | Enter(t: Tid)
    | Load(t: Tid)
    | Decide(t: Tid)
    | Refuse(t: Tid, err: int)     // kfutex_cmd fails before it waits
    | Expire(t: Tid)               // the timeout passes
    | Spurious(t: Tid)             // woken for no reason
    | Retest(t: Tid)
    | Dismiss(t: Tid)              // the caller has seen the lock call fail
    | Unlock(t: Tid)
    | Wake(t: Tid, w: Tid)
    | WakeNone(t: Tid)

  /** The condition of kmutex_timedlock's loop on what kfutex_cmd answered. */
  predicate Retries(err: int) {
    err >= 0 || err == KE_AGAIN
  }

  predicate Enabled(s: State, e: Event) {
    && e.t in s.pcs
    && var pc := s.pcs[e.t];
       match e
       case Call(_, _) => pc == Out
       case CmpXch(_) => pc.Try?
       case Test(_) => pc.Tried?
       case Enter(_) => pc == Recv && s.signal == None
       case Load(_) => pc == Locked
       case Decide(_) => pc.Loaded?
       case Refuse(_, err) => pc == Recv && err < 0 && err != KE_AGAIN
       case Expire(_) => pc == Waiting
       case Spurious(_) => pc == Waiting
       case Retest(_) => pc.Received?
       case Dismiss(_) => pc.Back? && pc.err != KE_OK
       case Unlock(_) => pc == Back(KE_OK)
       case Wake(_, w) => pc == Sending && s.signal == None && w in s.pcs && s.pcs[w] == Waiting
       case WakeNone(_) => pc == Sending && s.signal == None && forall w :: w in s.pcs ==> s.pcs[w] != Waiting
  }

  function Goto(s: State, t: Tid, pc: Pc): State {
    s.(pcs := s.pcs[t := pc])
  }

  function Apply(s: State, e: Event): State
    requires Enabled(s, e)
  {
    var pc := s.pcs[e.t];
    match e
    case Call(t, wait) => Goto(s, t, Try(wait))
    case CmpXch(t) =>
      if s.word == 0 then Goto(s, t, Tried(pc.wait, KE_OK)).(word := 1, owner := Some(t))
      else Goto(s, t, Tried(pc.wait, KE_WOULDBLOCK))
    case Test(t) => Goto(s, t, if pc.err == KE_WOULDBLOCK && pc.wait then Recv else Back(pc.err))
    case Enter(t) => Goto(s, t, Locked).(signal := Some(t))
    case Load(t) => Goto(s, t, Loaded(s.word))
    case Decide(t) => Goto(s, t, if pc.seen != 0 then Waiting else Received(KE_AGAIN)).(signal := None)
    case Refuse(t, err) => Goto(s, t, Received(err))
    case Expire(t) => Goto(s, t, Received(KE_TIMEDOUT))
    case Spurious(t) => Goto(s, t, Received(KE_OK))
    case Retest(t) => Goto(s, t, if Retries(pc.err) then Try(true) else Back(pc.err))
    case Dismiss(t) => Goto(s, t, Out)
    case Unlock(t) =>
      if s.word == 1 then Goto(s, t, Sending).(word := 0, owner := None) else Goto(s, t, Failed)
    case Wake(t, w) => Goto(Goto(s, w, Received(KE_OK)), t, Out)
    case WakeNone(t) => Goto(s, t, Out)
  }

  // ---- runs ----

  ghost predicate Init(s: State) {
    s.word == 0 && s.signal == None && s.owner == None && forall t :: t in s.pcs ==> s.pcs[t] == Out
  }

  ghost predicate Legal(s: State, es: seq<Event>)
    decreases es
  {
    es == [] || (Enabled(s, es[0]) && Legal(Apply(s, es[0]), es[1..]))
  }

  function Run(s: State, es: seq<Event>): State
    requires Legal(s, es)
    decreases es
  {
    if es == [] then s else Run(Apply(s, es[0]), es[1..])
  }

  // ---- invariants ----

  /** The lock call of a thread at `pc` has succeeded and its unlock has not begun. */
  predicate Holds(pc: Pc) {
    (pc.Tried? && pc.err == KE_OK) || pc == Back(KE_OK)
  }

  predicate InSignal(pc: Pc) {
    pc == Locked || pc.Loaded?
  }

  /** About to wait, or waiting. */
  predicate Sleepy(pc: Pc) {
    pc == Waiting || (pc.Loaded? && pc.seen != 0)
  }

  /** About to send a wake, or about to retry the lock. */
  predicate Awake(pc: Pc) {
    pc == Sending || pc.Try? || (pc.Received? && Retries(pc.err))
  }

  /** The word is 1 exactly while some thread holds the mutex, and then one thread does. */
  ghost predicate Exclusive(s: State) {
    && s.word == (if s.owner.Some? then 1 else 0)
    && (s.owner.Some? ==> s.owner.value in s.pcs)
    && (forall t :: t in s.pcs ==> (Holds(s.pcs[t]) <==> s.owner == Some(t)))
  }

  ghost predicate SignalLocked(s: State) {
    && (s.signal.Some? ==> s.signal.value in s.pcs)
    && (forall t :: t in s.pcs ==> (InSignal(s.pcs[t]) <==> s.signal == Some(t)))
  }

  ghost predicate AnySleepy(s: State) {
    exists w :: w in s.pcs && Sleepy(s.pcs[w])
  }

  ghost predicate AnyAwake(s: State) {
    exists t :: t in s.pcs && Awake(s.pcs[t])
  }

  /** While the mutex is free and a thread waits for it, another thread will wake it or take the lock. */
  ghost predicate NoLostWake(s: State) {
    s.word == 0 && AnySleepy(s) ==> AnyAwake(s)
  }

  ghost predicate Inv(s: State) {
    && Exclusive(s) && SignalLocked(s) && NoLostWake(s)
    && (forall t :: t in s.pcs ==> s.pcs[t] != Failed)
  }

  lemma InitInv(s: State)
    requires Init(s)
    ensures Inv(s)
  {
  }

  lemma ApplyExclusive(s: State, e: Event)
    requires Inv(s) && Enabled(s, e)
    ensures Exclusive(Apply(s, e))
  {
    hide NoLostWake, SignalLocked;
    assert forall t :: t in s.pcs && t != e.t && !e.Wake? ==> Apply(s, e).pcs[t] == s.pcs[t];
  }

  lemma ApplySignal(s: State, e: Event)
    requires Inv(s) && Enabled(s, e)
    ensures SignalLocked(Apply(s, e))
  {
    hide NoLostWake, Exclusive;
  }

  /** The assertion in kmutex_unlock holds: whoever unlocks holds the lock, so the word is 1. */
  lemma ApplySound(s: State, e: Event)
    requires Inv(s) && Enabled(s, e)
    ensures forall t :: t in Apply(s, e).pcs ==> Apply(s, e).pcs[t] != Failed
  {
    hide NoLostWake, SignalLocked;
    if e.Unlock? {
      assert Holds(s.pcs[e.t]);
    }
  }

  lemma ApplyWake(s: State, e: Event)
    requires Inv(s) && Enabled(s, e)
    ensures NoLostWake(Apply(s, e))
  {
    var s' := Apply(s, e);
    if s'.word == 0 && AnySleepy(s') {
      if s.word != 0 {
        assert s'.pcs[e.t] == Sending;
      } else {
        var w :| w in s'.pcs && Sleepy(s'.pcs[w]);
        assert Sleepy(s.pcs[w]);
        var a :| a in s.pcs && Awake(s.pcs[a]);
        var b := if e.Wake? then e.w else a;
        assert Awake(s'.pcs[b]);
      }
    }
  }

  lemma ApplyInv(s: State, e: Event)
    requires Inv(s) && Enabled(s, e)
    ensures Inv(Apply(s, e))
  {
    hide Enabled, Apply, Exclusive, SignalLocked, NoLostWake;
    ApplyExclusive(s, e);
    ApplySignal(s, e);
    ApplySound(s, e);
    ApplyWake(s, e);
  }

  lemma {:induction false} RunInv(s: State, es: seq<Event>)
    requires Inv(s) && Legal(s, es)
    ensures Inv(Run(s, es))
    decreases es
  {
    hide Inv;
    if es != [] {
      ApplyInv(s, es[0]);
      RunInv(Apply(s, es[0]), es[1..]);
    }
  }

  /** In every state of every run: the word is 0 or 1; it is 1 exactly when some thread holds the
      mutex; no two threads hold it; a lock call that has returned has returned KE_OK exactly if its
      caller set the word and has not cleared it; and no unlock has failed its assertion. */
  lemma MutualExclusion(s: State, es: seq<Event>)
    requires Init(s) && Legal(s, es)
    ensures var s' := Run(s, es);
            && (s'.word == 0 || s'.word == 1)
            && (s'.word == 1 <==> exists t :: t in s'.pcs && Holds(s'.pcs[t]))
            && (forall t, u :: t in s'.pcs && u in s'.pcs && Holds(s'.pcs[t]) && Holds(s'.pcs[u]) ==> t == u)
            && (forall t :: t in s'.pcs && s'.pcs[t].Back? ==> (s'.pcs[t].err == KE_OK <==> s'.owner == Some(t)))
            && (forall t :: t in s'.pcs ==> s'.pcs[t] != Failed)
  {
    InitInv(s);
    RunInv(s, es);
    var s' := Run(s, es);
    if s'.word == 1 {
      assert Holds(s'.pcs[s'.owner.value]);
    }
  }

  /** In every state of every run in which the mutex is free and a thread waits, another thread is
      about to send a wake or to retry the lock. */
  lemma NoLostWakeup(s: State, es: seq<Event>, w: Tid)
    requires Init(s) && Legal(s, es)
    requires Run(s, es).word == 0 && w in Run(s, es).pcs && Run(s, es).pcs[w] == Waiting
    ensures exists t :: t in Run(s, es).pcs && t != w && Awake(Run(s, es).pcs[t])
  {
    InitInv(s);
    RunInv(s, es);
    assert Sleepy(Run(s, es).pcs[w]);
  }

  // ---- progress ----

  /** An event by which a thread goes on with a call that it is in. */
  predicate GoesOn(e: Event) {
    e.CmpXch? || e.Retest? || e.Wake? || e.Load? || e.Decide?
  }

  lemma {:induction false} LegalAppend(s: State, es: seq<Event>, e: Event)
    requires Legal(s, es) && Enabled(Run(s, es), e)
    ensures Legal(s, es + [e]) && Run(s, es + [e]) == Apply(Run(s, es), e)
    decreases es
  {
    if es == [] {
      assert [e][1..] == [];
      assert es + [e] == [e];
    } else {
      assert (es + [e])[1..] == es[1..] + [e];
      LegalAppend(Apply(s, es[0]), es[1..], e);
    }
  }

  lemma NoEvents(s: State)
    ensures Legal(s, []) && Run(s, []) == s
  {
  }

  lemma ProgressFrom(s: State, w: Tid) returns (es: seq<Event>)
    requires Inv(s) && s.word == 0 && w in s.pcs && s.pcs[w] == Waiting
    ensures Legal(s, es) && |es| <= 5 && (forall i :: 0 <= i < |es| ==> GoesOn(es[i]))
    ensures Run(s, es).word == 1
  {
    hide Legal, Run;
    NoEvents(s);
    assert Sleepy(s.pcs[w]);
    var a :| a in s.pcs && Awake(s.pcs[a]);
    es := [];
    var x := s;
    if s.pcs[a] == Sending {
      if s.signal.Some? {
        var u := s.signal.value;
        if x.pcs[u] == Locked {
          LegalAppend(s, es, Load(u));
          es, x := es + [Load(u)], Apply(x, Load(u));
        }
        LegalAppend(s, es, Decide(u));
        es, x := es + [Decide(u)], Apply(x, Decide(u));
      }
      LegalAppend(s, es, Wake(a, w));
      es, x := es + [Wake(a, w)], Apply(x, Wake(a, w));
      a := w;
    }
    if x.pcs[a].Received? {
      LegalAppend(s, es, Retest(a));
      es, x := es + [Retest(a)], Apply(x, Retest(a));
    }
    LegalAppend(s, es, CmpXch(a));
    es, x := es + [CmpXch(a)], Apply(x, CmpXch(a));
  }

  /** Whatever has happened before, a free mutex with a waiting thread can be taken again within five
      steps of the threads that are in calls already: no new call is needed, and no timeout. */
  lemma Progress(s: State, before: seq<Event>, w: Tid) returns (es: seq<Event>)
    requires Init(s) && Legal(s, before)
    requires Run(s, before).word == 0 && w in Run(s, before).pcs && Run(s, before).pcs[w] == Waiting
    ensures Legal(Run(s, before), es) && |es| <= 5 && (forall i :: 0 <= i < |es| ==> GoesOn(es[i]))
    ensures Run(Run(s, before), es).word == 1
  {
    hide Inv, Enabled, Apply;
    InitInv(s);
    RunInv(s, before);
    es := ProgressFrom(Run(s, before), w);
  }
}

/** What one call of kmutex_trylock, kmutex_timedlock or kmutex_unlock does and answers, whatever the other
    threads do in between. Error codes are written as the numbers that the caller sees. */
module MutexCalls {
  import opened Mutex

  lemma {:induction false} LegalLast(s: State, es: seq<Event>)
    requires Legal(s, es) && es != []
    ensures var before := es[..|es| - 1];
            && Legal(s, before) && Enabled(Run(s, before), es[|es| - 1])
            && Run(s, es) == Apply(Run(s, before), es[|es| - 1])
    decreases es
  {
    hide Enabled, Apply;
    if |es| == 1 {
      assert es[..0] == [] && es[1..] == [];
    } else {
      LegalLast(Apply(s, es[0]), es[1..]);
      assert es[1..][..|es| - 2] == es[..|es| - 1][1..];
    }
  }

  /** What other threads do to a thread is at most to wake it. */
  lemma {:induction false} Untouched(s: State, es: seq<Event>, t: Tid)
    requires Legal(s, es) && t in s.pcs && s.pcs[t] != Waiting && forall i :: 0 <= i < |es| ==> es[i].t != t
    ensures t in Run(s, es).pcs && Run(s, es).pcs[t] == s.pcs[t]
    decreases es
  {
    if es != [] {
      assert es[0].t != t;
      Untouched(Apply(s, es[0]), es[1..], t);
    }
  }

  // ---- two steps of a call in a row ----

  /** The thread does `e`, then other threads do `es`, then the thread does `e'`. */
  ghost predicate InARow(s: State, e: Event, es: seq<Event>, e': Event) {
    && Enabled(s, e) && Legal(Apply(s, e), es) && (forall i :: 0 <= i < |es| ==> es[i].t != e.t)
    && Enabled(Run(Apply(s, e), es), e') && e'.t == e.t
  }

  /** The loop of kmutex_timedlock over every interleaving. A compare-exchange that finds 0 ends the call with
      KE_OK; one that finds the mutex taken makes kmutex_trylock answer KE_WOULDBLOCK and
      kmutex_timedlock go on to the futex call. The futex call waits if and only if it loads a value other
      than 0, and answers KE_AGAIN otherwise, after which the lock is tried again, as after a wake. A timeout ends
      the call with KE_TIMEDOUT, and any other failure of the futex call ends it with that error. */
  lemma LockSteps(s: State, e: Event, es: seq<Event>, e': Event)
    requires InARow(s, e, es, e')
    ensures var pc, pc' := s.pcs[e.t], Apply(Run(Apply(s, e), es), e').pcs[e.t];
            && (e.CmpXch? && s.word == 0 ==> pc' == Back(0))
            && (e.CmpXch? && s.word != 0 ==> pc' == if pc.wait then Recv else Back(-27))
            && (e.Test? && pc.wait && pc.err == -27 ==> e'.Enter? || e'.Refuse?)
            && (e.Load? ==> pc' == if s.word != 0 then Waiting else Received(-38))
            && (e.Decide? && pc.seen == 0 ==> pc' == Try(true))
            && (e.Spurious? ==> pc' == Try(true))
            && (e.Expire? ==> pc' == Back(-4))
            && (e.Refuse? ==> pc' == Back(e.err))
  {
    hide Legal;
    if Apply(s, e).pcs[e.t] != Waiting {
      Untouched(Apply(s, e), es, e.t);
    }
  }

  /** A thread that is woken tries the lock again with its next step. */
  lemma WokenRetries(s: State, u: Tid, t: Tid, es: seq<Event>, e: Event)
    requires Enabled(s, Wake(u, t)) && u != t
    requires Legal(Apply(s, Wake(u, t)), es) && (forall i :: 0 <= i < |es| ==> es[i].t != t)
    requires Enabled(Run(Apply(s, Wake(u, t)), es), e) && e.t == t
    ensures Apply(Run(Apply(s, Wake(u, t)), es), e).pcs[t] == Try(true)
  {
    hide Legal;
    Untouched(Apply(s, Wake(u, t)), es, t);
  }

  /** After kmutex_unlock has cleared the word, its next step is its last: it wakes one thread if and only if one
      waits then, and changes nothing of any other thread. */
  lemma UnlockWakesOne(s: State, t: Tid, es: seq<Event>, e: Event)
    requires Inv(s) && InARow(s, Unlock(t), es, e)
    ensures var x := Run(Apply(s, Unlock(t)), es);
            var y := Apply(x, e);
            && y.pcs[t] == Out && y.word == x.word
            && (e.Wake? <==> exists w :: w in x.pcs && x.pcs[w] == Waiting)
            && (e.Wake? ==> x.pcs[e.w] == Waiting && y.pcs[e.w] == Received(0))
            && (forall u :: u in x.pcs && u != t && !(e.Wake? && u == e.w) ==> y.pcs[u] == x.pcs[u])
  {
    hide Legal;
    assert Holds(s.pcs[t]);
    assert Apply(s, Unlock(t)).pcs[t] == Sending;
    Untouched(Apply(s, Unlock(t)), es, t);
  }

  /** What callers may do, whatever the others do: begin a call in none, unlock what they hold, and go on in no call
      after a lock call that failed, with the mutex as it was. And what the futex call may do to its caller: fail with
      any error but KE_AGAIN before it waits, and then time out or wake it for no reason. */
  lemma AtAnyTime(s: State, t: Tid, wait: bool, err: int)
    requires t in s.pcs && err < 0 && err != -38
    ensures s.pcs[t] == Out ==> Enabled(s, Call(t, wait))
    ensures s.pcs[t] == Back(0) ==> Enabled(s, Unlock(t))
    ensures s.pcs[t] == Back(err) ==> Enabled(s, Dismiss(t)) && Apply(s, Dismiss(t)) == s.(pcs := s.pcs[t := Out])
    ensures s.pcs[t] == Recv ==> Enabled(s, Refuse(t, err))
    ensures s.pcs[t] == Waiting ==> Enabled(s, Expire(t)) && Enabled(s, Spurious(t))
  {
  }

  /** In every state of every run, a thread that is in a call can do its next step, or the thread that has the
      futex's signal can. */
  lemma NeverStuck(s: State, es: seq<Event>, t: Tid) returns (e: Event)
    requires Init(s) && Legal(s, es) && t in Run(s, es).pcs && Run(s, es).pcs[t] != Out
    ensures Enabled(Run(s, es), e) && !e.Call? && (e.t == t || Run(s, es).signal == Some(e.t))
  {
    hide Legal, Run, Init, Exclusive, NoLostWake;
    InitInv(s);
    RunInv(s, es);
    var x := Run(s, es);
    e := NextOf(x, t);
  }

  lemma NextOf(x: State, t: Tid) returns (e: Event)
    requires SignalLocked(x) && t in x.pcs && x.pcs[t] != Out && x.pcs[t] != Failed
    ensures Enabled(x, e) && !e.Call? && (e.t == t || x.signal == Some(e.t))
  {
    match x.pcs[t]
    case Try(_) => e := CmpXch(t);
    case Tried(_, _) => e := Test(t);
    case Recv => e := if x.signal == None then Enter(t) else SignalNext(x);
    case Locked => e := Load(t);
    case Loaded(_) => e := Decide(t);
    case Waiting => e := Spurious(t);
    case Received(_) => e := Retest(t);
    case Back(err) => e := if err == KE_OK then Unlock(t) else Dismiss(t);
    case Sending =>
      if x.signal != None {
        e := SignalNext(x);
      } else if w :| w in x.pcs && x.pcs[w] == Waiting {
        e := Wake(t, w);
      } else {
        e := WakeNone(t);
      }
  }

  /** The next step of the thread that has the futex's signal. */
  ghost function SignalNext(x: State): (e: Event)
    requires SignalLocked(x) && x.signal.Some?
    ensures Enabled(x, e) && x.signal == Some(e.t) && !e.Call?
  {
    var u := x.signal.value;
    assert InSignal(x.pcs[u]);
    if x.pcs[u] == Locked then Load(u) else Decide(u)
  }

  // ---- a whole call ----

  /** No event in `es` begins or ends a call of `t`. */
  predicate OneCall(es: seq<Event>, t: Tid) {
    forall i :: 0 <= i < |es| && es[i].t == t ==> !es[i].Call? && !es[i].Dismiss? && !es[i].Unlock?
  }

  /** The events of `t`. */
  function Own(es: seq<Event>, t: Tid): nat {
    if es == [] then 0 else Own(es[..|es| - 1], t) + if es[|es| - 1].t == t then 1 else 0
  }

  /** The `k`th event is a compare-exchange of `t` that finds `word`. */
  ghost predicate Finds(s: State, es: seq<Event>, t: Tid, k: nat, word: nat) {
    k < |es| && es[k] == CmpXch(t) && Legal(s, es[..k]) && Run(s, es[..k]).word == word
  }

  /** The `k`th event is the futex call of `t` failing with `err`: refused, or by its timeout. */
  predicate FutexFails(es: seq<Event>, t: Tid, k: nat, err: int) {
    k < |es| && (es[k] == Refuse(t, err) || (es[k] == Expire(t) && err == -4))
  }

  ghost predicate Found(s: State, es: seq<Event>, t: Tid, word: nat) {
    exists k: nat :: Finds(s, es, t, k, word)
  }

  ghost predicate FutexFailed(es: seq<Event>, t: Tid, err: int) {
    exists k: nat :: FutexFails(es, t, k, err)
  }

  /** The last event is the compare-exchange of `t`. */
  lemma FoundNow(s: State, es: seq<Event>, t: Tid)
    requires Legal(s, es) && es != [] && es[|es| - 1] == CmpXch(t)
    ensures Legal(s, es[..|es| - 1]) && Found(s, es, t, Run(s, es[..|es| - 1]).word)
  {
    LegalLast(s, es);
    assert Finds(s, es, t, |es| - 1, Run(s, es[..|es| - 1]).word);
  }

  lemma FoundBefore(s: State, es: seq<Event>, t: Tid, word: nat)
    requires es != [] && Found(s, es[..|es| - 1], t, word)
    ensures Found(s, es, t, word)
  {
    var k: nat :| Finds(s, es[..|es| - 1], t, k, word);
    assert es[..|es| - 1][..k] == es[..k];
    assert Finds(s, es, t, k, word);
  }

  lemma FailedBefore(es: seq<Event>, t: Tid, err: int)
    requires es != [] && FutexFailed(es[..|es| - 1], t, err)
    ensures FutexFailed(es, t, err)
  {
    var k: nat :| FutexFails(es[..|es| - 1], t, k, err);
    assert FutexFails(es, t, k, err);
  }

  /** Where a kmutex_trylock call of `t` is after `es`: it is over after two steps of its thread, and never on
      its way to the futex; it has answered KE_OK if its compare-exchange found 0, and KE_WOULDBLOCK otherwise. */
  ghost predicate TryLockAt(s: State, es: seq<Event>, t: Tid, pc: Pc) {
    if Own(es, t) == 0 then pc == Try(false)
    else
      && Own(es, t) <= 2
      && exists word: nat ::
           && Found(s, es, t, word)
           && var err := if word == 0 then 0 else -27;
              pc == if Own(es, t) == 1 then Tried(false, err) else Back(err)
  }

  lemma {:induction false} TryLockFrom(s: State, es: seq<Event>, t: Tid)
    requires Legal(s, es) && OneCall(es, t) && t in s.pcs && s.pcs[t] == Try(false)
    ensures t in Run(s, es).pcs && TryLockAt(s, es, t, Run(s, es).pcs[t])
    decreases es
  {
    hide Found;
    if es != [] {
      var before, e := es[..|es| - 1], es[|es| - 1];
      LegalLast(s, es);
      TryLockFrom(s, before, t);
      if Own(before, t) > 0 {
        var word: nat :|
          && Found(s, before, t, word)
          && var err := if word == 0 then 0 else -27;
             Run(s, before).pcs[t] == if Own(before, t) == 1 then Tried(false, err) else Back(err);
        FoundBefore(s, es, t, word);
      } else if e.t == t {
        FoundNow(s, es, t);
      }
    }
  }

  /** So it is at every point of every kmutex_trylock call, from its beginning on. */
  lemma TryLockAnswer(s: State, es: seq<Event>, t: Tid)
    requires Enabled(s, Call(t, false)) && Legal(Apply(s, Call(t, false)), es) && OneCall(es, t)
    ensures var x := Apply(s, Call(t, false)); t in Run(x, es).pcs && TryLockAt(x, es, t, Run(x, es).pcs[t])
    ensures Apply(s, Call(t, false)).word == s.word
  {
    TryLockFrom(Apply(s, Call(t, false)), es, t);
  }

  /** Where a kmutex_timedlock call of `t` can be after `es`, and why. */
  ghost predicate LockAt(s: State, es: seq<Event>, t: Tid, pc: Pc) {
    match pc
    case Try(wait) => wait
    case Tried(wait, err) => wait && (err == -27 || (err == 0 && Found(s, es, t, 0)))
    case Received(err) => err == 0 || err == -38 || (err < 0 && FutexFailed(es, t, err))
    case Back(err) => (err == 0 && Found(s, es, t, 0)) || (err < 0 && err != -38 && FutexFailed(es, t, err))
    case Recv => true
    case Locked => true
    case Loaded(_) => true
    case Waiting => true
    case _ => false
  }

  lemma {:induction false} LockFrom(s: State, es: seq<Event>, t: Tid)
    requires Legal(s, es) && OneCall(es, t) && t in s.pcs && s.pcs[t] == Try(true)
    ensures t in Run(s, es).pcs && LockAt(s, es, t, Run(s, es).pcs[t])
    decreases es
  {
    hide Found, FutexFailed;
    if es != [] {
      var before, e := es[..|es| - 1], es[|es| - 1];
      LegalLast(s, es);
      LockFrom(s, before, t);
      if Found(s, before, t, 0) {
        FoundBefore(s, es, t, 0);
      }
      var pc := Run(s, before).pcs[t];
      if (pc.Received? || pc.Back?) && FutexFailed(before, t, pc.err) {
        FailedBefore(es, t, pc.err);
      }
      if e == CmpXch(t) {
        FoundNow(s, es, t);
      }
      if e.t == t && (e.Refuse? || e.Expire?) {
        FailedNow(es, t, if e.Refuse? then e.err else -4);
      }
    }
  }

  /** kmutex_timedlock, from the beginning of the call on: whatever mix of wakes, retries and timeouts occurred, the
      call answers KE_OK only after a compare-exchange of its own that found 0, and any other answer is one
      with which the futex call failed in this call, never KE_AGAIN; no other answer is given. */
  lemma LockAnswer(s: State, es: seq<Event>, t: Tid)
    requires Enabled(s, Call(t, true)) && Legal(Apply(s, Call(t, true)), es) && OneCall(es, t)
    ensures var x := Apply(s, Call(t, true)); t in Run(x, es).pcs && LockAt(x, es, t, Run(x, es).pcs[t])
    ensures Apply(s, Call(t, true)).word == s.word
  {
    LockFrom(Apply(s, Call(t, true)), es, t);
  }

  lemma FailedNow(es: seq<Event>, t: Tid, err: int)
    requires es != [] && (es[|es| - 1] == Refuse(t, err) || (es[|es| - 1] == Expire(t) && err == -4))
    ensures FutexFailed(es, t, err)
  {
    assert FutexFails(es, t, |es| - 1, err);
  }
}

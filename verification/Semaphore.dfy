/** The semaphore's ticket counter as a protocol of any number of threads: ksem_tryacquire takes a
    ticket with a compare-exchange retry loop, ksem_release adds tickets with one atomic addition.
    Every access to the counter is one event, and a run is any sequence of enabled events. */
module Semaphore {

  const KE_OK: int := 0
  const KE_WOULDBLOCK: int := -27

  /** The counter is an unsigned 32-bit word. */
  const WORD: int := 0x1_0000_0000

  type Tid = nat

  datatype Pc =
    | Out                  // in no call
    | Loading              // at the load of ksem_tryacquire's loop
    | Loaded(seen: int)    // at its compare-exchange
    | Done(err: int)       // ksem_tryacquire has its answer
    | Sending              // ksem_release has added the tickets, about to call kfutex_sendn

  datatype State = State(count: int, pcs: map<Tid, Pc>)

  datatype Event =
    | Call(t: Tid)
    | Load(t: Tid)
    | CmpXch(t: Tid)
    | Return(t: Tid)
    | Release(t: Tid, n: int)
    | Send(t: Tid)

  predicate Enabled(s: State, e: Event) {
    && e.t in s.pcs
    && var pc := s.pcs[e.t];
       match e
       case Call(_) => pc == Out
       case Load(_) => pc == Loading
       case CmpXch(_) => pc.Loaded?
       case Return(_) => pc.Done?
       case Release(_, n) => pc == Out && 0 <= n < WORD
       case Send(_) => pc == Sending
  }

  function Apply(s: State, e: Event): State
    requires Enabled(s, e)
  {
    var pc := s.pcs[e.t];
    match e
    case Call(t) => s.(pcs := s.pcs[t := Loading])
    case Load(t) => s.(pcs := s.pcs[t := if s.count == 0 then Done(KE_WOULDBLOCK) else Loaded(s.count)])
    case CmpXch(t) =>
      if s.count == pc.seen then State((pc.seen - 1) % WORD, s.pcs[t := Done(KE_OK)])
      else s.(pcs := s.pcs[t := Loading])
    case Return(t) => s.(pcs := s.pcs[t := Out])
    case Release(t, n) => State((s.count + n) % WORD, s.pcs[t := Sending])
    case Send(t) => s.(pcs := s.pcs[t := Out])
  }

  ghost predicate Legal(s: State, es: seq<Event>)
    decreases es
  {
    es == [] || (Enabled(s, es[0]) && Legal(Apply(s, es[0]), es[1..]))
  }

  function Run(s: State, es: seq<Event>): State
    requires Legal(s, es)
    decreases es
  {
    if es == [] then s else Run(Apply(s, es[0]), es[1..])
  }

  /** ksem_init with any number of tickets, before any call. */
  ghost predicate Init(s: State) {
    0 <= s.count < WORD && forall t :: t in s.pcs ==> s.pcs[t] == Out
  }

  // ---- what a run did, read off its events ----

  /** The tickets that were released. */
  function Released(es: seq<Event>): int {
    if es == [] then 0 else (if es[0].Release? then es[0].n else 0) + Released(es[1..])
  }

  /** In `s`, `e` is the step by which an acquire succeeds. */
  predicate Succeeds(s: State, e: Event)
    requires Enabled(s, e)
  {
    Apply(s, e).pcs[e.t] == Done(KE_OK) && s.pcs[e.t] != Done(KE_OK)
  }

  /** How often an acquire of a thread in `who` succeeded. */
  ghost function Acquired(s: State, es: seq<Event>, who: set<Tid>): nat
    requires Legal(s, es)
    decreases es
  {
    if es == [] then 0
    else (if es[0].t in who && Succeeds(s, es[0]) then 1 else 0) + Acquired(Apply(s, es[0]), es[1..], who)
  }

  /** How often a release carried the counter over its width. */
  ghost function Overflows(s: State, es: seq<Event>): nat
    requires Legal(s, es)
    decreases es
  {
    if es == [] then 0
    else (if es[0].Release? && s.count + es[0].n >= WORD then 1 else 0) + Overflows(Apply(s, es[0]), es[1..])
  }

  // ---- invariant ----

  ghost predicate Inv(s: State) {
    && 0 <= s.count < WORD
    && forall t :: t in s.pcs && s.pcs[t].Loaded? ==> 0 < s.pcs[t].seen < WORD
  }

  lemma ApplyInv(s: State, e: Event)
    requires Inv(s) && Enabled(s, e)
    ensures Inv(Apply(s, e))
    ensures var s' := Apply(s, e);
            s.count + (if e.Release? then e.n else 0)
            == s'.count + (if Succeeds(s, e) then 1 else 0)
               + (if e.Release? && s.count + e.n >= WORD then WORD else 0)
  {
  }

  /** Ticket conservation over every interleaving: the initial tickets and all released ones are in
      the counter, or were taken by a successful acquire, or were lost to an overflow of the counter,
      which loses 2^32 of them each time. */
  lemma {:induction false} Conservation(s: State, es: seq<Event>)
    requires Inv(s) && Legal(s, es)
    ensures Inv(Run(s, es))
    ensures s.count + Released(es)
            == Run(s, es).count + Acquired(s, es, s.pcs.Keys) + Overflows(s, es) * WORD
    decreases es
  {
    if es != [] {
      ApplyInv(s, es[0]);
      assert Apply(s, es[0]).pcs.Keys == s.pcs.Keys;
      Conservation(Apply(s, es[0]), es[1..]);
    }
  }

  /** Tickets are conserved exactly if no release found the counter too full. */
  lemma ConservedExactly(s: State, es: seq<Event>)
    requires Init(s) && Legal(s, es)
    ensures s.count + Released(es) == Run(s, es).count + Acquired(s, es, s.pcs.Keys)
            <==> Overflows(s, es) == 0
  {
    Conservation(s, es);
  }

  /** An overflow needs 2^32 tickets in all, so fewer are conserved whatever the interleaving. */
  lemma {:induction false} NoOverflow(s: State, es: seq<Event>)
    requires Inv(s) && Legal(s, es) && s.count + Released(es) < WORD
    ensures Overflows(s, es) == 0
    decreases es
  {
    if es != [] {
      ApplyInv(s, es[0]);
      ReleasedBounds(Apply(s, es[0]), es[1..]);
      NoOverflow(Apply(s, es[0]), es[1..]);
    }
  }

  lemma {:induction false} ReleasedBounds(s: State, es: seq<Event>)
    requires Legal(s, es)
    ensures Released(es) >= 0
    decreases es
  {
    if es != [] {
      ReleasedBounds(Apply(s, es[0]), es[1..]);
    }
  }

  // ---- one call ----

  /** Thread `t` begins no further call in `es`. */
  predicate OneCall(es: seq<Event>, t: Tid) {
    forall i :: 0 <= i < |es| && es[i].t == t ==> es[i].Load? || es[i].CmpXch?
  }

  /** From any point inside a ksem_tryacquire call to its answer, however often its loop retries: the
      call takes one ticket if the answer is KE_OK and none otherwise; the answer is one of the two;
      and it is KE_WOULDBLOCK only if the counter was 0 at an instant of the call. */
  lemma {:induction false} AnswerFrom(s: State, es: seq<Event>, t: Tid)
    requires Inv(s) && Legal(s, es) && OneCall(es, t)
    requires t in s.pcs && (s.pcs[t] == Loading || s.pcs[t].Loaded?)
    requires t in Run(s, es).pcs && Run(s, es).pcs[t].Done?
    ensures Run(s, es).pcs[t].err == KE_OK || Run(s, es).pcs[t].err == KE_WOULDBLOCK
    ensures Acquired(s, es, {t}) == if Run(s, es).pcs[t].err == KE_OK then 1 else 0
    ensures Run(s, es).pcs[t].err == KE_WOULDBLOCK ==>
              exists k :: 0 <= k < |es| && Legal(s, es[..k]) && Run(s, es[..k]).count == 0
    decreases es
  {
    var s' := Apply(s, es[0]);
    ApplyInv(s, es[0]);
    assert OneCall(es[1..], t);
    if s'.pcs[t].Done? {
      Answered(s', es[1..], t);
      if s'.pcs[t].err == KE_WOULDBLOCK {
        assert Legal(s, es[..0]) && Run(s, es[..0]).count == 0;
      }
    } else {
      AnswerFrom(s', es[1..], t);
      if Run(s, es).pcs[t].err == KE_WOULDBLOCK {
        var k :| 0 <= k < |es| - 1 && Legal(s', es[1..][..k]) && Run(s', es[1..][..k]).count == 0;
        assert es[..k + 1][1..] == es[1..][..k];
        assert Legal(s, es[..k + 1]) && Run(s, es[..k + 1]).count == 0;
      }
    }
  }

  /** So it is for every ksem_tryacquire call, from its beginning to its answer. */
  lemma CallAnswer(s: State, es: seq<Event>, t: Tid)
    requires Inv(s) && Enabled(s, Call(t)) && Legal(Apply(s, Call(t)), es) && OneCall(es, t)
    requires t in Run(Apply(s, Call(t)), es).pcs && Run(Apply(s, Call(t)), es).pcs[t].Done?
    ensures var x := Apply(s, Call(t));
            var err := Run(x, es).pcs[t].err;
            && (err == 0 || err == -27) && x.count == s.count
            && Acquired(x, es, {t}) == (if err == 0 then 1 else 0)
            && (err == -27 ==> exists k :: 0 <= k < |es| && Legal(x, es[..k]) && Run(x, es[..k]).count == 0)
  {
    AnswerFrom(Apply(s, Call(t)), es, t);
  }

  lemma {:induction false} Answered(s: State, es: seq<Event>, t: Tid)
    requires Legal(s, es) && OneCall(es, t)
    requires t in s.pcs && s.pcs[t].Done?
    ensures t in Run(s, es).pcs && Run(s, es).pcs[t] == s.pcs[t]
    ensures Acquired(s, es, {t}) == 0 && forall i :: 0 <= i < |es| ==> es[i].t != t
    decreases es
  {
    if es != [] {
      assert es[0].t != t;
      assert OneCall(es[1..], t);
      Answered(Apply(s, es[0]), es[1..], t);
      assert forall i :: 0 < i < |es| ==> es[i] == es[1..][i - 1];
    }
  }

  /** If the counter is 0 at a load of the call, the call ends there with KE_WOULDBLOCK: whatever happens after it,
      the answer stays, no ticket is taken by it and no step of the thread is left in the call. */
  lemma EmptyAnswers(s: State, es: seq<Event>, t: Tid)
    requires Enabled(s, Load(t)) && s.count == 0
    requires Legal(Apply(s, Load(t)), es) && OneCall(es, t)
    ensures t in Run(Apply(s, Load(t)), es).pcs && Run(Apply(s, Load(t)), es).pcs[t] == Done(-27)
    ensures Acquired(Apply(s, Load(t)), es, {t}) == 0
    ensures forall i :: 0 <= i < |es| ==> es[i].t != t
  {
    Answered(Apply(s, Load(t)), es, t);
  }

  /** The events of `t`. */
  function Own(es: seq<Event>, t: Tid): nat {
    if es == [] then 0 else (if es[0].t == t then 1 else 0) + Own(es[1..], t)
  }

  /** No event of another thread changes the counter. */
  ghost predicate Alone(s: State, es: seq<Event>, t: Tid)
    requires Legal(s, es)
    decreases es
  {
    es == [] ||
      ((es[0].t != t ==> Apply(s, es[0]).count == s.count) && Alone(Apply(s, es[0]), es[1..], t))
  }

  lemma {:induction false} UndisturbedFrom(s: State, es: seq<Event>, t: Tid)
    requires Inv(s) && Legal(s, es) && OneCall(es, t) && Alone(s, es, t)
    requires t in s.pcs && (s.pcs[t] == Loading || s.pcs[t] == Loaded(s.count) || s.pcs[t].Done?)
    ensures t in Run(s, es).pcs
    ensures var pc, x := s.pcs[t], Run(s, es);
            if Own(es, t) == 0 then x.pcs[t] == pc && x.count == s.count
            else if pc == Loading && s.count == 0 then x.pcs[t] == Done(-27) && Own(es, t) == 1 && x.count == 0
            else if pc == Loading && Own(es, t) == 1 then x.pcs[t] == Loaded(s.count) && x.count == s.count
            else if pc == Loading then x.pcs[t] == Done(0) && Own(es, t) == 2 && x.count == s.count - 1
            else pc.Loaded? && x.pcs[t] == Done(0) && Own(es, t) == 1 && x.count == s.count - 1
    decreases es
  {
    if es != [] {
      ApplyInv(s, es[0]);
      assert OneCall(es[1..], t);
      UndisturbedFrom(Apply(s, es[0]), es[1..], t);
    }
  }

  /** A call during which no other thread changes the counter answers within two of its own steps: at once with
      KE_WOULDBLOCK if the counter is 0, and otherwise with KE_OK, having taken one ticket. */
  lemma UndisturbedAnswer(s: State, es: seq<Event>, t: Tid)
    requires Inv(s) && Enabled(s, Call(t)) && Legal(Apply(s, Call(t)), es) && OneCall(es, t)
    requires Alone(Apply(s, Call(t)), es, t) && Own(es, t) >= if s.count == 0 then 1 else 2
    ensures var x := Run(Apply(s, Call(t)), es);
            && t in x.pcs && x.pcs[t] == Done(if s.count == 0 then -27 else 0)
            && x.count == if s.count == 0 then 0 else s.count - 1
  {
    UndisturbedFrom(Apply(s, Call(t)), es, t);
  }

  /** ksem_release adds its tickets at once, modulo 2^32, whatever the other threads are doing; with its next step,
      however late, it is over and has not touched the counter again. */
  lemma ReleaseAdds(s: State, t: Tid, n: int, es: seq<Event>, e: Event)
    requires Enabled(s, Release(t, n)) && Legal(Apply(s, Release(t, n)), es)
    requires (forall i :: 0 <= i < |es| ==> es[i].t != t) && Enabled(Run(Apply(s, Release(t, n)), es), e) && e.t == t
    ensures Apply(s, Release(t, n)).count == (s.count + n) % 0x1_0000_0000
    ensures forall u :: u in s.pcs && u != t ==> Apply(s, Release(t, n)).pcs[u] == s.pcs[u]
    ensures var x := Run(Apply(s, Release(t, n)), es);
            e == Send(t) && Apply(x, e) == x.(pcs := x.pcs[t := Out])
  {
    Untouched(Apply(s, Release(t, n)), es, t);
  }

  /** What callers may do, whatever the others do: begin a call in none, with any number of tickets to release, and
      return with an answer, which changes nothing else. */
  lemma AtAnyTime(s: State, t: Tid, n: int)
    requires t in s.pcs && 0 <= n < 0x1_0000_0000
    ensures s.pcs[t] == Out ==> Enabled(s, Call(t)) && Enabled(s, Release(t, n))
    ensures s.pcs[t].Done? ==> Enabled(s, Return(t)) && Apply(s, Return(t)) == s.(pcs := s.pcs[t := Out])
  {
  }

  /** A thread that is in a call can do its next step. */
  lemma NeverStuck(s: State, t: Tid) returns (e: Event)
    requires t in s.pcs && s.pcs[t] != Out
    ensures Enabled(s, e) && e.t == t
  {
    e := match s.pcs[t]
         case Loading => Load(t)
         case Loaded(_) => CmpXch(t)
         case Done(_) => Return(t)
         case Sending => Send(t);
  }

  /** Where the counter differs at the end of `es`, some event of `es` changed it. */
  lemma {:induction false} ChangedBy(s: State, es: seq<Event>) returns (k: nat)
    requires Legal(s, es) && Run(s, es).count != s.count
    ensures k < |es| && Legal(s, es[..k]) && Enabled(Run(s, es[..k]), es[k])
    ensures es[k].Release? || Succeeds(Run(s, es[..k]), es[k])
    decreases es
  {
    if es[0].Release? || Succeeds(s, es[0]) {
      k := 0;
    } else {
      var k' := ChangedBy(Apply(s, es[0]), es[1..]);
      k := k' + 1;
      assert es[..k][1..] == es[1..][..k'];
    }
  }

  /** The retry loop is lock-free: if the compare-exchange of a thread fails, then since its load
      another thread's acquire succeeded or another thread released tickets. */
  lemma RetryMeansProgress(s: State, es: seq<Event>, t: Tid) returns (k: nat)
    requires t in s.pcs && s.pcs[t] == Loaded(s.count)
    requires Legal(s, es) && forall i :: 0 <= i < |es| ==> es[i].t != t
    requires Enabled(Run(s, es), CmpXch(t)) && !Succeeds(Run(s, es), CmpXch(t))
    ensures k < |es| && Legal(s, es[..k]) && Enabled(Run(s, es[..k]), es[k]) && es[k].t != t
    ensures es[k].Release? || Succeeds(Run(s, es[..k]), es[k])
  {
    Untouched(s, es, t);
    k := ChangedBy(s, es);
  }

  lemma {:induction false} Untouched(s: State, es: seq<Event>, t: Tid)
    requires Legal(s, es) && t in s.pcs && forall i :: 0 <= i < |es| ==> es[i].t != t
    ensures t in Run(s, es).pcs && Run(s, es).pcs[t] == s.pcs[t]
    decreases es
  {
    if es != [] {
      assert es[0].t != t;
      Untouched(Apply(s, es[0]), es[1..], t);
    }
  }
}

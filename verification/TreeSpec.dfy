/** The address tree as a value: what the operations on `struct addrtree_head` compute, and
    what those results mean as a set of address ranges.

    A slot of the tree is named by a midpoint `semi` and a `level`. The operations are written
    with the arithmetic form of the walk (`MinSemi`, `MaxSemi`); `WalkMacros` equates it with the
    bit-twiddling macros. */
module TreeSpec {
  import opened Words

  /** An address range and the object that it belongs to. */
  datatype Mapping<N> = Mapping(id: N, lo: nat, hi: nat)

  datatype Tree<N> = Nil | Bin(left: Tree<N>, item: Mapping<N>, right: Tree<N>)

  predicate Covers<N>(m: Mapping<N>, a: int) {
    m.lo <= a <= m.hi
  }

  predicate Overlaps<N>(m: Mapping<N>, x: Mapping<N>) {
    m.lo <= x.hi && m.hi >= x.lo
  }

  ghost function Items<N>(t: Tree<N>): set<Mapping<N>> {
    match t
    case Nil => {}
    case Bin(l, x, r) => Items(l) + {x} + Items(r)
  }

  ghost predicate Free<N>(t: Tree<N>, m: Mapping<N>) {
    forall x :: x in Items(t) ==> !Overlaps(m, x)
  }

  ghost predicate AllFree<N>(t: Tree<N>, u: Tree<N>) {
    forall x, y :: x in Items(u) && y in Items(t) ==> !Overlaps(x, y)
  }

  // ---- slots ----

  function MinSemi(semi: int, level: nat): int
    requires level > 0
  {
    semi - Pow2(level - 1)
  }

  function MaxSemi(semi: int, level: nat): int
    requires level > 0
  {
    semi + Pow2(level - 1)
  }

  /** The lowest address a range in this slot can hold. It is the slot's first address only in
      the leftmost slots; elsewhere the first address is the midpoint of an enclosing slot,
      which no node below that slot covers. */
  function Floor(semi: int, level: nat): int {
    if semi == Pow2(level) then 0 else semi - Pow2(level) + 1
  }

  function Top(semi: int, level: nat): int {
    semi + Pow2(level) - 1
  }

  predicate InSlot<N>(m: Mapping<N>, semi: int, level: nat) {
    Floor(semi, level) <= m.lo <= m.hi <= Top(semi, level)
  }

  ghost predicate Proper(semi: int, level: nat) {
    Pow2(level) <= semi
  }

  /** The arithmetic walk is the macro walk, and a range that is in its slot passes the
      bounds assertions written with MAPMIN and MAPMAX. */
  lemma WalkMacros<N>(m: Mapping<N>, semi: nat, level: nat)
    requires IsSlot(semi, level)
    ensures Proper(semi, level)
    ensures level > 0 ==>
              && MinSemi(semi, level) == NextMin(semi, level) && IsSlot(NextMin(semi, level), level - 1)
              && MaxSemi(semi, level) == NextMax(semi, level) && IsSlot(NextMax(semi, level), level - 1)
    ensures InSlot(m, semi, level) ==> MapMin(semi, level) <= m.lo && m.hi <= MapMax(semi, level)
  {
    SlotRange(semi, level);
    if level > 0 {
      SlotHalves(semi, level);
    }
  }

  // ---- well-formed trees ----

  /** Every item lies in its slot, and overlaps no other. */
  ghost predicate WF<N>(t: Tree<N>, semi: int, level: nat)
    decreases t
  {
    match t
    case Nil => true
    case Bin(l, x, r) =>
      && (forall y :: y in Items(t) ==> InSlot(y, semi, level))
      && Free(l, x) && Free(r, x)
      && (if level == 0 then l.Nil? && r.Nil?
          else WF(l, MinSemi(semi, level), level - 1) && WF(r, MaxSemi(semi, level), level - 1))
  }

  lemma Halves<N>(t: Tree<N>, semi: int, level: nat)
    requires Proper(semi, level) && WF(t, semi, level) && t.Bin?
    ensures forall y :: y in Items(t.left) ==> y.hi < semi
    ensures forall y :: y in Items(t.right) ==> y.lo > semi
  {
  }

  /** No strict descendant of any slot covers that slot's midpoint. */
  ghost predicate OwnerOnTop<N>(t: Tree<N>, semi: int, level: nat)
    decreases t
  {
    match t
    case Nil => true
    case Bin(l, _, r) =>
      && (forall y :: y in Items(l) + Items(r) ==> !Covers(y, semi))
      && (level > 0 ==> OwnerOnTop(l, MinSemi(semi, level), level - 1) && OwnerOnTop(r, MaxSemi(semi, level), level - 1))
  }

  lemma {:induction false} MidpointOwner<N>(t: Tree<N>, semi: int, level: nat)
    requires Proper(semi, level) && WF(t, semi, level)
    ensures OwnerOnTop(t, semi, level)
    decreases t
  {
    if t.Bin? {
      Halves(t, semi, level);
      if level > 0 {
        MidpointOwner(t.left, MinSemi(semi, level), level - 1);
        MidpointOwner(t.right, MaxSemi(semi, level), level - 1);
      }
    }
  }

  /** No two positions of the tree hold overlapping ranges. */
  ghost predicate Apart<N>(t: Tree<N>) {
    match t
    case Nil => true
    case Bin(l, x, r) =>
      && Apart(l) && Apart(r) && Free(l, x) && Free(r, x)
      && (forall y :: y in Items(l) ==> Free(r, y))
  }

  lemma {:induction false} WFApart<N>(t: Tree<N>, semi: int, level: nat)
    requires Proper(semi, level) && WF(t, semi, level)
    ensures Apart(t)
    decreases t
  {
    if t.Bin? && level > 0 {
      WFApart(t.left, MinSemi(semi, level), level - 1);
      WFApart(t.right, MaxSemi(semi, level), level - 1);
      Halves(t, semi, level);
    }
  }

  /** A tree put together from two well-formed halves and an item that overlaps neither. */
  lemma Join<N>(l: Tree<N>, x: Mapping<N>, r: Tree<N>, semi: int, level: nat)
    requires Proper(semi, level) && level > 0 && InSlot(x, semi, level)
    requires WF(l, MinSemi(semi, level), level - 1) && WF(r, MaxSemi(semi, level), level - 1)
    requires Free(l, x) && Free(r, x)
    ensures WF(Bin(l, x, r), semi, level)
  {
    forall y | y in Items(Bin(l, x, r))
      ensures InSlot(y, semi, level)
    {
      assert y in Items(l) ==> InSlot(y, MinSemi(semi, level), level - 1);
      assert y in Items(r) ==> InSlot(y, MaxSemi(semi, level), level - 1);
    }
  }

  /** Replacing one half of a tree by the same half with `m` added. */
  lemma Graft<N>(t: Tree<N>, l: Tree<N>, r: Tree<N>, m: Mapping<N>, semi: int, level: nat)
    requires Proper(semi, level) && t.Bin? && WF(t, semi, level) && level > 0 && !Overlaps(t.item, m)
    requires WF(l, MinSemi(semi, level), level - 1) && WF(r, MaxSemi(semi, level), level - 1)
    requires || (Items(l) == Items(t.left) + {m} && r == t.right)
             || (l == t.left && Items(r) == Items(t.right) + {m})
    ensures WF(Bin(l, t.item, r), semi, level)
    ensures Items(Bin(l, t.item, r)) == Items(t) + {m}
  {
    assert t.item in Items(t);
    Join(l, t.item, r, semi, level);
  }

  /** Replacing one half of a tree by the same half with `m` taken out. */
  lemma Prune<N>(t: Tree<N>, l: Tree<N>, r: Tree<N>, m: Mapping<N>, semi: int, level: nat)
    requires Proper(semi, level) && t.Bin? && WF(t, semi, level) && level > 0
    requires WF(l, MinSemi(semi, level), level - 1) && WF(r, MaxSemi(semi, level), level - 1)
    requires || (m in Items(t.left) && Items(l) == Items(t.left) - {m} && r == t.right)
             || (m in Items(t.right) && l == t.left && Items(r) == Items(t.right) - {m})
    ensures WF(Bin(l, t.item, r), semi, level)
    ensures Items(Bin(l, t.item, r)) == Items(t) - {m}
  {
    assert t.item in Items(t);
    Halves(t, semi, level);
    assert t.item != m;
    Join(l, t.item, r, semi, level);
  }

  // ---- insertion ----

  /** addrtree_insert of `m` into the slot that holds `t`. In the last but one case of `Bin` the
      walk is at level zero and has no slot to go to (see `Fits`); what the code does then is
      undefined, and `m` is not stored. */
  function Insert<N>(t: Tree<N>, m: Mapping<N>, semi: int, level: nat): (r: Tree<N>)
    decreases level, if Covers(m, semi) then 2 else 0, t
  {
    match t
    case Nil => Bin(Nil, m, Nil)
    case Bin(l, x, r) =>
      if Covers(m, semi) then Reinsert(Bin(Nil, m, Nil), t, semi, level)
      else if level == 0 then t
      else if m.hi < semi then Bin(Insert(l, m, MinSemi(semi, level), level - 1), x, r)
      else Bin(l, x, Insert(r, m, MaxSemi(semi, level), level - 1))
  }

  /** __addrtree_reinsertall of the nodes of `u` into the slot that holds `t`. No node of a
      displaced tree covers the midpoint of its slot (see `Displace`), so the insertion at the
      same level below always descends. */
  function Reinsert<N>(t: Tree<N>, u: Tree<N>, semi: int, level: nat): (r: Tree<N>)
    decreases level, 1, u
  {
    match u
    case Nil => t
    case Bin(l, x, r) =>
      var t' := Reinsert(Reinsert(t, l, semi, level), r, semi, level);
      if Covers(x, semi) then t' else Insert(t', x, semi, level)
  }

  /** No walk of the insertion of `m`, or of a re-insertion that it causes, comes to an occupied
      slot of level zero and has to go on. */
  predicate Fits<N>(t: Tree<N>, m: Mapping<N>, semi: int, level: nat)
    decreases level, if Covers(m, semi) then 2 else 0, t
  {
    t.Bin? ==>
      if Covers(m, semi) then AllFit(Bin(Nil, m, Nil), t, semi, level)
      else if level == 0 then false
      else if m.hi < semi then Fits(t.left, m, MinSemi(semi, level), level - 1)
      else Fits(t.right, m, MaxSemi(semi, level), level - 1)
  }

  /** The same for the re-insertion of the nodes of `u`. */
  predicate AllFit<N>(t: Tree<N>, u: Tree<N>, semi: int, level: nat)
    decreases level, 1, u
  {
    u.Bin? ==>
      var t1 := Reinsert(t, u.left, semi, level);
      && AllFit(t, u.left, semi, level) && AllFit(t1, u.right, semi, level)
      && (!Covers(u.item, semi) ==> Fits(Reinsert(t1, u.right, semi, level), u.item, semi, level))
  }

  /** `m` may be looking for a place in the tree `t` of this slot. */
  ghost predicate Seeks<N>(m: Mapping<N>, t: Tree<N>, semi: int, level: nat) {
    Proper(semi, level) && WF(t, semi, level) && InSlot(m, semi, level)
  }

  /** Where `m` neither overlaps the slot's node nor covers its midpoint, and there is a level left to
      descend to, `m` fits the half it descends into, and it overlaps nothing in the other. */
  lemma Descend<N>(t: Tree<N>, m: Mapping<N>, semi: int, level: nat)
    requires Seeks(m, t, semi, level) && t.Bin? && !Overlaps(m, t.item) && level > 0
    ensures m.hi < semi ==>
              && Seeks(m, t.left, MinSemi(semi, level), level - 1) && (Free(t, m) <==> Free(t.left, m))
              && (Fits(t, m, semi, level) <==> Fits(t.left, m, MinSemi(semi, level), level - 1))
              && Insert(t, m, semi, level) ==
                 Bin(Insert(t.left, m, MinSemi(semi, level), level - 1), t.item, t.right)
    ensures m.lo > semi ==>
              && Seeks(m, t.right, MaxSemi(semi, level), level - 1) && (Free(t, m) <==> Free(t.right, m))
              && (Fits(t, m, semi, level) <==> Fits(t.right, m, MaxSemi(semi, level), level - 1))
              && Insert(t, m, semi, level) ==
                 Bin(t.left, t.item, Insert(t.right, m, MaxSemi(semi, level), level - 1))
  {
    hide AllFit, Reinsert;
    assert t.item in Items(t);
    Halves(t, semi, level);
  }

  ghost predicate Movable<N>(u: Tree<N>, semi: int, level: nat) {
    forall x :: x in Items(u) ==> InSlot(x, semi, level) && !Covers(x, semi)
  }

  /** The loose tree `u` can be moved into the tree `t` of this slot item by item. */
  ghost predicate Moves<N>(u: Tree<N>, t: Tree<N>, semi: int, level: nat) {
    Proper(semi, level) && WF(t, semi, level) && Apart(u) && Movable(u, semi, level)
  }

  /** Nothing in a displaced tree covers the midpoint that its new owner covers. */
  lemma Displace<N>(t: Tree<N>, m: Mapping<N>, semi: int, level: nat)
    requires Seeks(m, t, semi, level) && t.Bin? && Covers(m, semi) && !Overlaps(m, t.item)
    ensures Moves(t, Bin(Nil, m, Nil), semi, level)
    ensures Free(t, m) <==> AllFree(Bin(Nil, m, Nil), t)
  {
    Halves(t, semi, level);
    WFApart(t, semi, level);
    assert Items(Bin(Nil, m, Nil)) == {m};
    if AllFree(Bin(Nil, m, Nil), t) {
      assert m in Items(Bin(Nil, m, Nil));
    }
  }

  /** The left half, the right half and the item of a loose tree can be moved one after the other. */
  lemma MoveParts<N>(t: Tree<N>, u: Tree<N>, semi: int, level: nat)
    requires u.Bin? && Moves(u, t, semi, level)
    ensures Moves(u.left, t, semi, level)
    ensures AllFree(t, u) <==> AllFree(t, u.left) && AllFree(t, u.right) && Free(t, u.item)
  {
    assert u.item in Items(u);
  }

  lemma MoveRight<N>(t: Tree<N>, u: Tree<N>, t1: Tree<N>, semi: int, level: nat)
    requires u.Bin? && Moves(u, t, semi, level) && AllFree(t, u.left)
    requires WF(t1, semi, level) && Items(t1) == Items(t) + Items(u.left)
    ensures Moves(u.right, t1, semi, level) && (AllFree(t1, u.right) <==> AllFree(t, u.right))
  {
    assert forall x, y :: x in Items(u.right) && y in Items(u.left) ==> Free(u.right, y) && !Overlaps(x, y);
  }

  lemma MoveItem<N>(t: Tree<N>, u: Tree<N>, t2: Tree<N>, semi: int, level: nat)
    requires u.Bin? && Moves(u, t, semi, level)
    requires WF(t2, semi, level) && Items(t2) == Items(t) + Items(u.left) + Items(u.right)
    ensures Seeks(u.item, t2, semi, level) && !Covers(u.item, semi)
    ensures Free(t2, u.item) <==> Free(t, u.item)
    ensures Items(t2) + {u.item} == Items(t) + Items(u)
  {
    assert u.item in Items(u);
    assert Items(t2) + {u.item} == Items(t) + Items(u);
  }

  /** The parts of a re-insertion that fits. */
  lemma FitParts<N>(t: Tree<N>, u: Tree<N>, semi: int, level: nat)
    requires u.Bin? && !Covers(u.item, semi)
    ensures var t1 := Reinsert(t, u.left, semi, level);
            var t2 := Reinsert(t1, u.right, semi, level);
            && Reinsert(t, u, semi, level) == Insert(t2, u.item, semi, level)
            && (AllFit(t, u, semi, level) <==>
                AllFit(t, u.left, semi, level) && AllFit(t1, u.right, semi, level) && Fits(t2, u.item, semi, level))
  {
  }

  /** Insertion, displacement and re-insertion included, keeps the tree well-formed and adds
      exactly the new range, if the range overlaps none and fits. */
  lemma {:induction false} InsertOk<N>(t: Tree<N>, m: Mapping<N>, semi: int, level: nat)
    requires Seeks(m, t, semi, level) && Free(t, m) && Fits(t, m, semi, level)
    ensures WF(Insert(t, m, semi, level), semi, level)
    ensures Items(Insert(t, m, semi, level)) == Items(t) + {m}
    decreases level, if Covers(m, semi) then 2 else 0, t
  {
    if t.Bin? {
      assert t.item in Items(t);
      if Covers(m, semi) {
        Displace(t, m, semi, level);
        assert Items(Bin(Nil, m, Nil)) == {m};
        ReinsertOk(Bin(Nil, m, Nil), t, semi, level);
      } else {
        Descend(t, m, semi, level);
        if m.hi < semi {
          InsertOk(t.left, m, MinSemi(semi, level), level - 1);
          Graft(t, Insert(t.left, m, MinSemi(semi, level), level - 1), t.right, m, semi, level);
        } else {
          InsertOk(t.right, m, MaxSemi(semi, level), level - 1);
          Graft(t, t.left, Insert(t.right, m, MaxSemi(semi, level), level - 1), m, semi, level);
        }
      }
    }
  }

  lemma {:induction false} ReinsertOk<N>(t: Tree<N>, u: Tree<N>, semi: int, level: nat)
    requires Moves(u, t, semi, level) && AllFree(t, u) && AllFit(t, u, semi, level)
    ensures WF(Reinsert(t, u, semi, level), semi, level)
    ensures Items(Reinsert(t, u, semi, level)) == Items(t) + Items(u)
    decreases level, 1, u
  {
    hide WF, Moves, Seeks, Free, AllFree, Insert, Reinsert, Fits, AllFit;
    if u.Nil? {
      NothingMoves(t, u, semi, level);
    } else {
      var t1 := Reinsert(t, u.left, semi, level);
      var t2 := Reinsert(t1, u.right, semi, level);
      MovesItem(t, u, semi, level);
      FitParts(t, u, semi, level);
      MoveParts(t, u, semi, level);
      ReinsertOk(t, u.left, semi, level);
      MoveRight(t, u, t1, semi, level);
      ReinsertOk(t1, u.right, semi, level);
      MoveItem(t, u, t2, semi, level);
      InsertOk(t2, u.item, semi, level);
    }
  }

  lemma NothingMoves<N>(t: Tree<N>, u: Tree<N>, semi: int, level: nat)
    requires Moves(u, t, semi, level) && u.Nil?
    ensures WF(t, semi, level) && Reinsert(t, u, semi, level) == t && Items(t) == Items(t) + Items(u)
    ensures AllFit(t, u, semi, level) && AllFree(t, u)
  {
    assert Items(u) == {};
  }

  lemma MovesItem<N>(t: Tree<N>, u: Tree<N>, semi: int, level: nat)
    requires Moves(u, t, semi, level) && u.Bin?
    ensures !Covers(u.item, semi)
  {
    assert u.item in Items(u);
  }

  // ---- when a range does not fit ----

  /** No insertion brings up a range that was not there. */
  lemma {:induction false} InsertSub<N>(t: Tree<N>, m: Mapping<N>, semi: int, level: nat)
    ensures Items(Insert(t, m, semi, level)) <= Items(t) + {m}
    decreases level, if Covers(m, semi) then 2 else 0, t
  {
    if t.Bin? {
      if Covers(m, semi) {
        assert Items(Bin(Nil, m, Nil)) == {m};
        ReinsertSub(Bin(Nil, m, Nil), t, semi, level);
      } else if level > 0 {
        if m.hi < semi {
          InsertSub(t.left, m, MinSemi(semi, level), level - 1);
        } else {
          InsertSub(t.right, m, MaxSemi(semi, level), level - 1);
        }
      }
    }
  }

  lemma {:induction false} ReinsertSub<N>(t: Tree<N>, u: Tree<N>, semi: int, level: nat)
    ensures Items(Reinsert(t, u, semi, level)) <= Items(t) + Items(u)
    decreases level, 1, u
  {
    if u.Bin? {
      var t1 := Reinsert(t, u.left, semi, level);
      var t2 := Reinsert(t1, u.right, semi, level);
      ReinsertSub(t, u.left, semi, level);
      ReinsertSub(t1, u.right, semi, level);
      if !Covers(u.item, semi) {
        InsertSub(t2, u.item, semi, level);
      }
    }
  }

  /** A range that overlaps none and does not fit costs the tree a range: that one or another. */
  lemma {:induction false} InsertLoses<N>(t: Tree<N>, m: Mapping<N>, semi: int, level: nat)
    requires Seeks(m, t, semi, level) && Free(t, m) && !Fits(t, m, semi, level)
    ensures Items(Insert(t, m, semi, level)) != Items(t) + {m}
    decreases level, if Covers(m, semi) then 2 else 0, t
  {
    hide WF;
    assert t.item in Items(t);
    assert m !in Items(t) by { SelfOverlap(t, m, semi, level); }
    if Covers(m, semi) {
      Displace(t, m, semi, level);
      assert Items(Bin(Nil, m, Nil)) == {m};
      ReinsertLoses(Bin(Nil, m, Nil), t, semi, level);
    } else if level > 0 {
      Descend(t, m, semi, level);
      if m.hi < semi {
        InsertLoses(t.left, m, MinSemi(semi, level), level - 1);
        InsertSub(t.left, m, MinSemi(semi, level), level - 1);
        LosesLeft(t, Insert(t.left, m, MinSemi(semi, level), level - 1), m, semi, level);
      } else {
        InsertLoses(t.right, m, MaxSemi(semi, level), level - 1);
        InsertSub(t.right, m, MaxSemi(semi, level), level - 1);
        LosesRight(t, Insert(t.right, m, MaxSemi(semi, level), level - 1), m, semi, level);
      }
    }
  }

  lemma SelfOverlap<N>(t: Tree<N>, m: Mapping<N>, semi: int, level: nat)
    requires Free(t, m) && InSlot(m, semi, level)
    ensures m !in Items(t)
  {
    if m in Items(t) {
      assert Overlaps(m, m);
      assert false;
    }
  }

  /** A range that is lost in one half is lost in the tree. */
  lemma LosesLeft<N>(t: Tree<N>, l: Tree<N>, m: Mapping<N>, semi: int, level: nat)
    requires Proper(semi, level) && WF(t, semi, level) && t.Bin? && m !in Items(t)
    requires Items(l) < Items(t.left) + {m}
    ensures Items(Bin(l, t.item, t.right)) != Items(t) + {m}
  {
    Halves(t, semi, level);
    var y :| y in Items(t.left) + {m} && y !in Items(l);
    assert y in Items(t) + {m} && y !in Items(Bin(l, t.item, t.right));
  }

  lemma LosesRight<N>(t: Tree<N>, r: Tree<N>, m: Mapping<N>, semi: int, level: nat)
    requires Proper(semi, level) && WF(t, semi, level) && t.Bin? && m !in Items(t)
    requires Items(r) < Items(t.right) + {m}
    ensures Items(Bin(t.left, t.item, r)) != Items(t) + {m}
  {
    Halves(t, semi, level);
    var y :| y in Items(t.right) + {m} && y !in Items(r);
    assert y in Items(t) + {m} && y !in Items(Bin(t.left, t.item, r));
  }

  /** The parts of a re-insertion have no range in common. */
  lemma MovesDistinct<N>(t: Tree<N>, u: Tree<N>, semi: int, level: nat)
    requires Moves(u, t, semi, level) && AllFree(t, u) && u.Bin?
    ensures Items(t) + Items(u.left) !! Items(u.right) && u.item !in Items(t) + Items(u.left) + Items(u.right)
  {
    assert u.item in Items(u);
    forall y | y in Items(u.left)
      ensures y !in Items(u.right) && y != u.item
    {
      assert y in Items(u) && Free(u.right, y);
    }
    forall y | y in Items(t)
      ensures y !in Items(u.right) && y != u.item
    {
      assert y in Items(u) ==> Overlaps(y, y);
    }
    forall y | y in Items(u.right)
      ensures y != u.item
    {
      assert y in Items(u);
    }
  }

  lemma {:induction false} ReinsertLoses<N>(t: Tree<N>, u: Tree<N>, semi: int, level: nat)
    requires Moves(u, t, semi, level) && AllFree(t, u) && !AllFit(t, u, semi, level)
    ensures Items(Reinsert(t, u, semi, level)) != Items(t) + Items(u)
    decreases level, 1, u
  {
    hide WF, Moves, Seeks, Free, AllFree, Insert, Reinsert, Fits, AllFit;
    if u.Nil? {
      NothingMoves(t, u, semi, level);
    } else {
      var t1 := Reinsert(t, u.left, semi, level);
      var t2 := Reinsert(t1, u.right, semi, level);
      MovesItem(t, u, semi, level);
      FitParts(t, u, semi, level);
      MoveParts(t, u, semi, level);
      MovesDistinct(t, u, semi, level);
      InsertSub(t2, u.item, semi, level);
      ReinsertSub(t1, u.right, semi, level);
      if !AllFit(t, u.left, semi, level) {
        ReinsertLoses(t, u.left, semi, level);
        ReinsertSub(t, u.left, semi, level);
        var y :| y in Items(t) + Items(u.left) && y !in Items(t1);
        assert y in Items(t) + Items(u) && y !in Items(Reinsert(t, u, semi, level));
      } else {
        ReinsertOk(t, u.left, semi, level);
        MoveRight(t, u, t1, semi, level);
        if !AllFit(t1, u.right, semi, level) {
          ReinsertLoses(t1, u.right, semi, level);
          var y :| y in Items(t1) + Items(u.right) && y !in Items(t2);
          assert y in Items(t) + Items(u) && y !in Items(Reinsert(t, u, semi, level));
        } else {
          ReinsertOk(t1, u.right, semi, level);
          MoveItem(t, u, t2, semi, level);
          InsertLoses(t2, u.item, semi, level);
        }
      }
    }
  }

  /** An insertion adds exactly the new range if and only if the range fits. */
  lemma InsertExactly<N>(t: Tree<N>, m: Mapping<N>, semi: int, level: nat)
    requires Seeks(m, t, semi, level) && Free(t, m)
    ensures Items(Insert(t, m, semi, level)) == Items(t) + {m} <==> Fits(t, m, semi, level)
  {
    if Fits(t, m, semi, level) {
      InsertOk(t, m, semi, level);
    } else {
      InsertLoses(t, m, semi, level);
    }
  }

  /** Not both the range that is exactly 0 and the range that is exactly 1: they share the only
      slot of level zero that has room for two ranges. */
  ghost predicate Roomy<N>(s: set<Mapping<N>>) {
    || (forall x :: x in s ==> x.hi != 0)
    || (forall x :: x in s ==> !(x.lo == 1 && x.hi == 1))
  }

  /** A walk is at an end of its levels only where 0 meets 1. */
  lemma LastLevel<N>(t: Tree<N>, m: Mapping<N>, semi: int, level: nat)
    requires Seeks(m, t, semi, level) && Free(t, m) && t.Bin? && !Covers(m, semi) && level == 0
    ensures semi == 1 && m.lo == m.hi == 0 && t.item.lo == t.item.hi == 1
  {
    assert t.item in Items(t);
  }

  /** Without both of these ranges everything fits. */
  lemma {:induction false} RoomyFits<N>(t: Tree<N>, m: Mapping<N>, semi: int, level: nat)
    requires Seeks(m, t, semi, level) && Free(t, m) && Roomy(Items(t) + {m})
    ensures Fits(t, m, semi, level)
    decreases level, if Covers(m, semi) then 2 else 0, t
  {
    hide AllFit, Insert, Reinsert, Seeks, Moves, AllFree, InSlot;
    if t.Bin? {
      var all := Items(t) + {m};
      assert t.item in Items(t) && m in all && t.item in all;
      if Covers(m, semi) {
        Displace(t, m, semi, level);
        assert Items(Bin(Nil, m, Nil)) + Items(t) == all;
        RoomyAllFit(Bin(Nil, m, Nil), t, semi, level);
      } else if level == 0 {
        LastLevel(t, m, semi, level);
      } else {
        Descend(t, m, semi, level);
        if m.hi < semi {
          assert Items(t.left) + {m} <= all;
          RoomyFits(t.left, m, MinSemi(semi, level), level - 1);
        } else {
          assert Items(t.right) + {m} <= all;
          RoomyFits(t.right, m, MaxSemi(semi, level), level - 1);
        }
      }
    }
  }

  lemma {:induction false} RoomyAllFit<N>(t: Tree<N>, u: Tree<N>, semi: int, level: nat)
    requires Moves(u, t, semi, level) && AllFree(t, u) && Roomy(Items(t) + Items(u))
    ensures AllFit(t, u, semi, level)
    decreases level, 1, u
  {
    hide WF, Moves, Seeks, Free, AllFree, Insert, Reinsert, Fits, AllFit;
    if u.Nil? {
      NothingMoves(t, u, semi, level);
    } else {
      var t1 := Reinsert(t, u.left, semi, level);
      var t2 := Reinsert(t1, u.right, semi, level);
      MovesItem(t, u, semi, level);
      FitParts(t, u, semi, level);
      MoveParts(t, u, semi, level);
      assert Items(t) + Items(u.left) <= Items(t) + Items(u);
      RoomyAllFit(t, u.left, semi, level);
      ReinsertOk(t, u.left, semi, level);
      MoveRight(t, u, t1, semi, level);
      assert Items(t1) + Items(u.right) <= Items(t) + Items(u);
      RoomyAllFit(t1, u.right, semi, level);
      ReinsertOk(t1, u.right, semi, level);
      MoveItem(t, u, t2, semi, level);
      RoomyFits(t2, u.item, semi, level);
    }
  }

  // ---- what addrtree_tryinsert answers ----

  /** The answers of addrtree_tryinsert: KE_OK, KE_EXISTS, or none because the overlap assertion of
      addrtree_insert fired while a displaced node was put back, or a walk had no level left. */
  datatype Verdict = Inserted | Exists | NoAnswer

  ghost function TryInsert<N>(t: Tree<N>, m: Mapping<N>, semi: int, level: nat): Verdict
    decreases t
  {
    match t
    case Nil => Inserted
    case Bin(l, x, r) =>
      if Overlaps(m, x) then Exists
      else if Covers(m, semi) then (if Free(t, m) && Fits(t, m, semi, level) then Inserted else NoAnswer)
      else if level == 0 then NoAnswer
      else if m.hi < semi then TryInsert(l, m, MinSemi(semi, level), level - 1)
      else TryInsert(r, m, MaxSemi(semi, level), level - 1)
  }

  /** The ranges that a new leaf is compared with before it is put anywhere: those in the slots
      from the root down to the first one whose midpoint it covers. */
  ghost function OnWalk<N>(t: Tree<N>, m: Mapping<N>, semi: int, level: nat): set<Mapping<N>>
    decreases t
  {
    match t
    case Nil => {}
    case Bin(l, x, r) =>
      if Covers(m, semi) || level == 0 then {x}
      else if m.hi < semi then {x} + OnWalk(l, m, MinSemi(semi, level), level - 1)
      else {x} + OnWalk(r, m, MaxSemi(semi, level), level - 1)
  }

  lemma OnWalkMapped<N>(t: Tree<N>, m: Mapping<N>, semi: int, level: nat)
    ensures OnWalk(t, m, semi, level) <= Items(t)
    decreases t
  {
  }

  /** KE_OK exactly when nothing overlaps and the range fits; KE_EXISTS exactly when one of the ranges
      on the walk overlaps; every other overlap is left to the assertion. */
  lemma {:induction false} TryInsertExact<N>(t: Tree<N>, m: Mapping<N>, semi: int, level: nat)
    requires Seeks(m, t, semi, level)
    ensures TryInsert(t, m, semi, level) == Inserted <==> Free(t, m) && Fits(t, m, semi, level)
    ensures TryInsert(t, m, semi, level) == Exists <==>
              exists x :: x in OnWalk(t, m, semi, level) && Overlaps(m, x)
    decreases t
  {
    hide Seeks, WF, Insert;
    if t.Bin? {
      assert t.item in Items(t) && t.item in OnWalk(t, m, semi, level);
      if !Overlaps(m, t.item) && !Covers(m, semi) && level > 0 {
        Descend(t, m, semi, level);
        if m.hi < semi {
          TryInsertExact(t.left, m, MinSemi(semi, level), level - 1);
          assert OnWalk(t, m, semi, level) == {t.item} + OnWalk(t.left, m, MinSemi(semi, level), level - 1);
        } else {
          TryInsertExact(t.right, m, MaxSemi(semi, level), level - 1);
          assert OnWalk(t, m, semi, level) == {t.item} + OnWalk(t.right, m, MaxSemi(semi, level), level - 1);
        }
      }
    }
  }

  // ---- lookup ----

  /** What a lookup ends with. `LevelZero` is the assertion `assert(addr_level)`: the walk wants to
      leave a slot of level zero that holds `at`. */
  datatype Outcome<N> = Hit(item: Mapping<N>) | Miss | LevelZero(at: Mapping<N>)

  function Locate<N>(t: Tree<N>, a: nat, semi: int, level: nat): (r: Outcome<N>)
    decreases t
  {
    match t
    case Nil => Miss
    case Bin(l, x, r) =>
      if Covers(x, a) then Hit(x)
      else if level == 0 then LevelZero(x)
      else if a < semi then Locate(l, a, MinSemi(semi, level), level - 1)
      else Locate(r, a, MaxSemi(semi, level), level - 1)
  }

  /** A lookup finds the one range that covers the address, if there is one. */
  lemma {:induction false} LocateOk<N>(t: Tree<N>, a: nat, semi: int, level: nat)
    requires Proper(semi, level) && WF(t, semi, level)
    ensures match Locate(t, a, semi, level)
            case Hit(x) => x in Items(t) && Covers(x, a)
            case _ => forall x :: x in Items(t) ==> !Covers(x, a)
    decreases t
  {
    if t.Bin? && !Covers(t.item, a) && level > 0 {
      Halves(t, semi, level);
      if a < semi {
        LocateOk(t.left, a, MinSemi(semi, level), level - 1);
      } else {
        LocateOk(t.right, a, MaxSemi(semi, level), level - 1);
      }
    }
  }

  lemma {:induction false} CoverUnique<N>(t: Tree<N>, a: nat, x: Mapping<N>, y: Mapping<N>)
    requires Apart(t) && x in Items(t) && y in Items(t) && Covers(x, a) && Covers(y, a)
    ensures x == y
    decreases t
  {
    assert Overlaps(x, y) && Overlaps(y, x);
    if x in Items(t.left) && y in Items(t.left) {
      CoverUnique(t.left, a, x, y);
    } else if x in Items(t.right) && y in Items(t.right) {
      CoverUnique(t.right, a, x, y);
    }
  }

  // ---- removal ----

  /** addrtree_pop: cut the node out and put its two subtrees back into the emptied slot. */
  function Pop<N>(t: Tree<N>, semi: int, level: nat): (r: Tree<N>)
    requires t.Bin?
  {
    Reinsert(Reinsert(Nil, t.left, semi, level), t.right, semi, level)
  }

  /** The two subtrees of the popped node can be put back. */
  predicate PopFits<N>(t: Tree<N>, semi: int, level: nat)
    requires t.Bin?
  {
    AllFit(Nil, t.left, semi, level) && AllFit(Reinsert(Nil, t.left, semi, level), t.right, semi, level)
  }

  lemma PopMoves<N>(t: Tree<N>, semi: int, level: nat)
    requires Proper(semi, level) && t.Bin? && WF(t, semi, level)
    ensures Moves(t.left, Nil, semi, level) && AllFree(Nil, t.left)
    ensures forall t1 :: WF(t1, semi, level) && Items(t1) == Items(t.left) ==>
              Moves(t.right, t1, semi, level) && AllFree(t1, t.right)
  {
    WFApart(t, semi, level);
    Halves(t, semi, level);
    assert Items<N>(Nil) == {};
  }

  /** Popping a slot takes out exactly the node that was in it if and only if its two subtrees can
      be put back. */
  lemma {:induction false} PopOk<N>(t: Tree<N>, semi: int, level: nat)
    requires Proper(semi, level) && t.Bin? && WF(t, semi, level)
    ensures PopFits(t, semi, level) ==> WF(Pop(t, semi, level), semi, level)
    ensures PopFits(t, semi, level) <==> Items(Pop(t, semi, level)) == Items(t) - {t.item}
  {
    hide Reinsert, Moves, AllFree, WF, AllFit;
    PopDistinct(t, semi, level);
    PopMoves(t, semi, level);
    var t1 := Reinsert(Nil, t.left, semi, level);
    assert Items<N>(Nil) == {};
    ReinsertSub(Nil, t.left, semi, level);
    ReinsertSub(t1, t.right, semi, level);
    if !AllFit(Nil, t.left, semi, level) {
      ReinsertLoses(Nil, t.left, semi, level);
      var y :| y in Items(t.left) && y !in Items(t1);
      assert y in Items(t) - {t.item} && y !in Items(Pop(t, semi, level));
    } else {
      ReinsertOk(Nil, t.left, semi, level);
      if AllFit(t1, t.right, semi, level) {
        ReinsertOk(t1, t.right, semi, level);
      } else {
        ReinsertLoses(t1, t.right, semi, level);
      }
    }
  }

  lemma PopDistinct<N>(t: Tree<N>, semi: int, level: nat)
    requires Proper(semi, level) && t.Bin? && WF(t, semi, level)
    ensures Items(t) - {t.item} == Items(t.left) + Items(t.right) && Items(t.left) !! Items(t.right)
  {
    Halves(t, semi, level);
    assert t.item in Items(t);
  }

  lemma RoomyPops<N>(t: Tree<N>, semi: int, level: nat)
    requires Proper(semi, level) && t.Bin? && WF(t, semi, level) && Roomy(Items(t))
    ensures PopFits(t, semi, level)
  {
    hide Reinsert, Moves, AllFree, WF, AllFit;
    PopMoves(t, semi, level);
    assert Items<N>(Nil) == {};
    RoomyAllFit(Nil, t.left, semi, level);
    ReinsertOk(Nil, t.left, semi, level);
    RoomyAllFit(Reinsert(Nil, t.left, semi, level), t.right, semi, level);
  }

  /** addrtree_remove: find the slot whose node covers `a`, and pop it. */
  function Remove<N>(t: Tree<N>, a: nat, semi: int, level: nat): (r: Tree<N>)
    decreases t
  {
    match t
    case Nil => Nil
    case Bin(l, x, r) =>
      if Covers(x, a) then Pop(t, semi, level)
      else if level == 0 then t
      else if a < semi then Bin(Remove(l, a, MinSemi(semi, level), level - 1), x, r)
      else Bin(l, x, Remove(r, a, MaxSemi(semi, level), level - 1))
  }

  /** The removal at `a` can put back what was below the removed node. */
  predicate RemoveFits<N>(t: Tree<N>, a: nat, semi: int, level: nat)
    decreases t
  {
    match t
    case Nil => true
    case Bin(l, x, r) =>
      if Covers(x, a) then PopFits(t, semi, level)
      else if level == 0 then true
      else if a < semi then RemoveFits(l, a, MinSemi(semi, level), level - 1)
      else RemoveFits(r, a, MaxSemi(semi, level), level - 1)
  }

  /** Removal takes out exactly the range that the lookup of the address finds if and only if it can
      put back what was below that range. */
  lemma {:induction false} RemoveOk<N>(t: Tree<N>, a: nat, semi: int, level: nat)
    requires Proper(semi, level) && WF(t, semi, level)
    ensures RemoveFits(t, a, semi, level) ==> WF(Remove(t, a, semi, level), semi, level)
    ensures match Locate(t, a, semi, level)
            case Hit(x) => RemoveFits(t, a, semi, level) <==> Items(Remove(t, a, semi, level)) == Items(t) - {x}
            case _ => RemoveFits(t, a, semi, level) && Remove(t, a, semi, level) == t
    decreases t
  {
    if t.Bin? {
      if Covers(t.item, a) {
        PopOk(t, semi, level);
      } else if level > 0 {
        RemoveBelow(t, a, semi, level);
      }
    }
  }

  lemma {:induction false} RemoveBelow<N>(t: Tree<N>, a: nat, semi: int, level: nat)
    requires Proper(semi, level) && WF(t, semi, level)
    requires t.Bin? && !Covers(t.item, a) && level > 0
    ensures RemoveFits(t, a, semi, level) ==> WF(Remove(t, a, semi, level), semi, level)
    ensures match Locate(t, a, semi, level)
            case Hit(x) => RemoveFits(t, a, semi, level) <==> Items(Remove(t, a, semi, level)) == Items(t) - {x}
            case _ => RemoveFits(t, a, semi, level) && Remove(t, a, semi, level) == t
    decreases t, 0
  {
    hide Pop, PopFits, Insert, Reinsert;
    var half := if a < semi then t.left else t.right;
    var semi' := if a < semi then MinSemi(semi, level) else MaxSemi(semi, level);
    RemoveOk(half, a, semi', level - 1);
    RemoveSub(half, a, semi', level - 1);
    LocateOk(half, a, semi', level - 1);
    var half' := Remove(half, a, semi', level - 1);
    match Locate(half, a, semi', level - 1)
    case Hit(x) =>
      PruneExactly(t, half', x, semi, level, a < semi);
      if RemoveFits(half, a, semi', level - 1) {
        if a < semi {
          Prune(t, half', t.right, x, semi, level);
        } else {
          Prune(t, t.left, half', x, semi, level);
        }
      }
    case _ =>
  }

  /** A half loses exactly `x` if and only if the whole tree does. */
  lemma PruneExactly<N>(t: Tree<N>, half: Tree<N>, x: Mapping<N>, semi: int, level: nat, below: bool)
    requires Proper(semi, level) && WF(t, semi, level) && t.Bin?
    requires x in if below then Items(t.left) else Items(t.right)
    requires Items(half) <= if below then Items(t.left) else Items(t.right)
    ensures below ==> (Items(Bin(half, t.item, t.right)) == Items(t) - {x} <==> Items(half) == Items(t.left) - {x})
    ensures !below ==> (Items(Bin(t.left, t.item, half)) == Items(t) - {x} <==> Items(half) == Items(t.right) - {x})
  {
    PopDistinct(t, semi, level);
    assert t.item !in Items(t.left) + Items(t.right) by {
      assert t.item in Items(t);
    }
    var other := if below then t.right else t.left;
    var all := Items(half) + {t.item} + Items(other);
    assert all - {t.item} - Items(other) == Items(half);
  }

  lemma {:induction false} RemoveSub<N>(t: Tree<N>, a: nat, semi: int, level: nat)
    ensures Items(Remove(t, a, semi, level)) <= Items(t)
    decreases t
  {
    if t.Bin? {
      if Covers(t.item, a) {
        ReinsertSub(Nil, t.left, semi, level);
        ReinsertSub(Reinsert(Nil, t.left, semi, level), t.right, semi, level);
      } else if level > 0 {
        if a < semi {
          RemoveSub(t.left, a, MinSemi(semi, level), level - 1);
        } else {
          RemoveSub(t.right, a, MaxSemi(semi, level), level - 1);
        }
      }
    }
  }

  lemma {:induction false} RoomyRemoves<N>(t: Tree<N>, a: nat, semi: int, level: nat)
    requires Proper(semi, level) && WF(t, semi, level) && Roomy(Items(t))
    ensures RemoveFits(t, a, semi, level)
    decreases t
  {
    hide PopFits;
    if t.Bin? {
      assert Items(t.left) <= Items(t) && Items(t.right) <= Items(t);
      if Covers(t.item, a) {
        RoomyPops(t, semi, level);
      } else if level > 0 {
        if a < semi {
          RoomyRemoves(t.left, a, MinSemi(semi, level), level - 1);
        } else {
          RoomyRemoves(t.right, a, MaxSemi(semi, level), level - 1);
        }
      }
    }
  }

  /** A range that was inserted is found by any of its addresses, and its removal by one of them
      restores the set if and only if what was below it can be put back. */
  lemma InsertRemove<N>(t: Tree<N>, m: Mapping<N>, a: nat, semi: int, level: nat)
    requires Seeks(m, t, semi, level) && Free(t, m) && Fits(t, m, semi, level) && Covers(m, a)
    ensures var t' := Insert(t, m, semi, level);
            && Locate(t', a, semi, level) == Hit(m)
            && (Items(Remove(t', a, semi, level)) == Items(t) <==> RemoveFits(t', a, semi, level))
            && (Roomy(Items(t) + {m}) ==> RemoveFits(t', a, semi, level))
  {
    var t' := Insert(t, m, semi, level);
    InsertOk(t, m, semi, level);
    LocateOk(t', a, semi, level);
    WFApart(t', semi, level);
    CoverUnique(t', a, m, Locate(t', a, semi, level).item);
    RemoveOk(t', a, semi, level);
    assert m !in Items(t) by { assert Overlaps(m, m); }
    assert Items(t') - {m} == Items(t);
    if Roomy(Items(t) + {m}) {
      RoomyRemoves(t', a, semi, level);
    }
  }
}

/** The assertions in the address-tree operations, written with the macros as the code has them, and
    when they hold. */
module TreeAsserts {
  import opened Words
  import opened TreeSpec
  import opened TreeRuns
  import opened TreeLimits

  /** Every node passes the assertions of addrtree_locate and addrtree_plocate at its slot, the level
      of every slot is the index of its midpoint's lowest set bit, and nothing hangs below level zero. */
  ghost predicate Bounded<N>(t: Tree<N>, semi: nat, level: nat)
    decreases t
  {
    match t
    case Nil => true
    case Bin(l, x, r) =>
      && SemiLevel(semi) == level
      && MapMin(semi, level) <= x.lo <= x.hi <= MapMax(semi, level)
      && (if level == 0 then l.Nil? && r.Nil?
          else Bounded(l, NextMin(semi, level), level - 1) && Bounded(r, NextMax(semi, level), level - 1))
  }

  lemma {:induction false} WFBounded<N>(t: Tree<N>, semi: nat, level: nat)
    requires IsSlot(semi, level) && WF(t, semi, level)
    ensures Bounded(t, semi, level)
    decreases t
  {
    hide MapMin, MapMax, NextMin, NextMax, IsSlot;
    if t.Bin? {
      assert t.item in Items(t);
      WalkMacros(t.item, semi, level);
      SlotRange(semi, level);
      if level > 0 {
        WFBounded(t.left, NextMin(semi, level), level - 1);
        WFBounded(t.right, NextMax(semi, level), level - 1);
      }
    }
  }

  /** No assertion of addrtree_insert fires while `m` is inserted into the slot that holds `t`, in the
      re-insertions included, and no step of it descends from level zero. */
  ghost predicate Sound<N>(t: Tree<N>, m: Mapping<N>, semi: nat, level: nat)
    decreases level, if Covers(m, semi) then 2 else 0, t
  {
    && MapMin(semi, level) <= m.lo && m.hi <= MapMax(semi, level)
    && (t.Bin? ==>
          && !Overlaps(m, t.item)
          && (if Covers(m, semi) then
                (t.item.hi <= semi || t.item.lo >= semi) && SoundAll(Bin(Nil, m, Nil), t, semi, level)
              else if level == 0 then false
              else if m.hi < semi then Sound(t.left, m, NextMin(semi, level), level - 1)
              else m.lo > semi && Sound(t.right, m, NextMax(semi, level), level - 1)))
  }

  /** The same for the re-insertion of the nodes of `u`. None of them takes the place of the slot's node. */
  ghost predicate SoundAll<N>(t: Tree<N>, u: Tree<N>, semi: nat, level: nat)
    decreases level, 1, u
  {
    u.Bin? ==>
      var t1 := Reinsert(t, u.left, semi, level);
      && SoundAll(t, u.left, semi, level) && SoundAll(t1, u.right, semi, level)
      && !Covers(u.item, semi) && Sound(Reinsert(t1, u.right, semi, level), u.item, semi, level)
  }

  /** The assertions of an insertion hold exactly when no mapped range overlaps the new one and it fits. */
  lemma {:induction false} SoundExactly<N>(t: Tree<N>, m: Mapping<N>, semi: nat, level: nat)
    requires IsSlot(semi, level) && Seeks(m, t, semi, level)
    ensures Sound(t, m, semi, level) <==> Free(t, m) && Fits(t, m, semi, level)
    decreases level, if Covers(m, semi) then 2 else 0, t
  {
    hide WF, Insert, MapMin, MapMax, NextMin, NextMax, SoundAll, AllFit, Moves, IsSlot;
    WalkMacros(m, semi, level);
    if t.Bin? {
      assert t.item in Items(t);
      if !Overlaps(m, t.item) {
        if Covers(m, semi) {
          Displace(t, m, semi, level);
          SoundAllExactly(Bin(Nil, m, Nil), t, semi, level);
        } else if level > 0 {
          Descend(t, m, semi, level);
          if m.hi < semi {
            SoundExactly(t.left, m, NextMin(semi, level), level - 1);
          } else {
            SoundExactly(t.right, m, NextMax(semi, level), level - 1);
          }
        }
      }
    }
  }

  lemma {:induction false} SoundAllExactly<N>(t: Tree<N>, u: Tree<N>, semi: nat, level: nat)
    requires IsSlot(semi, level) && Moves(u, t, semi, level)
    ensures SoundAll(t, u, semi, level) <==> AllFree(t, u) && AllFit(t, u, semi, level)
    decreases level, 1, u
  {
    hide WF, Insert, Reinsert, Sound, Moves, IsSlot, Seeks, Free, AllFree, Fits, AllFit;
    if u.Nil? {
      NothingMoves(t, u, semi, level);
    } else {
      MovesItem(t, u, semi, level);
      FitParts(t, u, semi, level);
      MoveParts(t, u, semi, level);
      SoundAllExactly(t, u.left, semi, level);
      if AllFree(t, u.left) && AllFit(t, u.left, semi, level) {
        var t1 := Reinsert(t, u.left, semi, level);
        ReinsertOk(t, u.left, semi, level);
        MoveRight(t, u, t1, semi, level);
        SoundAllExactly(t1, u.right, semi, level);
        if AllFree(t, u.right) && AllFit(t1, u.right, semi, level) {
          var t2 := Reinsert(t1, u.right, semi, level);
          ReinsertOk(t1, u.right, semi, level);
          MoveItem(t, u, t2, semi, level);
          SoundExactly(t2, u.item, semi, level);
        }
      }
    }
  }

  /** The assertions in the re-insertions of addrtree_pop hold exactly when both subtrees of the popped
      node can be put back. */
  lemma PopSound<N>(t: Tree<N>, semi: nat, level: nat)
    requires IsSlot(semi, level) && t.Bin? && WF(t, semi, level)
    ensures SoundAll(Nil, t.left, semi, level) && SoundAll(Reinsert(Nil, t.left, semi, level), t.right, semi, level)
            <==> PopFits(t, semi, level)
  {
    hide WF, Moves, SoundAll, AllFree, AllFit;
    WalkMacros(t.item, semi, level);
    PopMoves(t, semi, level);
    assert Items<N>(Nil) == {};
    SoundAllExactly(Nil, t.left, semi, level);
    if AllFit(Nil, t.left, semi, level) {
      ReinsertOk(Nil, t.left, semi, level);
      SoundAllExactly(Reinsert(Nil, t.left, semi, level), t.right, semi, level);
    }
  }

  /** No assertion of addrtree_remove fires: not the level assertion of its lookup, and none in the
      re-insertions of its pop. */
  ghost predicate RemoveSound<N>(t: Tree<N>, a: nat, semi: nat, level: nat)
    decreases t
  {
    match t
    case Nil => true
    case Bin(l, x, r) =>
      if Covers(x, a) then SoundAll(Nil, l, semi, level) && SoundAll(Reinsert(Nil, l, semi, level), r, semi, level)
      else if level == 0 then false
      else if a < semi then RemoveSound(l, a, NextMin(semi, level), level - 1)
      else RemoveSound(r, a, NextMax(semi, level), level - 1)
  }

  lemma {:induction false} RemoveSoundExactly<N>(t: Tree<N>, a: nat, semi: nat, level: nat)
    requires IsSlot(semi, level) && WF(t, semi, level)
    ensures RemoveSound(t, a, semi, level) <==>
              !Locate(t, a, semi, level).LevelZero? && RemoveFits(t, a, semi, level)
    decreases t
  {
    hide MapMin, MapMax, NextMin, NextMax, IsSlot, SoundAll, PopFits, Reinsert;
    if t.Bin? {
      WalkMacros(t.item, semi, level);
      if Covers(t.item, a) {
        PopSound(t, semi, level);
      } else if level > 0 {
        if a < semi {
          RemoveSoundExactly(t.left, a, NextMin(semi, level), level - 1);
        } else {
          RemoveSoundExactly(t.right, a, NextMax(semi, level), level - 1);
        }
      }
    }
  }

  /** After every run from the empty tree, every node passes the bounds assertions of a lookup; the
      assertions of one more insertion hold exactly when the range overlaps none in the set and fits;
      and those of one more removal exactly when its lookup does not end in the level assertion and it
      can put back what was below. */
  lemma RunAsserts<N>(ops: seq<Op<N>>, m: Mapping<N>, a: nat, width: nat)
    requires width > 0 && Legal(ops, width) && m.lo <= m.hi < Pow2(width)
    ensures var t := RunTree(ops, width);
            && Bounded(t, SemiInit(width), width - 1)
            && (Sound(t, m, SemiInit(width), width - 1) <==>
                  Clear(RunSet(ops), m) && Fits(t, m, SemiInit(width), width - 1))
            && (RemoveSound(t, a, SemiInit(width), width - 1) <==>
                  !Locate(t, a, SemiInit(width), width - 1).LevelZero? && RemoveFits(t, a, SemiInit(width), width - 1))
  {
    hide WF, RunTree, Sound, Bounded, RunSet, Legal, Fits, RemoveSound, RemoveFits, Locate;
    RootSlot(width);
    RunOk(ops, width);
    WFBounded(RunTree(ops, width), SemiInit(width), width - 1);
    SoundExactly(RunTree(ops, width), m, SemiInit(width), width - 1);
    RemoveSoundExactly(RunTree(ops, width), a, SemiInit(width), width - 1);
  }

  /** Over every run that maps only disjoint ranges that are not a single odd address or 0, as all
      even-aligned ranges are: no assertion fires in the run, nor in any further lookup, removal or insertion of
      such a range that overlaps none. */
  lemma UnloneAsserts<N>(ops: seq<Op<N>>, m: Mapping<N>, a: nat, width: nat)
    requires width > 0 && Unlone(ops, width) && a < Pow2(width)
    requires m.lo <= m.hi < Pow2(width) && Clear(RunSet(ops), m) && !Lone(m)
    ensures var t := RunTree(ops, width);
            && Legal(ops, width) && Bounded(t, SemiInit(width), width - 1)
            && !Locate(t, a, SemiInit(width), width - 1).LevelZero?
            && Sound(t, m, SemiInit(width), width - 1) && RemoveSound(t, a, SemiInit(width), width - 1)
  {
    hide WF, RunTree, Sound, Bounded, RunSet, Legal, Fits, RemoveSound, RemoveFits, Locate, Unlone;
    RootSlot(width);
    UnloneLegal(ops, width);
    UnloneLooks(ops, a, width);
    UnloneAdds(ops, m, width);
    RunAsserts(ops, m, a, width);
  }
}

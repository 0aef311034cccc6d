/** Where the address tree's promises end: which ranges can trip the level assertion of a lookup,
    when a range that overlaps none has no slot, and how far a failing lookup walks. */
module TreeLimits {
  import opened Words
  import opened TreeSpec
  import opened TreeRuns

  /** A single address that is odd or zero. */
  predicate Lone<N>(m: Mapping<N>) {
    m.lo == m.hi && (m.lo % 2 == 1 || m.lo == 0)
  }

  /** A lookup stops at the level assertion only at a lone range. */
  lemma {:induction false} StuckAtLone<N>(t: Tree<N>, a: nat, semi: nat, level: nat)
    requires IsSlot(semi, level) && WF(t, semi, level) && semi - Pow2(level) <= a <= Top(semi, level)
    requires Locate(t, a, semi, level).LevelZero?
    ensures Locate(t, a, semi, level).at in Items(t) && Lone(Locate(t, a, semi, level).at)
    decreases t
  {
    WalkMacros(t.item, semi, level);
    assert t.item in Items(t);
    if level > 0 {
      if a < semi {
        StuckAtLone(t.left, a, MinSemi(semi, level), level - 1);
      } else {
        StuckAtLone(t.right, a, MaxSemi(semi, level), level - 1);
      }
    }
  }

  /** The address beside a lone range that shares its slot of level zero. */
  function Beside<N>(m: Mapping<N>): nat
    requires Lone(m)
  {
    if m.lo == 0 then 1 else m.lo - 1
  }

  /** What fills a slot on the way to `m` without covering `a`. */
  function Filler<N>(m: Mapping<N>, a: nat, semi: nat): Mapping<N> {
    if semi == a && a > 0 then Mapping(m.id, a - 1, a - 1) else Mapping(m.id, semi, semi)
  }

  /** The topmost `depth` nodes of a tree whose every slot from the root to `m` is filled. */
  function Spine<N>(m: Mapping<N>, a: nat, semi: int, level: nat, depth: nat): Tree<N>
    decreases depth
  {
    if depth == 0 || semi < 0 then Nil
    else if level == 0 then Bin(Nil, m, Nil)
    else if a < semi then Bin(Spine(m, a, MinSemi(semi, level), level - 1, depth - 1), Filler(m, a, semi), Nil)
    else Bin(Nil, Filler(m, a, semi), Spine(m, a, MaxSemi(semi, level), level - 1, depth - 1))
  }

  /** The node that `Spine` has at the given depth and not above. */
  function SpineItem<N>(m: Mapping<N>, a: nat, semi: int, level: nat, depth: nat): Mapping<N>
    decreases depth
  {
    if level == 0 || semi < 0 then m
    else if depth == 0 then Filler(m, a, semi)
    else if a < semi then SpineItem(m, a, MinSemi(semi, level), level - 1, depth - 1)
    else SpineItem(m, a, MaxSemi(semi, level), level - 1, depth - 1)
  }

  /** `a` is beside the lone range `m` and both lie under the same slot. */
  ghost predicate Aims<N>(m: Mapping<N>, a: nat, semi: int, level: nat) {
    && semi >= 0 && IsSlot(semi, level)
    && Lone(m) && a == Beside(m) && InSlot(m, semi, level) && semi - Pow2(level) <= a <= Top(semi, level)
  }

  lemma AimDown<N>(m: Mapping<N>, a: nat, semi: nat, level: nat)
    requires Aims(m, a, semi, level) && level > 0
    ensures a < semi ==> Aims(m, a, MinSemi(semi, level), level - 1)
    ensures a >= semi ==> Aims(m, a, MaxSemi(semi, level), level - 1)
    ensures InSlot(Filler(m, a, semi), semi, level) && !Covers(Filler(m, a, semi), a)
  {
    WalkMacros(m, semi, level);
    assert semi % 2 == 0;
  }

  /** The spine is well-formed; filled to the end, it leads the lookup of `a` to `m` at level zero. */
  lemma {:induction false} SpineStuck<N>(m: Mapping<N>, a: nat, semi: nat, level: nat, depth: nat)
    requires Aims(m, a, semi, level) && depth <= level + 1
    ensures WF(Spine(m, a, semi, level, depth), semi, level)
    ensures depth == level + 1 ==> Locate(Spine(m, a, semi, level, depth), a, semi, level) == LevelZero(m)
    decreases depth
  {
    WalkMacros(m, semi, level);
    if depth > 0 && level == 0 {
      assert Items(Bin(Nil, m, Nil)) == {m};
    } else if depth > 0 {
      AimDown(m, a, semi, level);
      var x := Filler(m, a, semi);
      assert WF<N>(Nil, MinSemi(semi, level), level - 1) && WF<N>(Nil, MaxSemi(semi, level), level - 1);
      if a < semi {
        var l := Spine(m, a, MinSemi(semi, level), level - 1, depth - 1);
        SpineStuck(m, a, MinSemi(semi, level), level - 1, depth - 1);
        BesideMid(l, MinSemi(semi, level), level - 1, semi);
        Join(l, x, Nil, semi, level);
      } else {
        var r := Spine(m, a, MaxSemi(semi, level), level - 1, depth - 1);
        SpineStuck(m, a, MaxSemi(semi, level), level - 1, depth - 1);
        BesideMid(r, MaxSemi(semi, level), level - 1, semi);
        Join(Nil, x, r, semi, level);
      }
    }
  }

  lemma BesideMid<N>(t: Tree<N>, semi: int, level: nat, mid: int)
    requires WF(t, semi, level)
    ensures Top(semi, level) < mid ==> forall y :: y in Items(t) ==> y.hi < mid
    ensures Floor(semi, level) > mid ==> forall y :: y in Items(t) ==> y.lo > mid
  {
  }

  /** The next node of the spine lies in the slot, overlaps none of those above it, and its insertion
      makes the spine one node longer. */
  lemma {:induction false} SpineGrows<N>(m: Mapping<N>, a: nat, semi: nat, level: nat, depth: nat)
    requires Aims(m, a, semi, level) && depth <= level
    ensures InSlot(SpineItem(m, a, semi, level, depth), semi, level)
    ensures Free(Spine(m, a, semi, level, depth), SpineItem(m, a, semi, level, depth))
    ensures Insert(Spine(m, a, semi, level, depth), SpineItem(m, a, semi, level, depth), semi, level) ==
            Spine(m, a, semi, level, depth + 1)
    decreases depth
  {
    hide IsSlot, Lone, Reinsert;
    WalkMacros(m, semi, level);
    if level > 0 {
      AimDown(m, a, semi, level);
      if depth > 0 {
        var semi' := if a < semi then MinSemi(semi, level) else MaxSemi(semi, level);
        SpineGrows(m, a, semi', level - 1, depth - 1);
        assert Items(Spine(m, a, semi, level, depth)) ==
               Items(Spine(m, a, semi', level - 1, depth - 1)) + {Filler(m, a, semi)};
      }
    }
  }

  lemma {:induction false} SpineFits<N>(m: Mapping<N>, a: nat, semi: nat, level: nat, depth: nat)
    requires Aims(m, a, semi, level) && depth <= level
    ensures Fits(Spine(m, a, semi, level, depth), SpineItem(m, a, semi, level, depth), semi, level)
    decreases depth
  {
    hide IsSlot, Lone, Reinsert, AllFit, Insert, Items;
    if level > 0 && depth > 0 {
      AimDown(m, a, semi, level);
      WalkMacros(m, semi, level);
      var semi' := if a < semi then MinSemi(semi, level) else MaxSemi(semi, level);
      SpineFits(m, a, semi', level - 1, depth - 1);
      SpineGrows(m, a, semi', level - 1, depth - 1);
    }
  }

  /** Inserts the topmost `depth` nodes of the spine, the root first. */
  function SpineOps<N>(m: Mapping<N>, a: nat, width: nat, depth: nat): seq<Op<N>>
    requires width > 0
  {
    if depth == 0 then []
    else SpineOps(m, a, width, depth - 1) + [Map(SpineItem(m, a, Pow2(width - 1), width - 1, depth - 1))]
  }

  lemma SpineNone<N>(m: Mapping<N>, a: nat, width: nat)
    requires width > 0
    ensures Spine(m, a, Pow2(width - 1), width - 1, 0) == RunTree([], width) && Legal<N>([], width)
  {
  }

  /** One more insertion after a run. */
  lemma NextMap<N>(ops: seq<Op<N>>, m: Mapping<N>, width: nat)
    requires width > 0 && Legal(ops, width) && m.lo <= m.hi < Pow2(width)
    requires Free(RunTree(ops, width), m) && Fits(RunTree(ops, width), m, Pow2(width - 1), width - 1)
    ensures Legal(ops + [Map(m)], width)
    ensures RunTree(ops + [Map(m)], width) == Insert(RunTree(ops, width), m, Pow2(width - 1), width - 1)
  {
    hide Insert, Fits, RunSet, RunTree, Legal, WF;
    RunOk(ops, width);
    LegalNext(ops, m, width);
  }

  lemma LegalNext<N>(ops: seq<Op<N>>, m: Mapping<N>, width: nat)
    requires width > 0 && Legal(ops, width) && m.lo <= m.hi < Pow2(width) && Clear(RunSet(ops), m)
    requires Fits(RunTree(ops, width), m, Pow2(width - 1), width - 1)
    ensures Legal(ops + [Map(m)], width)
    ensures RunTree(ops + [Map(m)], width) == Insert(RunTree(ops, width), m, Pow2(width - 1), width - 1)
  {
    hide Insert, Fits, RunSet, Clear;
    var next := ops + [Map(m)];
    assert next[..|next| - 1] == ops && next[|next| - 1] == Map(m);
  }

  /** Every spine is the tree of a legal run. */
  lemma {:induction false} SpineRun<N>(m: Mapping<N>, a: nat, width: nat, depth: nat)
    requires width > 0 && depth <= width && Aims(m, a, Pow2(width - 1), width - 1)
    ensures Legal(SpineOps(m, a, width, depth), width)
    ensures RunTree(SpineOps(m, a, width, depth), width) == Spine(m, a, Pow2(width - 1), width - 1, depth)
    decreases depth
  {
    hide Spine, SpineItem, Insert, WF, Aims, Free, Fits, Legal, RunTree;
    if depth == 0 {
      SpineNone(m, a, width);
    } else {
      var semi, level := Pow2(width - 1), width - 1;
      SpineRun(m, a, width, depth - 1);
      SpineGrows(m, a, semi, level, depth - 1);
      SpineFits(m, a, semi, level, depth - 1);
      RootSlot(width);
      NextMap(SpineOps(m, a, width, depth - 1), SpineItem(m, a, semi, level, depth - 1), width);
    }
  }

  /** After the run, the lookup of `a` ends in the level assertion at `m`. */
  ghost predicate Trips<N>(m: Mapping<N>, ops: seq<Op<N>>, a: nat, width: nat)
    requires width > 0
  {
    && Legal(ops, width) && a < Pow2(width)
    && Locate(RunTree(ops, width), a, Pow2(width - 1), width - 1) == LevelZero(m)
  }

  lemma RootAims<N>(m: Mapping<N>, width: nat)
    requires width > 0 && m.hi < Pow2(width) && Lone(m)
    ensures Aims(m, Beside(m), Pow2(width - 1), width - 1) && Beside(m) < Pow2(width)
  {
    PowerSlot(width - 1);
    if m.lo % 2 == 0 {
      assert Pow2(width) == 2 * Pow2(width - 1);
    }
  }

  lemma LoneTrips<N>(m: Mapping<N>, width: nat)
    requires width > 0 && m.hi < Pow2(width) && Lone(m)
    ensures Trips(m, SpineOps(m, Beside(m), width, width), Beside(m), width)
  {
    hide Aims, Spine, SpineOps, Locate, RunTree, Legal, WF;
    var a := Beside(m);
    RootAims(m, width);
    SpineRun(m, a, width, width);
    SpineStuck(m, a, Pow2(width - 1), width - 1, width);
  }

  lemma TripsLone<N>(m: Mapping<N>, ops: seq<Op<N>>, a: nat, width: nat)
    requires width > 0 && Trips(m, ops, a, width)
    ensures Lone(m)
  {
    RootSlot(width);
    RunOk(ops, width);
    StuckAtLone(RunTree(ops, width), a, Pow2(width - 1), width - 1);
  }

  /** The ranges that can ever trip the level assertion of a lookup, after some legal run, are
      exactly the lone ones. */
  lemma LoneExactly<N(!new)>(m: Mapping<N>, width: nat)
    requires width > 0 && m.lo <= m.hi < Pow2(width)
    ensures Lone(m) <==> exists ops: seq<Op<N>>, a: nat :: Trips(m, ops, a, width)
  {
    if Lone(m) {
      LoneTrips(m, width);
    }
    forall ops: seq<Op<N>>, a: nat | Trips(m, ops, a, width)
      ensures Lone(m)
    {
      TripsLone(m, ops, a, width);
    }
  }

  // ---- overlaps that are always found ----

  /** A range that lies inside a mapped one gets KE_EXISTS. */
  lemma {:induction false} CoveredExists<N>(t: Tree<N>, m: Mapping<N>, x: Mapping<N>, semi: int, level: nat)
    requires Seeks(m, t, semi, level) && x in Items(t) && x.lo <= m.lo && m.hi <= x.hi
    ensures TryInsert(t, m, semi, level) == Exists
    decreases t
  {
    hide Insert, Fits, AllFit;
    Halves(t, semi, level);
    if !Overlaps(m, t.item) {
      if x in Items(t.left) {
        Descend(t, m, semi, level);
        CoveredExists(t.left, m, x, MinSemi(semi, level), level - 1);
      } else {
        Descend(t, m, semi, level);
        CoveredExists(t.right, m, x, MaxSemi(semi, level), level - 1);
      }
    }
  }

  // ---- runs without lone ranges ----

  /** The run maps disjoint ranges of words, none of them a single odd address or 0, as no range is that
      begins at an even and ends at an odd address, and removes by words; nothing is asked of the trees
      it goes through. */
  ghost predicate Unlone<N>(ops: seq<Op<N>>, width: nat)
    requires width > 0
  {
    ops != [] ==>
      var before := ops[..|ops| - 1];
      && Unlone(before, width)
      && match ops[|ops| - 1]
         case Map(m) => m.lo <= m.hi < Pow2(width) && Clear(RunSet(before), m) && !Lone(m)
         case Unmap(a) => a < Pow2(width)
  }

  /** The code can do every such run. */
  lemma {:induction false} UnloneLegal<N>(ops: seq<Op<N>>, width: nat)
    requires width > 0 && Unlone(ops, width)
    ensures Legal(ops, width) && forall x :: x in RunSet(ops) ==> !Lone(x)
  {
    hide Insert, Remove, Fits, RemoveFits, WF, Locate, RunTree;
    if ops != [] {
      var before := ops[..|ops| - 1];
      UnloneLegal(before, width);
      match ops[|ops| - 1]
      case Map(m) =>
        UnloneAdds(before, m, width);
      case Unmap(a) =>
        UnloneLooks(before, a, width);
    }
  }

  lemma UnloneLooks<N>(ops: seq<Op<N>>, a: nat, width: nat)
    requires width > 0 && Legal(ops, width) && (forall x :: x in RunSet(ops) ==> !Lone(x)) && a < Pow2(width)
    ensures var t := RunTree(ops, width);
            && !Locate(t, a, Pow2(width - 1), width - 1).LevelZero?
            && RemoveFits(t, a, Pow2(width - 1), width - 1)
  {
    hide Insert, Remove, Fits, RemoveFits, RunTree, RunSet, Legal;
    var t := RunTree(ops, width);
    RootSlot(width);
    RunOk(ops, width);
    if Locate(t, a, Pow2(width - 1), width - 1).LevelZero? {
      StuckAtLone(t, a, Pow2(width - 1), width - 1);
    }
    UnloneRoomy(t, width);
    RoomyRemoves(t, a, Pow2(width - 1), width - 1);
  }

  lemma UnloneRoomy<N>(t: Tree<N>, width: nat)
    requires width > 0 && WF(t, Pow2(width - 1), width - 1) && forall x :: x in Items(t) ==> !Lone(x)
    ensures forall x :: x in Items(t) ==> x.hi != 0
  {
    forall x | x in Items(t)
      ensures x.hi != 0
    {
      assert InSlot(x, Pow2(width - 1), width - 1) && !Lone(x);
    }
  }

  lemma UnloneAdds<N>(ops: seq<Op<N>>, m: Mapping<N>, width: nat)
    requires width > 0 && Legal(ops, width) && (forall x :: x in RunSet(ops) ==> !Lone(x))
    requires m.lo <= m.hi < Pow2(width) && Clear(RunSet(ops), m) && !Lone(m)
    ensures Fits(RunTree(ops, width), m, Pow2(width - 1), width - 1)
  {
    hide Insert, Fits, RunTree, RunSet, Legal;
    var t := RunTree(ops, width);
    RootSlot(width);
    RunOk(ops, width);
    UnloneRoomy(t, width);
    RoomyFits(t, m, Pow2(width - 1), width - 1);
  }

  // ---- ranges without a slot ----

  /** After the run, `m` is a range of words that overlaps none and does not fit. */
  ghost predicate Refused<N>(m: Mapping<N>, ops: seq<Op<N>>, width: nat)
    requires width > 0
  {
    && Legal(ops, width) && m.lo <= m.hi < Pow2(width) && Clear(RunSet(ops), m)
    && !Fits(RunTree(ops, width), m, Pow2(width - 1), width - 1)
  }

  /** Every slot on the lower edge of the tree, down to level zero, is occupied. */
  predicate EdgeFull<N>(t: Tree<N>, level: nat) {
    t.Bin? && (level > 0 ==> EdgeFull(t.left, level - 1))
  }

  /** What is in the slot of level `k` on the lower edge. */
  function EdgeAt<N>(t: Tree<N>, level: nat, k: nat): Tree<N>
    requires k <= level
    decreases level
  {
    if t.Nil? || k == level then t else EdgeAt(t.left, level - 1, k)
  }

  /** The single address 0 or 1 fits if and only if a slot on the tree's lower edge is free. */
  lemma {:induction false} FitsEdge<N>(t: Tree<N>, m: Mapping<N>, level: nat)
    requires Seeks(m, t, Pow2(level), level) && Free(t, m) && m.lo == m.hi <= 1
    ensures Fits(t, m, Pow2(level), level) <==> !EdgeFull(t, level)
    decreases level
  {
    if t.Bin? {
      assert t.item in Items(t);
      if level > 0 {
        Descend(t, m, Pow2(level), level);
        FitsEdge(t.left, m, level - 1);
      } else if m.lo == 1 {
        var b := Bin(Nil, m, Nil);
        assert t == Bin(Nil, t.item, Nil) && t.item.hi == 0;
        assert Reinsert(b, Nil, 1, 0) == b && !Fits(b, t.item, 1, 0);
        assert !AllFit(b, t, 1, 0);
      }
    }
  }

  /** A range above 1 that covers no midpoint on the lower edge always fits; one that does, and
      whose last such midpoint is that of level `k`, fits if and only if what is in the slot of level
      `k` on the lower edge can be put back below it. */
  lemma {:induction false} FitsAbove<N>(t: Tree<N>, m: Mapping<N>, level: nat, k: nat)
    requires Seeks(m, t, Pow2(level), level) && Free(t, m) && m.lo > 1 && k <= level
    requires Pow2(k) <= m.hi < 2 * Pow2(k)
    ensures m.lo > Pow2(k) ==> Fits(t, m, Pow2(level), level)
    ensures m.lo <= Pow2(k) ==>
              var u := EdgeAt(t, level, k);
              Fits(t, m, Pow2(level), level) <==> u.Nil? || AllFit(Bin(Nil, m, Nil), u, Pow2(k), k)
    decreases level
  {
    hide AllFit, Insert, Reinsert;
    if t.Bin? {
      assert t.item in Items(t);
      if k < level {
        PowersGrow(k + 1, level);
        Descend(t, m, Pow2(level), level);
        FitsAbove(t.left, m, level - 1, k);
      } else if m.lo > Pow2(k) && k > 0 {
        Descend(t, m, Pow2(level), level);
        OffEdge(t, m, level);
      }
    }
  }

  lemma {:induction false} PowersGrow(j: nat, k: nat)
    requires j <= k
    ensures Pow2(j) <= Pow2(k)
    decreases k
  {
    if j < k {
      PowersGrow(j, k - 1);
    }
  }

  lemma OffEdge<N>(t: Tree<N>, m: Mapping<N>, level: nat)
    requires Seeks(m, t, Pow2(level), level) && Free(t, m) && t.Bin? && !Overlaps(m, t.item)
    requires level > 0 && m.lo > Pow2(level)
    ensures Fits(t.right, m, MaxSemi(Pow2(level), level), level - 1)
  {
    hide Fits, Insert, WF, Free;
    Descend(t, m, Pow2(level), level);
    Halves(t, Pow2(level), level);
    assert forall y :: y in Items(t.right) + {m} ==> y.lo > 1;
    RoomyFits(t.right, m, MaxSemi(Pow2(level), level), level - 1);
  }

  /** Where a range that overlaps none is refused, both the range 0 and the range 1 are mapped or one of them is
      the range; and if it is neither it covers the midpoint of a slot on the tree's lower edge. */
  lemma RefusedOnlyThen<N>(m: Mapping<N>, ops: seq<Op<N>>, width: nat)
    requires width > 0 && Refused(m, ops, width)
    ensures exists x, y :: x in RunSet(ops) + {m} && y in RunSet(ops) + {m} && x.hi == 0 && y.lo == y.hi == 1
    ensures m.lo == m.hi <= 1 || (m.lo > 1 && exists k: nat :: k < width && Covers(m, Pow2(k)))
  {
    hide Insert, Fits, WF, Legal, RunTree, RunSet;
    var t := RunTree(ops, width);
    RootSlot(width);
    RunOk(ops, width);
    if Roomy(RunSet(ops) + {m}) {
      RoomyFits(t, m, Pow2(width - 1), width - 1);
    }
    PairOverlaps(RunSet(ops), m);
    if m.lo > 1 {
      var k := Log(m.hi, width);
      FitsAbove(t, m, width - 1, k);
      assert Covers(m, Pow2(k));
    }
  }

  /** If 0 and 1 are both there, a range that overlaps none of the others is one of them or above both. */
  lemma PairOverlaps<N>(s: set<Mapping<N>>, m: Mapping<N>)
    requires Clear(s, m) && m.lo <= m.hi && !Roomy(s + {m})
    ensures m.lo == m.hi <= 1 || m.lo > 1
    ensures exists x, y :: x in s + {m} && y in s + {m} && x.hi == 0 && y.lo == y.hi == 1
  {
    var x :| x in s + {m} && x.hi == 0;
    var y :| y in s + {m} && y.lo == 1 && y.hi == 1;
    assert x == m || !Overlaps(m, x);
    assert y == m || !Overlaps(m, y);
  }

  lemma {:induction false} Log(a: nat, width: nat) returns (k: nat)
    requires 0 < a < Pow2(width)
    ensures k < width && Pow2(k) <= a < 2 * Pow2(k)
    decreases width
  {
    if a >= Pow2(width - 1) {
      k := width - 1;
    } else {
      k := Log(a, width - 1);
    }
  }

  /** Both single addresses 0 and 1 are among the ranges. */
  ghost predicate HoldsPair<N>(s: set<Mapping<N>>) {
    exists x, y :: x in s && y in s && x.hi == 0 && y.lo == y.hi == 1
  }

  /** The node found by the lookup of `a` is on the tree's lower edge, at level `k`, with 0 and 1 below it. */
  ghost predicate AbovePair<N>(t: Tree<N>, x: Mapping<N>, level: nat, k: nat) {
    && k <= level && EdgeAt(t, level, k).Bin?
    && EdgeAt(t, level, k).item == x && HoldsPair(Items(EdgeAt(t, level, k).left))
  }

  /** A removal cannot put back what was below the removed node only if that node is on the tree's
      lower edge and both 0 and 1 are below it. */
  lemma {:induction false} RemovalLosesOnlyThen<N>(t: Tree<N>, a: nat, level: nat)
    requires WF(t, Pow2(level), level) && !RemoveFits(t, a, Pow2(level), level)
    ensures Locate(t, a, Pow2(level), level).Hit?
    ensures exists k: nat :: AbovePair(t, Locate(t, a, Pow2(level), level).item, level, k)
    decreases level
  {
    hide PopFits, WF;
    if Covers(t.item, a) {
      PopLosesOnlyThen(t, level);
      assert AbovePair(t, t.item, level, level);
    } else if a < Pow2(level) {
      WFLeft(t, level);
      RemovalLosesOnlyThen(t.left, a, level - 1);
      var x := Locate(t.left, a, Pow2(level - 1), level - 1).item;
      var k: nat :| AbovePair(t.left, x, level - 1, k);
      assert AbovePair(t, x, level, k);
    } else {
      RightRemoves(t, a, level);
    }
  }

  lemma WFLeft<N>(t: Tree<N>, level: nat)
    requires WF(t, Pow2(level), level) && t.Bin? && level > 0
    ensures WF(t.left, Pow2(level - 1), level - 1) && MinSemi(Pow2(level), level) == Pow2(level - 1)
  {
  }

  lemma RightAbove<N>(t: Tree<N>, level: nat)
    requires WF(t, Pow2(level), level) && t.Bin?
    ensures forall y :: y in Items(t.right) ==> 1 < y.lo <= y.hi
  {
    Halves(t, Pow2(level), level);
  }

  lemma RightRemoves<N>(t: Tree<N>, a: nat, level: nat)
    requires WF(t, Pow2(level), level) && t.Bin? && level > 0
    ensures RemoveFits(t.right, a, MaxSemi(Pow2(level), level), level - 1)
  {
    hide RemoveFits;
    RightAbove(t, level);
    RoomyRemoves(t.right, a, MaxSemi(Pow2(level), level), level - 1);
  }

  lemma PopLosesOnlyThen<N>(t: Tree<N>, level: nat)
    requires WF(t, Pow2(level), level) && t.Bin? && !PopFits(t, Pow2(level), level)
    ensures HoldsPair(Items(t.left))
  {
    hide Reinsert, Moves, AllFree, WF, AllFit;
    var semi, t1 := Pow2(level), Reinsert(Nil, t.left, Pow2(level), level);
    PopMoves(t, semi, level);
    RightAbove(t, level);
    assert Items<N>(Nil) == {};
    if Roomy(Items(t.left)) {
      RoomyAllFit(Nil, t.left, semi, level);
      ReinsertOk(Nil, t.left, semi, level);
      assert Roomy(Items(t.left) + Items(t.right));
      RoomyAllFit(t1, t.right, semi, level);
    }
  }

  /** The spine to the one of 0 and 1 leaves the other without a slot, at every width. */
  lemma PairRefused<N>(m: Mapping<N>, width: nat)
    requires width > 0 && m.lo == m.hi <= 1
    ensures Refused(m, SpineOps(Mapping(m.id, 1 - m.lo, 1 - m.lo), m.lo, width, width), width)
  {
    hide Aims, Spine, SpineOps, RunTree, Legal, WF, Insert, Fits;
    var x := Mapping(m.id, 1 - m.lo, 1 - m.lo);
    var t := Spine(x, m.lo, Pow2(width - 1), width - 1, width);
    RootSlot(width);
    RootAims(x, width);
    SpineRun(x, m.lo, width, width);
    SpineStuck(x, m.lo, Pow2(width - 1), width - 1, width);
    SpineEdge(x, m, width - 1);
    RunOk(SpineOps(x, m.lo, width, width), width);
    FitsEdge(t, m, width - 1);
  }

  lemma {:induction false} SpineEdge<N>(x: Mapping<N>, m: Mapping<N>, level: nat)
    requires m.lo == m.hi <= 1 && x.lo == x.hi == 1 - m.lo
    ensures var t := Spine(x, m.lo, Pow2(level), level, level + 1); EdgeFull(t, level) && Free(t, m)
    decreases level
  {
    if level > 0 {
      SpineEdge(x, m, level - 1);
      var l, y := Spine(x, m.lo, Pow2(level - 1), level - 1, level), Filler(x, m.lo, Pow2(level));
      assert MinSemi(Pow2(level), level) == Pow2(level - 1);
      assert Spine(x, m.lo, Pow2(level), level, level + 1) == Bin(l, y, Nil) && y == Mapping(x.id, Pow2(level), Pow2(level));
      assert Items(Bin(l, y, Nil)) == Items(l) + {y};
    } else {
      assert Spine(x, m.lo, 1, 0, 1) == Bin(Nil, x, Nil);
      assert Items(Bin(Nil, x, Nil)) == {x};
    }
  }
}

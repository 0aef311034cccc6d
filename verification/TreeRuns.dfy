/** Whole runs of the address tree, and how far its lookups walk. */
module TreeRuns {
  import opened Words
  import opened TreeSpec

  // ---- runs from the empty tree ----

  datatype Op<N> = Map(m: Mapping<N>) | Unmap(a: nat)

  /** The tree after the operations, over words of `width` bits. */
  function RunTree<N>(ops: seq<Op<N>>, width: nat): Tree<N>
    requires width > 0
  {
    if ops == [] then Nil
    else
      var t := RunTree(ops[..|ops| - 1], width);
      match ops[|ops| - 1]
      case Map(m) => Insert(t, m, Pow2(width - 1), width - 1)
      case Unmap(a) => Remove(t, a, Pow2(width - 1), width - 1)
  }

  ghost function Without<N>(s: set<Mapping<N>>, a: nat): set<Mapping<N>> {
    set x | x in s && !Covers(x, a)
  }

  ghost predicate Clear<N>(s: set<Mapping<N>>, m: Mapping<N>) {
    forall x :: x in s ==> !Overlaps(m, x)
  }

  /** The set of ranges after the operations. */
  ghost function RunSet<N>(ops: seq<Op<N>>): set<Mapping<N>> {
    if ops == [] then {}
    else
      var s := RunSet(ops[..|ops| - 1]);
      match ops[|ops| - 1]
      case Map(m) => s + {m}
      case Unmap(a) => Without(s, a)
  }

  /** The run is one that the code can do: every range it maps is a range of words that overlaps none
      mapped at that time, every removal is by a word whose lookup does not end in the level
      assertion, and every operation finds a slot for all that it puts into the tree. */
  ghost predicate Legal<N>(ops: seq<Op<N>>, width: nat)
    requires width > 0
  {
    ops != [] ==>
      var before := ops[..|ops| - 1];
      && Legal(before, width)
      && match ops[|ops| - 1]
         case Map(m) =>
           && m.lo <= m.hi < Pow2(width) && Clear(RunSet(before), m)
           && Fits(RunTree(before, width), m, Pow2(width - 1), width - 1)
         case Unmap(a) =>
           && a < Pow2(width) && !Locate(RunTree(before, width), a, Pow2(width - 1), width - 1).LevelZero?
           && RemoveFits(RunTree(before, width), a, Pow2(width - 1), width - 1)
  }

  /** After every run the tree is well-formed and holds exactly the set of ranges. */
  lemma {:induction false} RunOk<N>(ops: seq<Op<N>>, width: nat)
    requires width > 0 && Legal(ops, width)
    ensures WF(RunTree(ops, width), Pow2(width - 1), width - 1)
    ensures Items(RunTree(ops, width)) == RunSet(ops)
  {
    hide Insert, Remove, Fits, RemoveFits, WF, Locate;
    if ops == [] {
      RunStart<N>(width);
    } else {
      var before := ops[..|ops| - 1];
      var t := RunTree(before, width);
      RunOk(before, width);
      match ops[|ops| - 1]
      case Map(m) =>
        InsertOk(t, m, Pow2(width - 1), width - 1);
      case Unmap(a) =>
        UnmapOk(t, a, Pow2(width - 1), width - 1);
    }
  }

  lemma RunStart<N>(width: nat)
    requires width > 0
    ensures WF<N>(RunTree([], width), Pow2(width - 1), width - 1) && Items<N>(RunTree([], width)) == {}
  {
  }

  /** The ranges are disjoint ranges of words, the ranges 0 and 1 are never mapped together, and no
      removal trips the level assertion of its lookup. */
  ghost predicate Modest<N>(ops: seq<Op<N>>, width: nat)
    requires width > 0
  {
    ops != [] ==>
      var before := ops[..|ops| - 1];
      && Modest(before, width)
      && match ops[|ops| - 1]
         case Map(m) =>
           m.lo <= m.hi < Pow2(width) && Clear(RunSet(before), m) && Roomy(RunSet(before) + {m})
         case Unmap(a) =>
           a < Pow2(width) && !Locate(RunTree(before, width), a, Pow2(width - 1), width - 1).LevelZero?
  }

  /** Apart from the level assertion of lookups, nothing goes wrong in a run of disjoint ranges that
      never holds both the range 0 and the range 1. */
  lemma {:induction false} ModestLegal<N>(ops: seq<Op<N>>, width: nat)
    requires width > 0 && Modest(ops, width)
    ensures Legal(ops, width) && Roomy(RunSet(ops))
  {
    hide Insert, Remove, Fits, RemoveFits, WF, Locate;
    if ops != [] {
      var before := ops[..|ops| - 1];
      var t := RunTree(before, width);
      ModestLegal(before, width);
      RunOk(before, width);
      match ops[|ops| - 1]
      case Map(m) =>
        RoomyFits(t, m, Pow2(width - 1), width - 1);
      case Unmap(a) =>
        RoomyRemoves(t, a, Pow2(width - 1), width - 1);
    }
  }

  lemma UnmapOk<N>(t: Tree<N>, a: nat, semi: int, level: nat)
    requires Proper(semi, level) && WF(t, semi, level) && RemoveFits(t, a, semi, level)
    ensures WF(Remove(t, a, semi, level), semi, level)
    ensures Items(Remove(t, a, semi, level)) == Without(Items(t), a)
  {
    hide WF, Remove, Locate, RemoveFits;
    RemoveOk(t, a, semi, level);
    LocateOk(t, a, semi, level);
    match Locate(t, a, semi, level)
    case Hit(y) =>
      forall x | x in Items(t) && Covers(x, a)
        ensures x == y
      {
        WFApart(t, semi, level);
        CoverUnique(t, a, x, y);
      }
    case _ =>
  }

  /** After every run, a lookup answers with the one range of the set that covers the address, and
      without one exactly when there is none. */
  lemma RunLocate<N>(ops: seq<Op<N>>, a: nat, width: nat)
    requires width > 0 && Legal(ops, width)
    ensures var r := Locate(RunTree(ops, width), a, Pow2(width - 1), width - 1);
            && (r.Hit? ==> r.item in RunSet(ops) && Covers(r.item, a))
            && (forall y :: y in RunSet(ops) && Covers(y, a) ==> r == Hit(y))
  {
    hide WF, Locate, RunTree;
    var t := RunTree(ops, width);
    RunOk(ops, width);
    LocateOk(t, a, Pow2(width - 1), width - 1);
    match Locate(t, a, Pow2(width - 1), width - 1)
    case Hit(x) =>
      forall y | y in RunSet(ops) && Covers(y, a)
        ensures y == x
      {
        WFApart(t, Pow2(width - 1), width - 1);
        CoverUnique(t, a, y, x);
      }
    case _ =>
  }

  // ---- how far a lookup walks ----

  /** The number of nodes a lookup compares the address with. */
  function Visits<N>(t: Tree<N>, a: nat, semi: int, level: nat): nat
    decreases t
  {
    match t
    case Nil => 0
    case Bin(l, x, r) =>
      if Covers(x, a) || level == 0 then 1
      else if a < semi then 1 + Visits(l, a, MinSemi(semi, level), level - 1)
      else 1 + Visits(r, a, MaxSemi(semi, level), level - 1)
  }

  /** A range that lies in a slot of the tree covers no nonzero address with more trailing zero bits
      than the slot's level. */
  lemma {:induction false} CoverLevel<N>(x: Mapping<N>, a: nat, semi: nat, level: nat)
    requires IsSlot(semi, level) && InSlot(x, semi, level) && Covers(x, a) && a > 0
    ensures SemiLevel(a) <= level
    decreases level
  {
    SlotRange(semi, level);
    HalfReach(a, semi, level);
  }

  lemma {:induction false} HalfReach(a: nat, semi: nat, level: nat)
    requires IsSlot(semi, level) && Floor(semi, level) <= a <= Top(semi, level) && a > 0
    ensures SemiLevel(a) <= level
    decreases level
  {
    if level > 0 && a % 2 == 0 {
      HalfReach(a / 2, semi / 2, level - 1);
    }
  }

  /** A successful lookup of a nonzero address visits at most one node for each level from the
      root down to the level of the address's lowest set bit. */
  lemma {:induction false} VisitBound<N>(t: Tree<N>, a: nat, semi: nat, level: nat)
    requires IsSlot(semi, level) && WF(t, semi, level) && a > 0
    requires Locate(t, a, semi, level).Hit?
    ensures SemiLevel(a) <= level && Visits(t, a, semi, level) <= level + 1 - SemiLevel(a)
    decreases t
  {
    if Covers(t.item, a) {
      assert t.item in Items(t);
      CoverLevel(t.item, a, semi, level);
    } else {
      WalkMacros(t.item, semi, level);
      if a < semi {
        VisitBound(t.left, a, MinSemi(semi, level), level - 1);
      } else {
        VisitBound(t.right, a, MaxSemi(semi, level), level - 1);
      }
    }
  }

  /** What the walk of `a` finds in the slot whose midpoint is `a`, if it comes so far. */
  function OwnSlot<N>(t: Tree<N>, a: nat, semi: int, level: nat): Tree<N>
    decreases t
  {
    if t.Nil? || a == semi then t
    else if level == 0 then Nil
    else if a < semi then OwnSlot(t.left, a, MinSemi(semi, level), level - 1)
    else OwnSlot(t.right, a, MaxSemi(semi, level), level - 1)
  }

  /** A failing lookup of a nonzero address keeps the bound of a successful one if and only if it does not
      find both the slot whose midpoint is the address and that slot's upper child occupied. */
  lemma {:induction false} MissBound<N>(t: Tree<N>, a: nat, semi: nat, level: nat)
    requires IsSlot(semi, level) && WF(t, semi, level) && a > 0 && Floor(semi, level) <= a <= Top(semi, level)
    requires forall x :: x in Items(t) ==> !Covers(x, a)
    ensures SemiLevel(a) <= level
    ensures var own := OwnSlot(t, a, semi, level);
            Visits(t, a, semi, level) <= level + 1 - SemiLevel(a) <==> !(own.Bin? && own.right.Bin?)
    decreases t
  {
    HalfReach(a, semi, level);
    if t.Bin? {
      assert t.item in Items(t);
      WalkMacros(t.item, semi, level);
      if a == semi {
        SlotRange(semi, level);
      } else if level > 0 {
        if a < semi {
          MissBound(t.left, a, MinSemi(semi, level), level - 1);
        } else {
          MissBound(t.right, a, MaxSemi(semi, level), level - 1);
        }
      }
    }
  }
}
